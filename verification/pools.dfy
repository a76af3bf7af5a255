/** The persisted pool collection: one record per event pool, kept in a map
    from pool id to pool. Loading and saving the whole collection is modelled
    as passing an immutable snapshot (`Store`) from one operation to the next;
    an operation that fails returns no snapshot, so the previous one stays in
    force.

    Timestamps are instants in milliseconds. The service stores them as ISO
    8601 strings and sometimes compares the strings directly; for canonical
    UTC strings of equal length (as `Date.prototype.toISOString` produces)
    that lexical order is the order of the instants, which is what this model
    assumes. */
module Pools {
  import opened Results
  import opened Lists

  type Address = string
  type PoolId = string
  /** Milliseconds since the epoch. */
  type Time = int
  /** A SHA-256 digest in hex, as `digest('hex')` gives it: 64 characters. */
  type Digest = d: string | |d| == 64 witness seq(64, _ => '0')

  /** At most this many pools may share one creator address. */
  const MaxPoolsPerCreator: nat := 3

  /** One entry of a pool's top-up log. */
  datatype TopUpEntry = TopUpEntry(amount: real, timestamp: Time)

  /** A pool record as persisted. `creditedWallets` and `topUpHistory` are
      absent from a freshly created pool and are added on first use. */
  datatype Pool = Pool(
    name: string,
    startTime: Time,
    endTime: Time,
    usageCap: real,
    walletPath: string,
    whitelist: seq<Address>,
    usage: map<Address, real>,
    creatorAddress: Address,
    passwordHash: string,
    creditedWallets: Option<seq<Address>>,
    topUpHistory: Option<seq<TopUpEntry>>)

  type Store = map<PoolId, Pool>

  /** The wallets already granted credits (none when the field is absent). */
  function Credited(p: Pool): seq<Address> {
    p.creditedWallets.GetOr([])
  }

  /** The top-up log (empty when the field is absent). */
  function History(p: Pool): seq<TopUpEntry> {
    p.topUpHistory.GetOr([])
  }

  /** Cumulative spend recorded for `w` (`pool.usage[w] || 0`). */
  function UsageOf(p: Pool, w: Address): real {
    if w in p.usage then p.usage[w] else 0.0
  }

  /** The pool's window `[startTime, endTime]`, closed at both ends, contains
      `now`. */
  predicate ActiveAt(p: Pool, now: Time) {
    p.startTime <= now <= p.endTime
  }

  /** Ids of the pools created by `creator`. */
  function PoolsOf(s: Store, creator: Address): set<PoolId> {
    set k | k in s && s[k].creatorAddress == creator
  }

  // ---------------------------------------------------------------------
  // Invariants the service is meant to keep

  /** No creator owns more than three pools. */
  ghost predicate AtMostThreePerCreator(s: Store) {
    forall c :: |PoolsOf(s, c)| <= MaxPoolsPerCreator
  }

  /** Only whitelisted wallets have been granted credits. */
  predicate CreditedWithinWhitelist(p: Pool) {
    forall w :: w in Credited(p) ==> w in p.whitelist
  }

  /** No wallet's cumulative spend exceeds the cap. */
  predicate UsageWithinCap(p: Pool) {
    forall w :: w in p.usage ==> p.usage[w] <= p.usageCap
  }

  predicate AllCreditedWithinWhitelist(s: Store) {
    forall k :: k in s ==> CreditedWithinWhitelist(s[k])
  }

  predicate AllCreditsOnce(s: Store) {
    forall k :: k in s ==> NoDuplicates(Credited(s[k]))
  }

  predicate AllUsageWithinCap(s: Store) {
    forall k :: k in s ==> UsageWithinCap(s[k])
  }

  /** Storing a record whose creator owns fewer than three pools keeps the
      quota, whether the id is new or replaces another creator's record. */
  lemma InsertKeepsQuota(s: Store, id: PoolId, p: Pool)
    requires AtMostThreePerCreator(s)
    requires |PoolsOf(s, p.creatorAddress)| < MaxPoolsPerCreator
    ensures AtMostThreePerCreator(s[id := p])
  {
    var t := s[id := p];
    forall c
      ensures |PoolsOf(t, c)| <= MaxPoolsPerCreator
    {
      var bound := if c == p.creatorAddress then PoolsOf(s, c) + {id} else PoolsOf(s, c);
      assert PoolsOf(t, c) <= bound;
      SubsetNoLarger(PoolsOf(t, c), bound);
    }
  }

  /** A subset is no larger than its superset. */
  lemma SubsetNoLarger<T>(a: set<T>, b: set<T>)
    requires a <= b
    ensures |a| <= |b|
  {
    assert b == a + (b - a);
  }

  /** Replacing one record by one with the same creator leaves every
      creator's set of pools as it was. */
  lemma SameCreatorSamePools(s: Store, id: PoolId, p: Pool)
    requires id in s && p.creatorAddress == s[id].creatorAddress
    ensures forall c :: PoolsOf(s[id := p], c) == PoolsOf(s, c)
  {
    forall c
      ensures PoolsOf(s[id := p], c) == PoolsOf(s, c)
    {
      assert forall k :: k in PoolsOf(s[id := p], c) <==> k in PoolsOf(s, c);
    }
  }

  /** Hence such a replacement keeps the per-creator quota. */
  lemma SameCreatorKeepsQuota(s: Store, id: PoolId, p: Pool)
    requires AtMostThreePerCreator(s)
    requires id in s && p.creatorAddress == s[id].creatorAddress
    ensures AtMostThreePerCreator(s[id := p])
  {
    SameCreatorSamePools(s, id, p);
    var t := s[id := p];
    forall c
      ensures |PoolsOf(t, c)| <= MaxPoolsPerCreator
    {
      assert PoolsOf(t, c) == PoolsOf(s, c);
    }
  }
}
