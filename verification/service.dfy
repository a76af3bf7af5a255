/** The pool service as one state machine over the pool store: every
    request that writes pools is a step, a refused request leaves the store
    as it was, and a run is a sequence of steps. The invariants of the store
    are stated over whole runs. */
module Service {
  import opened Results
  import opened Errors
  import opened JsValues
  import opened Lists
  import opened Pools
  import PoolManager
  import Share
  import CreditSharing
  import MainServer
  import TopUp

  /** Sixteen random bytes, the entropy of a new pool id. */
  type IdBytes = b: seq<PoolManager.Byte> | |b| == 16 witness seq(16, _ => 0)

  /** The requests that can change the pool store, with the outcomes of the
      collaborators each one consults. */
  datatype Op =
    | Create(req: PoolManager.PoolRequest, password: string, randomBytes: IdBytes,
             walletsDir: string, provision: PoolManager.WalletProvision)
    | Edit(id: PoolId, cred: MainServer.Credentials, patch: PoolManager.PoolPatch)
    | Whitelist(id: PoolId, cred: MainServer.Credentials, addresses: Option<seq<Address>>)
    | Revoke(id: PoolId, cred: MainServer.Credentials, wallet: Address)
    | Grant(id: PoolId, wallet: Address, now: Time, ledger: Share.Ledger)
    | Spend(id: PoolId, wallet: Address, now: Time, spent: real)
    | TopUp(id: PoolId, password: string, amount: JsValue, creator: Address,
            chain: TopUp.Chain, now: Time)

  /** The request is not a pool edit: only an edit can replace a whitelist
      wholesale or lower a cap. */
  predicate NotAnEdit(op: Op) {
    !op.Edit?
  }

  /** The store after one request; a refused request changes nothing.
      No route of the service records usage: the spend step stands for a
      caller that passes the usage bookkeeping the record the access check
      has just returned. A caller passing any other pool object can erase
      a grant or move a pool to another creator (see
      `PoolManager.UpdatePoolUsageMayForgetCredit` and
      `PoolManager.UpdatePoolUsageMayMovePool`), and the invariants below
      do not cover it. */
  function Step(s: Store, op: Op, hash: string -> Digest): Store {
    match op
    case Create(req, password, bytes, dir, wallet) =>
      var r := MainServer.CreatePoolRoute(s, req, password, hash, bytes, dir, wallet);
      if r.Ok? then r.value.store else s
    case Edit(id, cred, patch) =>
      var r := MainServer.EditPool(s, id, cred, patch, hash);
      if r.Ok? then r.value else s
    case Whitelist(id, cred, addresses) =>
      var r := MainServer.AddToWhitelist(s, id, cred, addresses, hash);
      if r.Ok? then r.value else s
    case Revoke(id, cred, wallet) =>
      var r := MainServer.Revoke(s, id, cred, wallet, hash);
      if r.Ok? then r.value else s
    case Grant(id, wallet, now, ledger) =>
      var r := CreditSharing.HandleCreditSharing(s, id, wallet, now, ledger);
      if r.Ok? then r.value.store else s
    case Spend(id, wallet, now, spent) =>
      var access := PoolManager.ValidateEventPoolAccess(s, id, wallet, now);
      if access.Err? then s
      else
        var r := PoolManager.UpdatePoolUsage(s, id, wallet, spent, access.value);
        if r.Ok? then r.value else s
    case TopUp(id, password, amount, creator, chain, now) =>
      var r := TopUp.HandleTopUp(s, id, password, amount, creator, hash, chain, now);
      if r.Ok? then r.value.store else s
  }

  /** The store after a run of requests. */
  function Run(s: Store, ops: seq<Op>, hash: string -> Digest): Store
    decreases |ops|
  {
    if |ops| == 0 then s else Run(Step(s, ops[0], hash), ops[1..], hash)
  }

  /** The invariants that hold whatever requests arrive: the quota, and no
      wallet listed twice in one pool's `creditedWallets`. A wallet may still
      be granted twice by a pool if it is revoked and whitelisted again. */
  ghost predicate Sound(s: Store) {
    AtMostThreePerCreator(s) && AllCreditsOnce(s)
  }

  /** Those together with credited wallets being whitelisted and usage
      being within the cap, which edits can break. */
  ghost predicate FullySound(s: Store) {
    Sound(s) && AllCreditedWithinWhitelist(s) && AllUsageWithinCap(s)
  }

  /** Every step keeps `Sound`. */
  lemma StepKeepsSound(s: Store, op: Op, hash: string -> Digest)
    requires Sound(s)
    ensures Sound(Step(s, op, hash))
  {
    var t := Step(s, op, hash);
    if t != s {
      match op
      case Create(req, password, bytes, dir, wallet) =>
        var c := MainServer.CreatePoolRoute(s, req, password, hash, bytes, dir, wallet).value;
        PoolManager.CreatePoolKeepsQuota(s, req.(passwordHash := hash(password)), bytes, dir, wallet);
        assert t == c.store == s[c.poolId := c.store[c.poolId]];
      case Edit(id, cred, patch) =>
        PoolManager.UpdatePoolKeepsQuota(s, id, patch);
        assert Credited(t[id]) == Credited(s[id]);
      case Whitelist(id, cred, addresses) =>
        SameCreatorKeepsQuota(s, id, t[id]);
      case Revoke(id, cred, wallet) =>
        SameCreatorKeepsQuota(s, id, t[id]);
        if s[id].creditedWallets.Some? {
          WithoutKeepsNoDuplicates(s[id].creditedWallets.value, wallet);
        }
      case Grant(id, wallet, now, ledger) =>
        SameCreatorKeepsQuota(s, id, t[id]);
        AppendFreshKeepsNoDuplicates(Credited(s[id]), wallet);
      case Spend(id, wallet, now, spent) =>
        SameCreatorKeepsQuota(s, id, t[id]);
      case TopUp(id, password, amount, creator, chain, now) =>
        SameCreatorKeepsQuota(s, id, t[id]);
    }
  }

  /** Every step other than an edit keeps `FullySound`. */
  lemma StepKeepsFullySound(s: Store, op: Op, hash: string -> Digest)
    requires FullySound(s) && NotAnEdit(op)
    ensures FullySound(Step(s, op, hash))
  {
    StepKeepsSound(s, op, hash);
    var t := Step(s, op, hash);
    if t != s {
      match op
      case Create(req, password, bytes, dir, wallet) =>
        var c := MainServer.CreatePoolRoute(s, req, password, hash, bytes, dir, wallet).value;
        assert t == c.store;
      case Whitelist(id, cred, addresses) =>
        MainServer.AddToWhitelistKeepsInvariants(s, id, cred, addresses, hash);
      case Revoke(id, cred, wallet) =>
        MainServer.RevokeKeepsInvariants(s, id, cred, wallet, hash);
      case Grant(id, wallet, now, ledger) =>
        CreditSharing.GrantKeepsInvariants(s, id, wallet, now, ledger);
      case Spend(id, wallet, now, spent) =>
        PoolManager.UpdatePoolUsageKeepsInvariants(s, id, wallet, spent);
      case TopUp(id, password, amount, creator, chain, now) =>
        TopUp.TopUpKeepsInvariants(s, id, password, amount, creator, hash, chain, now);
    }
  }

  /** Whatever requests arrive, no creator ever owns more than three pools
      and no pool lists a wallet twice in its `creditedWallets`. */
  lemma {:induction false} RunKeepsSound(s: Store, ops: seq<Op>, hash: string -> Digest)
    requires Sound(s)
    ensures Sound(Run(s, ops, hash))
    decreases |ops|
  {
    if |ops| > 0 {
      StepKeepsSound(s, ops[0], hash);
      RunKeepsSound(Step(s, ops[0], hash), ops[1..], hash);
    }
  }

  /** Without edits, credited wallets also stay whitelisted and usage stays
      within the cap. */
  lemma {:induction false} RunWithoutEditsKeepsFullySound(s: Store, ops: seq<Op>, hash: string -> Digest)
    requires FullySound(s)
    requires forall i :: 0 <= i < |ops| ==> NotAnEdit(ops[i])
    ensures FullySound(Run(s, ops, hash))
    decreases |ops|
  {
    if |ops| > 0 {
      StepKeepsFullySound(s, ops[0], hash);
      RunWithoutEditsKeepsFullySound(Step(s, ops[0], hash), ops[1..], hash);
    }
  }

  /** The empty store satisfies every invariant. */
  lemma EmptyStoreIsFullySound()
    ensures FullySound(map[])
  {
    var e: Store := map[];
    forall c
      ensures |PoolsOf(e, c)| <= MaxPoolsPerCreator
    {
      assert PoolsOf(e, c) == {};
    }
  }
}
