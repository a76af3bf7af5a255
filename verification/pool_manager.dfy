/** The pool manager: creating pools under the per-creator quota, editing a
    pool all-or-nothing, the access check made before credits are handed out,
    and cumulative spend bookkeeping against the usage cap. */
module PoolManager {
  import opened Results
  import opened Errors
  import opened JsValues
  import opened Lists
  import opened Pools

  // ---------------------------------------------------------------------
  // Pool ids

  type Byte = x: int | 0 <= x < 256

  predicate IsHexChar(c: char) {
    '0' <= c <= '9' || 'a' <= c <= 'f'
  }

  predicate IsLowerHex(s: string) {
    forall i :: 0 <= i < |s| ==> IsHexChar(s[i])
  }

  /** The lower-case hex digit for `v`. */
  function HexDigit(v: nat): (c: char)
    requires v < 16
    ensures IsHexChar(c)
  {
    if v < 10 then ('0' as int + v) as char else ('a' as int + v - 10) as char
  }

  /** `Buffer.prototype.toString('hex')`: two lower-case digits per byte,
      high nibble first. */
  function HexEncode(bytes: seq<Byte>): (r: string)
    ensures |r| == 2 * |bytes|
    ensures IsLowerHex(r)
  {
    if |bytes| == 0 then ""
    else [HexDigit(bytes[0] / 16), HexDigit(bytes[0] % 16)] + HexEncode(bytes[1..])
  }

  /** Value of one lower-case hex digit. */
  function HexValue(c: char): (v: nat)
    requires IsHexChar(c)
    ensures v < 16 && HexDigit(v) == c
  {
    if '0' <= c <= '9' then c as int - '0' as int else c as int - 'a' as int + 10
  }

  /** Reads an even-length lower-case hex string back into bytes. */
  function HexDecode(s: string): seq<Byte>
    requires |s| % 2 == 0 && IsLowerHex(s)
  {
    if |s| == 0 then []
    else [HexValue(s[0]) * 16 + HexValue(s[1])] + HexDecode(s[2..])
  }

  /** Hex encoding loses nothing: distinct random bytes give distinct ids. */
  lemma {:induction false} HexRoundTrip(bytes: seq<Byte>)
    ensures HexDecode(HexEncode(bytes)) == bytes
  {
    if |bytes| > 0 {
      var b := bytes[0];
      var e := HexEncode(bytes);
      assert e[2..] == HexEncode(bytes[1..]);
      assert e[0] == HexDigit(b / 16) && e[1] == HexDigit(b % 16);
      HexRoundTrip(bytes[1..]);
    }
  }

  // ---------------------------------------------------------------------
  // Store reads

  /** The stored pool with id `id` (`getPoolById`); an unknown id is
      POOL_NOT_FOUND. */
  function GetPoolById(s: Store, id: PoolId): (r: Result<Pool, ErrorCode>)
    ensures r.Ok? <==> id in s
    ensures r.Ok? ==> r.value == s[id]
    ensures r.Err? ==> r.error == PoolNotFound
  {
    if id in s then Ok(s[id]) else Err(PoolNotFound)
  }

  // ---------------------------------------------------------------------
  // updatePool

  /** The fields an edit request may carry. A time or whitelist that is
      absent or falsy is `None`; `usageCap` keeps its JSON type because the
      check depends on it. */
  datatype PoolPatch = PoolPatch(
    startTime: Option<Time>,
    endTime: Option<Time>,
    whitelist: Option<seq<Address>>,
    usageCap: JsValue)

  /** A supplied cap must be a positive number. */
  predicate CapPatchAccepted(cap: JsValue) {
    cap == Undefined || (cap.Number? && cap.num > 0.0)
  }

  /** `p` with the supplied fields copied in, before any check. */
  function ApplyPatch(p: Pool, patch: PoolPatch): Pool {
    p.(startTime := patch.startTime.GetOr(p.startTime),
       endTime := patch.endTime.GetOr(p.endTime),
       whitelist := patch.whitelist.GetOr(p.whitelist),
       usageCap := if patch.usageCap.Number? then patch.usageCap.num else p.usageCap)
  }

  /** Edits pool `id`. The supplied fields replace the stored ones; the edit
      is refused as a whole when the cap is not a positive number or the
      resulting window is empty, and nothing else in the store changes. */
  function UpdatePool(s: Store, id: PoolId, patch: PoolPatch): (r: Result<Store, ErrorCode>)
    ensures r == Err(PoolNotFound) <==> id !in s
    ensures id in s && !CapPatchAccepted(patch.usageCap) ==> r == Err(InvalidUsageCap)
    ensures (&& id in s && CapPatchAccepted(patch.usageCap)
             && ApplyPatch(s[id], patch).startTime >= ApplyPatch(s[id], patch).endTime) ==>
      r == Err(InvalidTimeRange)
    ensures r.Ok? <==>
      && id in s
      && CapPatchAccepted(patch.usageCap)
      && ApplyPatch(s[id], patch).startTime < ApplyPatch(s[id], patch).endTime
    ensures r.Err? ==> r.error == PoolNotFound || r.error == InvalidUsageCap || r.error == InvalidTimeRange
    // only the edited record changes
    ensures r.Ok? ==> id in r.value && r.value == s[id := r.value[id]]
    // a supplied field wins, an absent one keeps the stored value
    ensures r.Ok? ==> r.value[id].startTime == (if patch.startTime.Some? then patch.startTime.value else s[id].startTime)
    ensures r.Ok? ==> r.value[id].endTime == (if patch.endTime.Some? then patch.endTime.value else s[id].endTime)
    ensures r.Ok? ==> r.value[id].whitelist == (if patch.whitelist.Some? then patch.whitelist.value else s[id].whitelist)
    ensures r.Ok? ==> r.value[id].usageCap == (if patch.usageCap.Number? then patch.usageCap.num else s[id].usageCap)
    // every field an edit cannot touch is as before
    ensures r.Ok? ==>
      r.value[id].(startTime := s[id].startTime, endTime := s[id].endTime,
                   whitelist := s[id].whitelist, usageCap := s[id].usageCap) == s[id]
    // what an accepted edit guarantees
    ensures r.Ok? ==> r.value[id].startTime < r.value[id].endTime
    ensures r.Ok? && patch.usageCap != Undefined ==> r.value[id].usageCap > 0.0
  {
    if id !in s then Err(PoolNotFound)
    else
      var pool := s[id];
      if !CapPatchAccepted(patch.usageCap) then Err(InvalidUsageCap)
      else
        var edited := ApplyPatch(pool, patch);
        if edited.startTime >= edited.endTime then Err(InvalidTimeRange)
        else Ok(s[id := edited])
  }

  /** Copying the same fields in twice is copying them once, and a patch
      that supplies nothing leaves the record as it was. */
  lemma ApplyPatchIdempotent(p: Pool, patch: PoolPatch)
    ensures ApplyPatch(ApplyPatch(p, patch), patch) == ApplyPatch(p, patch)
    ensures ApplyPatch(p, PoolPatch(None, None, None, Undefined)) == p
  {
  }

  /** Applying an accepted edit a second time changes nothing more. */
  lemma UpdatePoolIdempotent(s: Store, id: PoolId, patch: PoolPatch)
    requires UpdatePool(s, id, patch).Ok?
    ensures UpdatePool(UpdatePool(s, id, patch).value, id, patch) == UpdatePool(s, id, patch)
  {
    var t := UpdatePool(s, id, patch).value;
    assert ApplyPatch(t[id], patch) == t[id];
    assert t[id := t[id]] == t;
  }

  /** An empty edit of a pool whose window is well formed rewrites the same
      store. */
  lemma EmptyPatchIsNoOp(s: Store, id: PoolId)
    requires id in s && s[id].startTime < s[id].endTime
    ensures UpdatePool(s, id, PoolPatch(None, None, None, Undefined)) == Ok(s)
  {
    assert s[id := s[id]] == s;
  }

  /** Edits never change a creator, so the quota still holds afterwards. */
  lemma UpdatePoolKeepsQuota(s: Store, id: PoolId, patch: PoolPatch)
    requires AtMostThreePerCreator(s)
    requires UpdatePool(s, id, patch).Ok?
    ensures AtMostThreePerCreator(UpdatePool(s, id, patch).value)
  {
    SameCreatorKeepsQuota(s, id, UpdatePool(s, id, patch).value[id]);
  }

  /** An edit that leaves the whitelist alone, or supplies one still holding
      every credited wallet, keeps the credited wallets whitelisted. */
  lemma UpdatePoolKeepsCreditedWhitelisted(s: Store, id: PoolId, patch: PoolPatch)
    requires AllCreditedWithinWhitelist(s)
    requires UpdatePool(s, id, patch).Ok?
    requires patch.whitelist.Some? ==> forall w :: w in Credited(s[id]) ==> w in patch.whitelist.value
    ensures AllCreditedWithinWhitelist(UpdatePool(s, id, patch).value)
  {
  }

  /** But an edit is free to replace the whitelist by one that leaves out a
      credited wallet: the edit does not look at `creditedWallets`. */
  lemma UpdatePoolMayDropCreditedWallet()
    ensures var p := Pool("e", 0, 10, 1.0, "w", ["a"], map[], "c", "h", Some(["a"]), None);
            var r := UpdatePool(map["id" := p], "id", PoolPatch(None, None, Some([]), Undefined));
            CreditedWithinWhitelist(p) && r.Ok? && !CreditedWithinWhitelist(r.value["id"])
  {
    var p := Pool("e", 0, 10, 1.0, "w", ["a"], map[], "c", "h", Some(["a"]), None);
    var r := UpdatePool(map["id" := p], "id", PoolPatch(None, None, Some([]), Undefined));
    assert "a" in Credited(r.value["id"]);
  }

  /** An edit stores a supplied whitelist as it is, repeated entries
      included: a duplicate-free whitelist is not an invariant of the store. */
  lemma UpdatePoolMayStoreDuplicates()
    ensures var p := Pool("e", 0, 10, 1.0, "w", ["a"], map[], "c", "h", None, None);
            var r := UpdatePool(map["id" := p], "id", PoolPatch(None, None, Some(["a", "a"]), Undefined));
            NoDuplicates(p.whitelist) && r.Ok? && !NoDuplicates(r.value["id"].whitelist)
  {
    var p := Pool("e", 0, 10, 1.0, "w", ["a"], map[], "c", "h", None, None);
    var r := UpdatePool(map["id" := p], "id", PoolPatch(None, None, Some(["a", "a"]), Undefined));
    assert r.value["id"].whitelist[0] == r.value["id"].whitelist[1];
  }

  /** Nor does an edit look at the usage already recorded: lowering the cap
      below a wallet's spend is accepted. */
  lemma UpdatePoolMayLowerCapBelowUsage()
    ensures var p := Pool("e", 0, 10, 4.0, "w", ["a"], map["a" := 3.0], "c", "h", None, None);
            var r := UpdatePool(map["id" := p], "id", PoolPatch(None, None, None, Number(2.0)));
            UsageWithinCap(p) && r.Ok? && !UsageWithinCap(r.value["id"])
  {
    var p := Pool("e", 0, 10, 4.0, "w", ["a"], map["a" := 3.0], "c", "h", None, None);
    var r := UpdatePool(map["id" := p], "id", PoolPatch(None, None, None, Number(2.0)));
    assert "a" in r.value["id"].usage;
  }

  // ---------------------------------------------------------------------
  // createPool

  /** The fields of a create request, already parsed: a field that is absent
      or falsy is `None` or the empty string, and a usage cap of 0 counts as
      absent (`!usageCap`). */
  datatype PoolRequest = PoolRequest(
    name: string,
    startTime: Option<Time>,
    endTime: Option<Time>,
    usageCap: Option<real>,
    whitelist: Option<seq<Address>>,
    creatorAddress: Address,
    passwordHash: string)

  predicate HasRequiredFields(req: PoolRequest) {
    && req.name != ""
    && req.startTime.Some?
    && req.endTime.Some?
    && req.usageCap.Some? && req.usageCap.value != 0.0
    && req.whitelist.Some?
    && req.creatorAddress != ""
    && req.passwordHash != ""
  }

  /** What the wallet collaborator does: key generation fails, deriving the
      address from the key is rejected with `error` (an uncoded rejection
      is `Thrown`), writing the key file fails, or a wallet with the given
      address is in place. */
  datatype WalletProvision =
    | GenerationFailed
    | AddressFailed(error: ErrorCode)
    | SaveFailed
    | Provisioned(address: Address)

  /** A created pool: the new snapshot, the pool id and the custody address. */
  datatype Created = Created(store: Store, poolId: PoolId, walletAddress: Address)

  /** Where the custody key of pool `id` is written. */
  function WalletPathFor(walletsDir: string, id: PoolId): string {
    walletsDir + "/" + id + ".json"
  }

  /** Creates a pool from `req` under the id drawn from 16 random bytes.
      Missing fields are refused first, then a creator already owning three
      pools; a created pool starts with no usage, no credited wallets and no
      top-up history, and no other record changes. */
  function CreatePool(s: Store, req: PoolRequest, randomBytes: seq<Byte>, walletsDir: string,
                      wallet: WalletProvision): (r: Result<Created, ErrorCode>)
    requires |randomBytes| == 16
    ensures !HasRequiredFields(req) ==> r == Err(MissingFields)
    ensures HasRequiredFields(req) && |PoolsOf(s, req.creatorAddress)| >= MaxPoolsPerCreator ==>
      r == Err(PoolLimitExceeded)
    ensures r.Ok? <==>
      HasRequiredFields(req) && |PoolsOf(s, req.creatorAddress)| < MaxPoolsPerCreator && wallet.Provisioned?
    ensures (&& wallet.GenerationFailed? && HasRequiredFields(req)
             && |PoolsOf(s, req.creatorAddress)| < MaxPoolsPerCreator) ==> r == Err(WalletGenerationFailed)
    ensures (&& wallet.AddressFailed? && HasRequiredFields(req)
             && |PoolsOf(s, req.creatorAddress)| < MaxPoolsPerCreator) ==> r == Err(wallet.error)
    ensures (&& wallet.SaveFailed? && HasRequiredFields(req)
             && |PoolsOf(s, req.creatorAddress)| < MaxPoolsPerCreator) ==> r == Err(WalletSaveFailed)
    ensures r.Ok? ==> r.value.poolId == HexEncode(randomBytes)
    ensures r.Ok? ==> |r.value.poolId| == 32 && IsLowerHex(r.value.poolId)
    ensures r.Ok? ==> r.value.walletAddress == wallet.address
    ensures r.Ok? ==> r.value.store.Keys == s.Keys + {r.value.poolId}
    ensures r.Ok? ==> forall k :: k in s && k != r.value.poolId ==> r.value.store[k] == s[k]
    ensures r.Ok? ==>
      var p := r.value.store[r.value.poolId];
      && p.name == req.name
      && p.startTime == req.startTime.value
      && p.endTime == req.endTime.value
      && p.usageCap == req.usageCap.value
      && p.whitelist == req.whitelist.value
      && p.creatorAddress == req.creatorAddress
      && p.passwordHash == req.passwordHash
      && p.walletPath == WalletPathFor(walletsDir, r.value.poolId)
      && p.usage == map[]
      && p.creditedWallets == None
      && p.topUpHistory == None
  {
    if !HasRequiredFields(req) then Err(MissingFields)
    else if |PoolsOf(s, req.creatorAddress)| >= MaxPoolsPerCreator then Err(PoolLimitExceeded)
    else if wallet.GenerationFailed? then Err(WalletGenerationFailed)
    else if wallet.AddressFailed? then Err(wallet.error)
    else
      var id := HexEncode(randomBytes);
      if wallet.SaveFailed? then Err(WalletSaveFailed)
      else
        var pool := Pool(req.name, req.startTime.value, req.endTime.value, req.usageCap.value,
                         WalletPathFor(walletsDir, id), req.whitelist.value, map[],
                         req.creatorAddress, req.passwordHash, None, None);
        Ok(Created(s[id := pool], id, wallet.address))
  }

  /** Creating a pool never takes a creator past three pools. The new record
      joins only its own creator's set, which had at most two members; if the
      id was already taken, the record it replaces leaves its creator's set. */
  lemma CreatePoolKeepsQuota(s: Store, req: PoolRequest, randomBytes: seq<Byte>, walletsDir: string,
                             wallet: WalletProvision)
    requires |randomBytes| == 16
    requires AtMostThreePerCreator(s)
    requires CreatePool(s, req, randomBytes, walletsDir, wallet).Ok?
    ensures AtMostThreePerCreator(CreatePool(s, req, randomBytes, walletsDir, wallet).value.store)
  {
    var created := CreatePool(s, req, randomBytes, walletsDir, wallet).value;
    InsertKeepsQuota(s, created.poolId, created.store[created.poolId]);
  }

  /** Pools created from different random bytes get different ids, so a
      new pool never overwrites one created from other bytes. */
  lemma CreatedIdsDiffer(s1: Store, req1: PoolRequest, bytes1: seq<Byte>, dir1: string, wallet1: WalletProvision,
                         s2: Store, req2: PoolRequest, bytes2: seq<Byte>, dir2: string, wallet2: WalletProvision)
    requires |bytes1| == 16 && |bytes2| == 16 && bytes1 != bytes2
    requires CreatePool(s1, req1, bytes1, dir1, wallet1).Ok? && CreatePool(s2, req2, bytes2, dir2, wallet2).Ok?
    ensures CreatePool(s1, req1, bytes1, dir1, wallet1).value.poolId
         != CreatePool(s2, req2, bytes2, dir2, wallet2).value.poolId
  {
    HexRoundTrip(bytes1);
    HexRoundTrip(bytes2);
  }

  /** With an unused id, creation adds exactly one record. */
  lemma CreatePoolAddsOneRecord(s: Store, req: PoolRequest, randomBytes: seq<Byte>, walletsDir: string,
                                wallet: WalletProvision)
    requires |randomBytes| == 16
    requires HexEncode(randomBytes) !in s
    requires CreatePool(s, req, randomBytes, walletsDir, wallet).Ok?
    ensures |CreatePool(s, req, randomBytes, walletsDir, wallet).value.store| == |s| + 1
  {
  }

  // ---------------------------------------------------------------------
  // validateEventPoolAccess

  /** The access check for a (pool, wallet) pair at instant `now`: the pool
      must exist, `now` must lie in its window (both ends included), and the
      wallet must be whitelisted, checked in that order. */
  function ValidateEventPoolAccess(s: Store, id: PoolId, wallet: Address, now: Time): (r: Result<Pool, ErrorCode>)
    ensures id !in s ==> r == Err(InvalidPoolId)
    ensures id in s && !ActiveAt(s[id], now) ==> r == Err(PoolNotActive)
    ensures id in s && ActiveAt(s[id], now) && wallet !in s[id].whitelist ==> r == Err(WalletNotWhitelisted)
    ensures r.Ok? <==> id in s && ActiveAt(s[id], now) && wallet in s[id].whitelist
    ensures r.Ok? ==> r.value == s[id]
  {
    if id !in s then Err(InvalidPoolId)
    else
      var pool := s[id];
      if now < pool.startTime || now > pool.endTime then Err(PoolNotActive)
      else if wallet !in pool.whitelist then Err(WalletNotWhitelisted)
      else Ok(pool)
  }

  /** The window is closed: a pool is open at its first and its last
      millisecond and closed one millisecond outside either end. */
  lemma AccessWindowIsClosed(s: Store, id: PoolId, wallet: Address)
    requires id in s && s[id].startTime <= s[id].endTime && wallet in s[id].whitelist
    ensures ValidateEventPoolAccess(s, id, wallet, s[id].startTime).Ok?
    ensures ValidateEventPoolAccess(s, id, wallet, s[id].endTime).Ok?
    ensures ValidateEventPoolAccess(s, id, wallet, s[id].startTime - 1) == Err(PoolNotActive)
    ensures ValidateEventPoolAccess(s, id, wallet, s[id].endTime + 1) == Err(PoolNotActive)
  {
  }

  // ---------------------------------------------------------------------
  // updatePoolUsage

  /** Records that `wallet` spent `spent` more from the pool object `pool`
      handed in by the caller, and writes that object back under `id`. The
      new total may not exceed the cap; otherwise nothing is written.
      The total is compared with `usageCap` as stored, in credits, while the
      amount spent is in winston. */
  function UpdatePoolUsage(s: Store, id: PoolId, wallet: Address, spent: real, pool: Pool): (r: Result<Store, ErrorCode>)
    ensures r.Ok? <==> UsageOf(pool, wallet) + spent <= pool.usageCap
    ensures r.Err? ==> r.error == UsageCapExceeded
    ensures r.Ok? ==> r.value.Keys == s.Keys + {id}
    ensures r.Ok? ==> forall k :: k in s && k != id ==> r.value[k] == s[k]
    ensures r.Ok? ==> UsageOf(r.value[id], wallet) == UsageOf(pool, wallet) + spent
    ensures r.Ok? ==> UsageOf(r.value[id], wallet) <= r.value[id].usageCap
    ensures r.Ok? ==> forall w :: w != wallet ==> UsageOf(r.value[id], w) == UsageOf(pool, w)
    ensures r.Ok? ==> r.value[id].(usage := pool.usage) == pool
    ensures r.Ok? ==> r.value[id].usage == pool.usage[wallet := UsageOf(pool, wallet) + spent]
    ensures r.Ok? && UsageWithinCap(pool) ==> UsageWithinCap(r.value[id])
  {
    var total := UsageOf(pool, wallet) + spent;
    if total > pool.usageCap then Err(UsageCapExceeded)
    else Ok(s[id := pool.(usage := pool.usage[wallet := total])])
  }

  /** The pool written back is the caller's object, not the stored record:
      a caller holding a copy read before a grant erases that grant, so
      only a caller that passes the stored record keeps the invariants. */
  lemma UpdatePoolUsageMayForgetCredit()
    ensures var stored := Pool("e", 0, 10, 4.0, "w", ["a"], map[], "c", "h", Some(["a"]), None);
            var stale := stored.(creditedWallets := None);
            var r := UpdatePoolUsage(map["id" := stored], "id", "a", 1.0, stale);
            && r.Ok? && Credited(stored) == ["a"] && Credited(r.value["id"]) == []
  {
  }

  /** Nor is the id checked against the pool: a pool written under another
      pool's id adds a pool to its creator's count. */
  lemma UpdatePoolUsageMayMovePool()
    ensures var mine := Pool("e", 0, 10, 4.0, "w", ["a"], map[], "c", "h", None, None);
            var other := mine.(creatorAddress := "d");
            var s := map["x" := mine, "y" := other];
            var r := UpdatePoolUsage(s, "y", "a", 1.0, mine);
            && r.Ok? && PoolsOf(s, "c") == {"x"} && PoolsOf(r.value, "c") == {"x", "y"}
  {
    var mine := Pool("e", 0, 10, 4.0, "w", ["a"], map[], "c", "h", None, None);
    var other := mine.(creatorAddress := "d");
    var s := map["x" := mine, "y" := other];
    var t := UpdatePoolUsage(s, "y", "a", 1.0, mine).value;
    assert "x" != "y";
    assert PoolsOf(s, "c") == {"x"};
    assert t.Keys == {"x", "y"};
    assert PoolsOf(t, "c") == {"x", "y"};
  }

  /** Recording usage against the stored pool keeps every store invariant. */
  lemma UpdatePoolUsageKeepsInvariants(s: Store, id: PoolId, wallet: Address, spent: real)
    requires id in s
    requires AtMostThreePerCreator(s) && AllUsageWithinCap(s)
    requires AllCreditedWithinWhitelist(s) && AllCreditsOnce(s)
    requires UpdatePoolUsage(s, id, wallet, spent, s[id]).Ok?
    ensures var t := UpdatePoolUsage(s, id, wallet, spent, s[id]).value;
            AtMostThreePerCreator(t) && AllUsageWithinCap(t)
            && AllCreditedWithinWhitelist(t) && AllCreditsOnce(t)
  {
    SameCreatorKeepsQuota(s, id, UpdatePoolUsage(s, id, wallet, spent, s[id]).value[id]);
  }

  /** The cap is in credits but the spend is in winston (10^12 winston to the
      credit): a pool capped at 5 credits already refuses a spend of 6
      winston. */
  lemma UsageCapComparesWinstonWithCredits(s: Store, id: PoolId, wallet: Address, pool: Pool)
    requires pool.usageCap == 5.0 && wallet !in pool.usage
    ensures UpdatePoolUsage(s, id, wallet, 6.0, pool) == Err(UsageCapExceeded)
  {
  }

  /** Usage bookkeeping never consults `creditedWallets`: the outcome is the
      same whatever the pool says about granted credits. */
  lemma UsageIgnoresCreditedWallets(s: Store, id: PoolId, wallet: Address, spent: real, pool: Pool,
                                    credited: Option<seq<Address>>)
    ensures UpdatePoolUsage(s, id, wallet, spent, pool).Ok?
        <==> UpdatePoolUsage(s, id, wallet, spent, pool.(creditedWallets := credited)).Ok?
  {
  }
}
