/** The HTTP front of the pool service: the API-key gate, the pool listing
    by creator, and the owner-only routes that edit a pool, extend or cut its
    whitelist, and create a pool from a password. Each route reads the store,
    applies its guards in a fixed order and, when all pass, writes back one
    changed record; a refused request writes nothing. */
module MainServer {
  import opened Results
  import opened Errors
  import opened JsValues
  import opened Lists
  import opened Pools
  import PoolManager

  /** The one key that opens the gated routes. */
  const DeployApiKey: string := "deploy-api-key-123"

  /** Paths served without a key. */
  predicate IsPublicPath(path: string) {
    path == "/health" || path == "/pools" || path == "/support-link"
  }

  /** The API-key gate in front of every route. `apiKey` is the `X-API-Key`
      header, `None` when the header is absent. */
  function ApiKeyGate(path: string, apiKey: Option<string>): (r: Result<(), ErrorCode>)
    ensures r.Err? ==> r.error == InvalidApiKey
    ensures r.Ok? <==> IsPublicPath(path) || apiKey == Some(DeployApiKey)
  {
    if IsPublicPath(path) then Ok(())
    else if apiKey.None? || apiKey.value == "" || apiKey.value != DeployApiKey then Err(InvalidApiKey)
    else Ok(())
  }

  /** Exactly three paths let a request through whatever key it carries;
      on any other path a missing or wrong key is refused. */
  lemma OnlyThreePathsAreOpen(path: string)
    ensures (forall k :: ApiKeyGate(path, k).Ok?) <==> path in {"/health", "/pools", "/support-link"}
  {
    if !IsPublicPath(path) {
      assert ApiKeyGate(path, None).Err?;
    }
  }

  // ---------------------------------------------------------------------
  // Listing

  /** The records owned by `creator` (the `creatorAddress` query, empty when
      absent), keyed by pool id. The whole record is returned, password
      hash included. */
  function ListPools(s: Store, creator: Address): (r: Result<Store, ErrorCode>)
    ensures creator == "" <==> r == Err(MissingCreatorAddress)
    ensures r.Ok? ==> r.value.Keys == PoolsOf(s, creator)
    ensures r.Ok? ==> forall k :: k in r.value ==> r.value[k] == s[k] && r.value[k].creatorAddress == creator
  {
    if creator == "" then Err(MissingCreatorAddress)
    else Ok(map k | k in s && s[k].creatorAddress == creator :: s[k])
  }

  /** While the quota holds, a listing never has more than three entries. */
  lemma ListPoolsBounded(s: Store, creator: Address)
    requires AtMostThreePerCreator(s)
    requires creator != ""
    ensures |ListPools(s, creator).value| <= MaxPoolsPerCreator
  {
    var l := ListPools(s, creator).value;
    assert |l.Keys| == |PoolsOf(s, creator)|;
    assert |l| == |l.Keys|;
  }

  /** Two different creators see disjoint listings. */
  lemma ListingsAreDisjoint(s: Store, c1: Address, c2: Address)
    requires c1 != "" && c2 != "" && c1 != c2
    ensures ListPools(s, c1).value.Keys !! ListPools(s, c2).value.Keys
  {
  }

  // ---------------------------------------------------------------------
  // Owner checks

  /** What an owner-only request carries in its query string: the creator
      address (`None` when absent) and the password (empty when absent). */
  datatype Credentials = Credentials(creator: Option<Address>, password: string)

  /** The caller owns pool `id` and knows its password. */
  predicate IsOwner(p: Pool, cred: Credentials, hash: string -> Digest) {
    cred.creator == Some(p.creatorAddress) && p.passwordHash == hash(cred.password)
  }

  /** The owner checks shared by the edit, whitelist and revoke routes, after
      the route's own presence checks: the pool exists, the creator matches,
      the SHA-256 digest (`hash`) of the password matches the stored one. */
  function CheckOwner(s: Store, id: PoolId, cred: Credentials, hash: string -> Digest): (r: Result<Pool, ErrorCode>)
    ensures id !in s ==> r == Err(PoolNotFound)
    ensures id in s && cred.creator != Some(s[id].creatorAddress) ==> r == Err(Unauthorized)
    ensures id in s && cred.creator == Some(s[id].creatorAddress) && s[id].passwordHash != hash(cred.password) ==>
      r == Err(InvalidPassword)
    ensures r.Ok? <==> id in s && IsOwner(s[id], cred, hash)
    ensures r.Ok? ==> r.value == s[id]
  {
    if id !in s then Err(PoolNotFound)
    else
      var pool := s[id];
      if cred.creator.None? || pool.creatorAddress != cred.creator.value then Err(Unauthorized)
      else if pool.passwordHash != hash(cred.password) then Err(InvalidPassword)
      else Ok(pool)
  }

  /** `PATCH /pool/:id/edit`: a password must be given, the caller must own
      the pool, then the edit goes to the pool manager. */
  function EditPool(s: Store, id: PoolId, cred: Credentials, patch: PoolManager.PoolPatch,
                    hash: string -> Digest): (r: Result<Store, ErrorCode>)
    ensures cred.password == "" ==> r == Err(MissingPassword)
    ensures cred.password != "" && CheckOwner(s, id, cred, hash).Err? ==> r == Err(CheckOwner(s, id, cred, hash).error)
    ensures cred.password != "" && CheckOwner(s, id, cred, hash).Ok? ==> r == PoolManager.UpdatePool(s, id, patch)
    ensures r.Ok? <==> cred.password != "" && CheckOwner(s, id, cred, hash).Ok? && PoolManager.UpdatePool(s, id, patch).Ok?
  {
    if cred.password == "" then Err(MissingPassword)
    else match CheckOwner(s, id, cred, hash)
      case Err(e) => Err(e)
      case Ok(_) => PoolManager.UpdatePool(s, id, patch)
  }

  /** An edit never moves a pool to another creator nor changes its
      password, so whoever could edit it before still can. */
  lemma EditKeepsOwner(s: Store, id: PoolId, cred: Credentials, patch: PoolManager.PoolPatch,
                       hash: string -> Digest, other: Credentials)
    requires EditPool(s, id, cred, patch, hash).Ok?
    ensures CheckOwner(EditPool(s, id, cred, patch, hash).value, id, other, hash).Ok?
        <==> CheckOwner(s, id, other, hash).Ok?
  {
  }

  // ---------------------------------------------------------------------
  // Whitelist

  /** `POST /pool/:id/whitelist`: a password and an address array must be
      given (`None` when `addresses` is absent or not an array), the caller
      must own the pool; the addresses are appended to the whitelist and
      repeated entries dropped, first occurrence kept. */
  function AddToWhitelist(s: Store, id: PoolId, cred: Credentials, addresses: Option<seq<Address>>,
                          hash: string -> Digest): (r: Result<Store, ErrorCode>)
    ensures cred.password == "" ==> r == Err(MissingPassword)
    ensures cred.password != "" && addresses.None? ==> r == Err(InvalidAddresses)
    ensures cred.password != "" && addresses.Some? && CheckOwner(s, id, cred, hash).Err? ==>
      r == Err(CheckOwner(s, id, cred, hash).error)
    ensures r.Ok? <==> cred.password != "" && addresses.Some? && CheckOwner(s, id, cred, hash).Ok?
    ensures r.Ok? ==> id in r.value && r.value == s[id := r.value[id]]
    // the new whitelist: the old one and the new addresses, each once
    ensures r.Ok? ==> r.value[id].whitelist == Dedup(s[id].whitelist + addresses.value)
    ensures r.Ok? ==> forall w :: w in r.value[id].whitelist <==> w in s[id].whitelist || w in addresses.value
    ensures r.Ok? ==> NoDuplicates(r.value[id].whitelist)
    ensures r.Ok? && NoDuplicates(s[id].whitelist) ==> s[id].whitelist <= r.value[id].whitelist
    ensures r.Ok? ==> r.value[id].(whitelist := s[id].whitelist) == s[id]
  {
    if cred.password == "" then Err(MissingPassword)
    else if addresses.None? then Err(InvalidAddresses)
    else match CheckOwner(s, id, cred, hash)
      case Err(e) => Err(e)
      case Ok(pool) =>
        var merged := Dedup(pool.whitelist + addresses.value);
        assert NoDuplicates(pool.whitelist) ==> pool.whitelist <= merged by {
          if NoDuplicates(pool.whitelist) {
            DedupAppendKeepsOld(pool.whitelist, addresses.value);
          }
        }
        Ok(s[id := pool.(whitelist := merged)])
  }

  /** Adding the same addresses twice is the same as adding them once. */
  lemma AddToWhitelistIdempotent(s: Store, id: PoolId, cred: Credentials, addresses: Option<seq<Address>>,
                                 hash: string -> Digest)
    requires AddToWhitelist(s, id, cred, addresses, hash).Ok?
    ensures var t := AddToWhitelist(s, id, cred, addresses, hash).value;
            AddToWhitelist(t, id, cred, addresses, hash) == Ok(t)
  {
    var t := AddToWhitelist(s, id, cred, addresses, hash).value;
    DedupAbsorbs(t[id].whitelist, addresses.value);
    assert t[id := t[id]] == t;
  }

  /** Whitelisting only adds: every store invariant survives it. */
  lemma AddToWhitelistKeepsInvariants(s: Store, id: PoolId, cred: Credentials, addresses: Option<seq<Address>>,
                                      hash: string -> Digest)
    requires AtMostThreePerCreator(s) && AllCreditedWithinWhitelist(s)
    requires AllCreditsOnce(s) && AllUsageWithinCap(s)
    requires AddToWhitelist(s, id, cred, addresses, hash).Ok?
    ensures var t := AddToWhitelist(s, id, cred, addresses, hash).value;
            && AtMostThreePerCreator(t) && AllCreditedWithinWhitelist(t)
            && AllCreditsOnce(t) && AllUsageWithinCap(t)
  {
    var t := AddToWhitelist(s, id, cred, addresses, hash).value;
    SameCreatorKeepsQuota(s, id, t[id]);
  }

  // ---------------------------------------------------------------------
  // Revoke

  /** `POST /pool/:id/revoke`: a password and a wallet must be given, the
      caller must own the pool; the wallet is removed from the whitelist and,
      when the pool has the field, from the credited wallets. The approval
      already granted on the ledger is left as it is. */
  function Revoke(s: Store, id: PoolId, cred: Credentials, wallet: Address,
                  hash: string -> Digest): (r: Result<Store, ErrorCode>)
    ensures cred.password == "" ==> r == Err(MissingPassword)
    ensures cred.password != "" && wallet == "" ==> r == Err(MissingWalletAddress)
    ensures cred.password != "" && wallet != "" && CheckOwner(s, id, cred, hash).Err? ==>
      r == Err(CheckOwner(s, id, cred, hash).error)
    ensures r.Ok? <==> cred.password != "" && wallet != "" && CheckOwner(s, id, cred, hash).Ok?
    ensures r.Ok? ==> id in r.value && r.value == s[id := r.value[id]]
    // each list filtered in order: every other entry keeps its place and its copies
    ensures r.Ok? ==> r.value[id].whitelist == Without(s[id].whitelist, wallet)
    ensures r.Ok? && s[id].creditedWallets.Some? ==>
      r.value[id].creditedWallets == Some(Without(s[id].creditedWallets.value, wallet))
    ensures r.Ok? ==> forall w :: w in r.value[id].whitelist <==> w in s[id].whitelist && w != wallet
    ensures r.Ok? ==> forall w :: w in Credited(r.value[id]) <==> w in Credited(s[id]) && w != wallet
    ensures r.Ok? ==> r.value[id].creditedWallets.Some? == s[id].creditedWallets.Some?
    ensures r.Ok? ==> r.value[id].(whitelist := s[id].whitelist, creditedWallets := s[id].creditedWallets) == s[id]
  {
    if cred.password == "" then Err(MissingPassword)
    else if wallet == "" then Err(MissingWalletAddress)
    else match CheckOwner(s, id, cred, hash)
      case Err(e) => Err(e)
      case Ok(pool) =>
        var credited := if pool.creditedWallets.Some? then Some(Without(pool.creditedWallets.value, wallet))
                        else None;
        Ok(s[id := pool.(whitelist := Without(pool.whitelist, wallet), creditedWallets := credited)])
  }

  /** Revoking twice is revoking once. */
  lemma RevokeIdempotent(s: Store, id: PoolId, cred: Credentials, wallet: Address, hash: string -> Digest)
    requires Revoke(s, id, cred, wallet, hash).Ok?
    ensures var t := Revoke(s, id, cred, wallet, hash).value;
            Revoke(t, id, cred, wallet, hash) == Ok(t)
  {
    var t := Revoke(s, id, cred, wallet, hash).value;
    WithoutIdempotent(s[id].whitelist, wallet);
    if s[id].creditedWallets.Some? {
      WithoutIdempotent(s[id].creditedWallets.value, wallet);
    }
    assert t[id := t[id]] == t;
  }

  /** Revoking keeps every store invariant: a wallet leaves the credited
      list together with the whitelist. */
  lemma RevokeKeepsInvariants(s: Store, id: PoolId, cred: Credentials, wallet: Address, hash: string -> Digest)
    requires AtMostThreePerCreator(s) && AllCreditedWithinWhitelist(s)
    requires AllCreditsOnce(s) && AllUsageWithinCap(s)
    requires Revoke(s, id, cred, wallet, hash).Ok?
    ensures var t := Revoke(s, id, cred, wallet, hash).value;
            && AtMostThreePerCreator(t) && AllCreditedWithinWhitelist(t)
            && AllCreditsOnce(t) && AllUsageWithinCap(t)
  {
    var t := Revoke(s, id, cred, wallet, hash).value;
    SameCreatorKeepsQuota(s, id, t[id]);
    if s[id].creditedWallets.Some? {
      WithoutKeepsNoDuplicates(s[id].creditedWallets.value, wallet);
    }
  }

  /** Revoking a credited wallet and whitelisting it again makes it eligible
      for a second grant while the pool is open: the credited list is the
      only record of the first grant, and revoking erases it. */
  lemma RevokeThenWhitelistAllowsSecondGrant(s: Store, id: PoolId, cred: Credentials, wallet: Address,
                                             hash: string -> Digest)
    requires Revoke(s, id, cred, wallet, hash).Ok?
    ensures var t := Revoke(s, id, cred, wallet, hash).value;
            var u := AddToWhitelist(t, id, cred, Some([wallet]), hash);
            && u.Ok?
            && wallet in u.value[id].whitelist
            && wallet !in Credited(u.value[id])
            && u.value[id].startTime == s[id].startTime && u.value[id].endTime == s[id].endTime
  {
  }

  // ---------------------------------------------------------------------
  // Create

  /** `POST /create-pool`: a password must be given; the pool manager
      receives the request with the password replaced by its SHA-256 digest
      (`hash`), the plain password being dropped. */
  function CreatePoolRoute(s: Store, req: PoolManager.PoolRequest, password: string, hash: string -> Digest,
                           randomBytes: seq<PoolManager.Byte>, walletsDir: string,
                           wallet: PoolManager.WalletProvision): (r: Result<PoolManager.Created, ErrorCode>)
    requires |randomBytes| == 16
    ensures password == "" ==> r == Err(MissingPassword)
    ensures password != "" ==>
      r == PoolManager.CreatePool(s, req.(passwordHash := hash(password)), randomBytes, walletsDir, wallet)
    ensures r.Ok? ==> r.value.store[r.value.poolId].passwordHash == hash(password)
  {
    if password == "" then Err(MissingPassword)
    else PoolManager.CreatePool(s, req.(passwordHash := hash(password)), randomBytes, walletsDir, wallet)
  }

  /** The creator of a freshly created pool passes the owner checks with the
      password it was created with, and with no password of another digest. */
  lemma CreatedPoolOpensWithItsPassword(s: Store, req: PoolManager.PoolRequest, password: string,
                                        hash: string -> Digest, randomBytes: seq<PoolManager.Byte>,
                                        walletsDir: string, wallet: PoolManager.WalletProvision,
                                        other: string)
    requires |randomBytes| == 16
    requires CreatePoolRoute(s, req, password, hash, randomBytes, walletsDir, wallet).Ok?
    ensures var c := CreatePoolRoute(s, req, password, hash, randomBytes, walletsDir, wallet).value;
            && CheckOwner(c.store, c.poolId, Credentials(Some(req.creatorAddress), password), hash).Ok?
            && (hash(other) != hash(password) ==>
                  CheckOwner(c.store, c.poolId, Credentials(Some(req.creatorAddress), other), hash) == Err(InvalidPassword))
  {
  }

  // ---------------------------------------------------------------------
  // Support link

  /** `POST /support-link`: the link must be a non-empty string; the result
      is the link that replaces the stored one, and a refused request leaves
      the stored link as it is. */
  function SetSupportLink(link: JsValue): (r: Result<string, ErrorCode>)
    ensures r.Err? <==> !(link.Str? && link.str != "")
    ensures r.Err? ==> r.error == InvalidLink
    ensures r.Ok? ==> r.value == link.str && r.value != ""
  {
    if !Truthy(link) || !link.Str? then Err(InvalidLink) else Ok(link.str)
  }
}
