/** The credit-grant engine: hands a whitelisted wallet a one-shot delegated
    approval over the pool's whole usage cap, valid until the pool ends, and
    records the wallet in `creditedWallets` only when the ledger confirmed
    the approval. */
module CreditSharing {
  import opened Results
  import opened Errors
  import opened JsValues
  import opened Lists
  import opened Decimal
  import opened Pools
  import opened Share
  import PoolManager

  /** Winston per credit. */
  const WinstonPerCredit: real := 1000000000000.0

  /** Whole seconds from `now` to `endTime`, rounded down
      (`Math.floor((endTime - now) / 1000)` on millisecond instants). */
  function SecondsUntilEnd(endTime: Time, now: Time): (r: int)
    ensures r * 1000 <= endTime - now < r * 1000 + 1000
  {
    (endTime - now) / 1000
  }

  /** A cap in credits as whole winston, halves rounded up
      (`Math.round(usageCap * 1e12)`). */
  function ApprovedWinc(usageCap: real): (r: int)
    ensures r as real - 0.5 <= usageCap * WinstonPerCredit < r as real + 0.5
  {
    (usageCap * WinstonPerCredit + 0.5).Floor
  }

  /** The snapshot after a grant attempt and the helper's reply. */
  datatype Granted = Granted(store: Store, reply: ShareReply)

  /** A wallet may ask a pool for credits at `now`: the pool exists and is
      open, the wallet is whitelisted and has not been credited yet. */
  predicate Eligible(s: Store, id: PoolId, wallet: Address, now: Time) {
    && id in s
    && ActiveAt(s[id], now)
    && wallet in s[id].whitelist
    && wallet !in Credited(s[id])
  }

  /** What the engine hands the share helper for an eligible request. */
  function ShareRequest(pool: Pool, wallet: Address, now: Time, ledger: Ledger): Result<ShareReply, ErrorCode> {
    ShareCredits(Str(wallet), IntToDecimal(ApprovedWinc(pool.usageCap)),
                 Number(SecondsUntilEnd(pool.endTime, now) as real), ledger)
  }

  /** Grants `wallet` credits from pool `id` at instant `now`. The guards
      fire in a fixed order and change nothing; the pool's key is loaded
      before the remaining time is checked; then the cap is converted to
      winston and the approval is requested to expire when the pool ends.
      The wallet is recorded as credited exactly when the reply reports
      success; any other reply is returned with the store untouched. */
  function HandleCreditSharing(s: Store, id: PoolId, wallet: Address, now: Time, ledger: Ledger): (r: Result<Granted, ErrorCode>)
    ensures id == "" || wallet == "" ==> r == Err(MissingFields)
    ensures id != "" && wallet != "" && id !in s ==> r == Err(PoolNotFound)
    ensures id != "" && wallet != "" && id in s && !ActiveAt(s[id], now) ==> r == Err(PoolNotActive)
    ensures id != "" && wallet != "" && id in s && ActiveAt(s[id], now) && wallet !in s[id].whitelist ==>
      r == Err(WalletNotWhitelisted)
    ensures (&& id != "" && wallet != "" && id in s && ActiveAt(s[id], now) && wallet in s[id].whitelist
             && wallet in Credited(s[id])) ==> r == Err(AlreadyCredited)
    ensures id != "" && wallet != "" && Eligible(s, id, wallet, now) && ledger.poolWallet.Err? ==>
      r == Err(ledger.poolWallet.error)
    ensures (&& id != "" && wallet != "" && Eligible(s, id, wallet, now) && ledger.poolWallet.Ok?
             && SecondsUntilEnd(s[id].endTime, now) <= 0) ==> r == Err(PoolEnded)
    ensures r.Ok? ==>
      && id != "" && wallet != "" && Eligible(s, id, wallet, now)
      && ledger.poolWallet.Ok? && SecondsUntilEnd(s[id].endTime, now) > 0
    ensures r.Ok? ==> ShareRequest(s[id], wallet, now, ledger) == Ok(r.value.reply)
    ensures (&& r.Err? && id != "" && wallet != "" && Eligible(s, id, wallet, now)
             && ledger.poolWallet.Ok? && SecondsUntilEnd(s[id].endTime, now) > 0) ==>
      ShareRequest(s[id], wallet, now, ledger) == Err(r.error)
    // commit only on success
    ensures r.Ok? && r.value.reply.message != SharedMessage ==> r.value.store == s
    ensures r.Ok? && r.value.reply.message == SharedMessage ==>
      && id in r.value.store
      && r.value.store == s[id := r.value.store[id]]
      && Credited(r.value.store[id]) == Credited(s[id]) + [wallet]
      && r.value.store[id].(creditedWallets := s[id].creditedWallets) == s[id]
  {
    if id == "" || wallet == "" then Err(MissingFields)
    else if id !in s then Err(PoolNotFound)
    else
      var pool := s[id];
      if now < pool.startTime || now > pool.endTime then Err(PoolNotActive)
      else if wallet !in pool.whitelist then Err(WalletNotWhitelisted)
      else if pool.creditedWallets.Some? && wallet in pool.creditedWallets.value then Err(AlreadyCredited)
      else if ledger.poolWallet.Err? then Err(ledger.poolWallet.error)
      else
        var seconds := SecondsUntilEnd(pool.endTime, now);
        if seconds <= 0 then Err(PoolEnded)
        else
          var amount := ApprovedWinc(pool.usageCap);
          match ShareCredits(Str(wallet), IntToDecimal(amount), Number(seconds as real), ledger)
          case Err(e) => Err(e)
          case Ok(reply) =>
            if reply.message == SharedMessage then
              var credited := if pool.creditedWallets.Some? then pool.creditedWallets.value else [];
              Ok(Granted(s[id := pool.(creditedWallets := Some(credited + [wallet]))], reply))
            else Ok(Granted(s, reply))
  }

  // ---------------------------------------------------------------------
  // Units and time

  /** The example cap of 5 credits is 5000000000000 winston; half a winston
      rounds up to one, minus half a winston rounds up to zero. */
  lemma ApprovedWincExamples()
    ensures ApprovedWinc(5.0) == 5000000000000
    ensures ApprovedWinc(0.0000000000005) == 1
    ensures ApprovedWinc(-0.0000000000005) == 0
  {
  }

  /** The approval is granted for a positive number of seconds exactly when
      at least one full second of the pool remains. */
  lemma SecondsUntilEndPositive(endTime: Time, now: Time)
    ensures SecondsUntilEnd(endTime, now) > 0 <==> endTime - now >= 1000
  {
  }

  /** During the last second of the window the access check still passes,
      yet the grant fails with POOL_ENDED; in particular at `now == endTime`. */
  lemma LastSecondFailsPoolEnded(s: Store, id: PoolId, wallet: Address, now: Time, ledger: Ledger)
    requires id != "" && wallet != "" && Eligible(s, id, wallet, now) && ledger.poolWallet.Ok?
    requires s[id].endTime - 1000 < now
    ensures HandleCreditSharing(s, id, wallet, now, ledger) == Err(PoolEnded)
  {
    SecondsUntilEndPositive(s[id].endTime, now);
  }

  /** The engine's window and whitelist guards agree with the pool manager's
      access check; only the code for an unknown pool differs. POOL_NOT_FOUND
      otherwise comes only from the wallet manager's own failure. */
  lemma GuardsAgreeWithAccessCheck(s: Store, id: PoolId, wallet: Address, now: Time, ledger: Ledger)
    requires id != "" && wallet != ""
    ensures var v := PoolManager.ValidateEventPoolAccess(s, id, wallet, now);
            var r := HandleCreditSharing(s, id, wallet, now, ledger);
            && (v == Err(InvalidPoolId) ==> r == Err(PoolNotFound))
            && (r == Err(PoolNotFound) ==> v == Err(InvalidPoolId) || ledger.poolWallet == Err(PoolNotFound))
            && (v == Err(PoolNotActive) ==> r == Err(PoolNotActive))
            && (v == Err(WalletNotWhitelisted) ==> r == Err(WalletNotWhitelisted))
            && (r.Ok? ==> v == Ok(s[id]))
  {
  }

  // ---------------------------------------------------------------------
  // What the share helper sees

  /** Once the guards pass and the key file loads, the engine's own request
      is well formed exactly when the cap is worth at least one winston: a
      cap that rounds to zero or below is refused by the amount check. */
  lemma AmountCheckNeedsPositiveCap(s: Store, id: PoolId, wallet: Address, now: Time, ledger: Ledger)
    requires id != "" && wallet != "" && Eligible(s, id, wallet, now) && SecondsUntilEnd(s[id].endTime, now) > 0
    requires ledger.poolWallet.Ok? && ledger.keyfile.Ok?
    ensures ApprovedWinc(s[id].usageCap) <= 0 ==>
      HandleCreditSharing(s, id, wallet, now, ledger) == Err(Thrown(InvalidAmountMessage))
    ensures ApprovedWinc(s[id].usageCap) > 0 ==>
      RequestAccepted(Str(wallet), IntToDecimal(ApprovedWinc(s[id].usageCap)),
                      Number(SecondsUntilEnd(s[id].endTime, now) as real))
  {
    RenderedAmountAccepted(ApprovedWinc(s[id].usageCap));
  }

  /** For a well-formed request, a failure to build the ledger client from
      the pool's key leaves the engine as it was raised: no prefix, no code,
      and nothing recorded. */
  lemma ClientFailureRaisedAsIs(s: Store, id: PoolId, wallet: Address, now: Time, ledger: Ledger)
    requires id != "" && wallet != "" && Eligible(s, id, wallet, now) && SecondsUntilEnd(s[id].endTime, now) > 0
    requires ledger.poolWallet.Ok? && ledger.keyfile.Ok? && ledger.client.Err? && ApprovedWinc(s[id].usageCap) > 0
    ensures HandleCreditSharing(s, id, wallet, now, ledger) == Err(Thrown(ledger.client.error))
  {
    AmountCheckNeedsPositiveCap(s, id, wallet, now, ledger);
  }

  /** For a well-formed request, the balance check lets the request
      through to the ledger's approval exactly when the pool wallet holds at
      least the whole cap in winston; a smaller balance is reported as
      insufficient. Past the balance check the ledger decides: the wallet is
      recorded exactly when it approves. */
  lemma BalanceDecidesGrant(s: Store, id: PoolId, wallet: Address, now: Time, ledger: Ledger)
    requires id != "" && wallet != "" && Eligible(s, id, wallet, now) && SecondsUntilEnd(s[id].endTime, now) > 0
    requires ledger.poolWallet.Ok? && ledger.keyfile.Ok? && ledger.client.Ok? && ledger.balance.Ok? && ApprovedWinc(s[id].usageCap) > 0
    ensures HandleCreditSharing(s, id, wallet, now, ledger).Ok?
        <==> ledger.balance.value >= ApprovedWinc(s[id].usageCap)
    ensures ledger.balance.value < ApprovedWinc(s[id].usageCap) ==>
      HandleCreditSharing(s, id, wallet, now, ledger)
        == Err(Thrown(BalancePrefix + InsufficientMessage(ledger.balance.value, IntToDecimal(ApprovedWinc(s[id].usageCap)))))
    ensures var r := HandleCreditSharing(s, id, wallet, now, ledger);
            ledger.balance.value >= ApprovedWinc(s[id].usageCap) ==>
              (r.Ok? && r.value.reply.message == SharedMessage <==> ledger.approval.Ok?)
  {
    AmountCheckNeedsPositiveCap(s, id, wallet, now, ledger);
    RenderedAmountBalanceBelow(ledger.balance.value, ApprovedWinc(s[id].usageCap));
    var r := HandleCreditSharing(s, id, wallet, now, ledger);
    if ledger.balance.value >= ApprovedWinc(s[id].usageCap) {
      assert ShareRequest(s[id], wallet, now, ledger) == Ok(r.value.reply);
    }
  }

  // ---------------------------------------------------------------------
  // One-shot grants

  /** After a successful grant, asking again for the same pool and wallet
      never succeeds, whatever the ledger does; while the pool is open it
      fails with ALREADY_CREDITED, and the credited list stays as it is. */
  lemma GrantIsIdempotent(s: Store, id: PoolId, wallet: Address, now: Time, ledger: Ledger,
                          later: Time, ledger2: Ledger)
    requires HandleCreditSharing(s, id, wallet, now, ledger).Ok?
    requires HandleCreditSharing(s, id, wallet, now, ledger).value.reply.message == SharedMessage
    ensures var t := HandleCreditSharing(s, id, wallet, now, ledger).value.store;
            && HandleCreditSharing(t, id, wallet, later, ledger2).Err?
            && (ActiveAt(t[id], later) ==> HandleCreditSharing(t, id, wallet, later, ledger2) == Err(AlreadyCredited))
  {
    var t := HandleCreditSharing(s, id, wallet, now, ledger).value.store;
    assert wallet in Credited(t[id]);
  }

  /** Grants to two different wallets of one pool, one after the other, both
      stay recorded. */
  lemma TwoWalletsBothCredited(s: Store, id: PoolId, w1: Address, w2: Address, now1: Time, now2: Time,
                               ledger1: Ledger, ledger2: Ledger)
    requires w1 != w2
    requires HandleCreditSharing(s, id, w1, now1, ledger1).Ok?
    requires HandleCreditSharing(s, id, w1, now1, ledger1).value.reply.message == SharedMessage
    requires HandleCreditSharing(HandleCreditSharing(s, id, w1, now1, ledger1).value.store, id, w2, now2, ledger2).Ok?
    requires HandleCreditSharing(HandleCreditSharing(s, id, w1, now1, ledger1).value.store, id, w2, now2, ledger2)
               .value.reply.message == SharedMessage
    ensures var t := HandleCreditSharing(s, id, w1, now1, ledger1).value.store;
            var u := HandleCreditSharing(t, id, w2, now2, ledger2).value.store;
            Credited(u[id]) == Credited(s[id]) + [w1, w2]
  {
    var t := HandleCreditSharing(s, id, w1, now1, ledger1).value.store;
    assert Credited(t[id]) + [w2] == Credited(s[id]) + [w1, w2];
  }

  /** A grant keeps every store invariant: the quota (no creator changes),
      credited wallets whitelisted (the wallet passed the whitelist check),
      each wallet credited once (the wallet passed the ALREADY_CREDITED
      check), and usage within the cap (usage is not touched). */
  lemma GrantKeepsInvariants(s: Store, id: PoolId, wallet: Address, now: Time, ledger: Ledger)
    requires AtMostThreePerCreator(s) && AllCreditedWithinWhitelist(s)
    requires AllCreditsOnce(s) && AllUsageWithinCap(s)
    requires HandleCreditSharing(s, id, wallet, now, ledger).Ok?
    ensures var t := HandleCreditSharing(s, id, wallet, now, ledger).value.store;
            && AtMostThreePerCreator(t) && AllCreditedWithinWhitelist(t)
            && AllCreditsOnce(t) && AllUsageWithinCap(t)
  {
    var g := HandleCreditSharing(s, id, wallet, now, ledger).value;
    if g.reply.message == SharedMessage {
      var p := g.store[id];
      SameCreatorKeepsQuota(s, id, p);
      AppendFreshKeepsNoDuplicates(Credited(s[id]), wallet);
      assert UsageWithinCap(p);
    }
  }

  /** The pool of the worked example: one day long, capped at 5 credits,
      two whitelisted wallets, nothing granted yet. */
  function ExamplePool(start: Time): Pool {
    Pool("event", start, start + 86400000, 5.0, "wallet.json", ["W1", "W2"], map[],
         "creator", "digest", None, None)
  }

  /** The worked example: asked at midday by the first wallet, the example
      pool approves 5000000000000 winston for 43200 seconds, records the
      wallet, and refuses a second request from it. */
  lemma WorkedExample(start: Time, ledger: Ledger)
    requires ledger.poolWallet.Ok? && ledger.keyfile.Ok? && ledger.client.Ok? && ledger.balance.Ok?
    requires ledger.balance.value >= 5000000000000
    requires ledger.approval.Ok?
    ensures ApprovedWinc(ExamplePool(start).usageCap) == 5000000000000
    ensures SecondsUntilEnd(ExamplePool(start).endTime, start + 43200000) == 43200
    ensures var r := HandleCreditSharing(map["pool" := ExamplePool(start)], "pool", "W1", start + 43200000, ledger);
            && r.Ok? && r.value.reply.message == SharedMessage
            && r.value.store["pool"].creditedWallets == Some(["W1"])
            && HandleCreditSharing(r.value.store, "pool", "W1", start + 43200000, ledger) == Err(AlreadyCredited)
  {
    var p := ExamplePool(start);
    var s := map["pool" := p];
    var now := start + 43200000;
    ApprovedWincExamples();
    assert SecondsUntilEnd(p.endTime, now) == 43200;
    assert "W1" in p.whitelist;
    BalanceDecidesGrant(s, "pool", "W1", now, ledger);
    var r := HandleCreditSharing(s, "pool", "W1", now, ledger);
    assert r.Ok?;
    var sent := ShareRequest(p, "W1", now, ledger);
    assert sent == Ok(r.value.reply);
    assert sent.value.message == SharedMessage;
    assert r.value.store["pool"].creditedWallets == Some([] + ["W1"]);
    assert [] + ["W1"] == ["W1"];
    GrantIsIdempotent(s, "pool", "W1", now, ledger, now, ledger);
    assert HandleCreditSharing(r.value.store, "pool", "W1", now, ledger) == Err(AlreadyCredited);
  }
}
