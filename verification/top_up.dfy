/** The top-up handler: converts AR held by a pool's custody wallet into
    upload credits for that wallet, for the pool's owner, and appends the
    amount and the instant to the pool's top-up log. Every failure leaves
    with a code: a failure that had none is reported as TOP_UP_FAILED. */
module TopUp {
  import opened Results
  import opened Errors
  import opened JsValues
  import opened Decimal
  import opened Pools
  import PoolManager

  const TopUpMessage: string := "Top-up successful"

  /** What the collaborators do: loading the pool's key, reading the
      wallet's AR balance (as a number of AR), and the credit purchase.
      Each failure is the error raised, with its code when it has one
      (`Thrown` when it carries only a message). */
  datatype Chain = Chain(
    wallet: Result<(), ErrorCode>,
    arBalance: Result<real, ErrorCode>,
    topUp: Result<(), ErrorCode>)

  /** A completed top-up: the new snapshot and the reply message. */
  datatype ToppedUp = ToppedUp(store: Store, message: string)

  /** `parseFloat(amount)`, `None` for NaN. A number reads as itself and a
      string by its numeric prefix; every other value is NaN. */
  function ParseFloat(amount: JsValue): Option<real> {
    match amount
    case Number(n) => Some(n)
    case Str(text) => ParseFloatString(text)
    case _ => None
  }

  /** The amount passes the check: it parses to a positive number. */
  predicate AmountAccepted(amount: JsValue) {
    ParseFloat(amount).Some? && ParseFloat(amount).value > 0.0
  }

  /** All four parameters are present (truthy). */
  predicate ParametersPresent(id: PoolId, password: string, amount: JsValue, creator: Address) {
    id != "" && password != "" && Truthy(amount) && creator != ""
  }

  /** Every check before the chain calls passes: the parameters, the
      amount, and the pool's owner with its password. */
  predicate RequestAccepted(s: Store, id: PoolId, password: string, amount: JsValue, creator: Address,
                            hash: string -> Digest) {
    && ParametersPresent(id, password, amount, creator)
    && AmountAccepted(amount)
    && id in s && s[id].creatorAddress == creator && s[id].passwordHash == hash(password)
  }

  /** The handler before its catch clause: the checks in order, then the
      chain calls, then the log entry. Coded failures keep their code. */
  function AttemptTopUp(s: Store, id: PoolId, password: string, amount: JsValue, creator: Address,
                        hash: string -> Digest, chain: Chain, now: Time): (r: Result<ToppedUp, ErrorCode>)
    ensures !ParametersPresent(id, password, amount, creator) ==> r == Err(MissingParameters)
    ensures ParametersPresent(id, password, amount, creator) && !AmountAccepted(amount) ==> r == Err(InvalidAmount)
    ensures ParametersPresent(id, password, amount, creator) && AmountAccepted(amount) && id !in s ==>
      r == Err(PoolNotFound)
    ensures (&& ParametersPresent(id, password, amount, creator) && AmountAccepted(amount) && id in s
             && s[id].creatorAddress != creator) ==> r == Err(Unauthorized)
    ensures (&& ParametersPresent(id, password, amount, creator) && AmountAccepted(amount) && id in s
             && s[id].creatorAddress == creator && s[id].passwordHash != hash(password)) ==> r == Err(InvalidPassword)
    ensures RequestAccepted(s, id, password, amount, creator, hash) && chain.wallet.Err? ==>
      r == Err(chain.wallet.error)
    ensures RequestAccepted(s, id, password, amount, creator, hash) && chain.wallet.Ok? && chain.arBalance.Err? ==>
      r == Err(chain.arBalance.error)
    ensures (&& RequestAccepted(s, id, password, amount, creator, hash) && chain.wallet.Ok? && chain.arBalance.Ok?
             && chain.arBalance.value < ParseFloat(amount).value) ==> r == Err(InsufficientBalance)
    ensures (&& RequestAccepted(s, id, password, amount, creator, hash) && chain.wallet.Ok? && chain.arBalance.Ok?
             && chain.arBalance.value >= ParseFloat(amount).value && chain.topUp.Err?) ==> r == Err(chain.topUp.error)
    ensures r.Ok? <==>
      && RequestAccepted(s, id, password, amount, creator, hash)
      && chain.wallet.Ok? && chain.arBalance.Ok? && chain.arBalance.value >= ParseFloat(amount).value
      && chain.topUp.Ok?
    ensures r.Ok? ==> id in r.value.store && r.value.store == s[id := r.value.store[id]]
    ensures r.Ok? ==> History(r.value.store[id]) == History(s[id]) + [TopUpEntry(ParseFloat(amount).value, now)]
    ensures r.Ok? ==> r.value.store[id].(topUpHistory := s[id].topUpHistory) == s[id]
    ensures r.Ok? ==> r.value.message == TopUpMessage
  {
    if id == "" || password == "" || !Truthy(amount) || creator == "" then Err(MissingParameters)
    else
      var parsed := ParseFloat(amount);
      if parsed.None? || parsed.value <= 0.0 then Err(InvalidAmount)
      else match PoolManager.GetPoolById(s, id)
      case Err(e) => Err(e)
      case Ok(pool) =>
        if pool.creatorAddress != creator then Err(Unauthorized)
        else if pool.passwordHash != hash(password) then Err(InvalidPassword)
        else if chain.wallet.Err? then Err(chain.wallet.error)
        else if chain.arBalance.Err? then Err(chain.arBalance.error)
        else if chain.arBalance.value < parsed.value then Err(InsufficientBalance)
        else if chain.topUp.Err? then Err(chain.topUp.error)
        else
          var history := if pool.topUpHistory.Some? then pool.topUpHistory.value else [];
          var entry := TopUpEntry(parsed.value, now);
          Ok(ToppedUp(s[id := pool.(topUpHistory := Some(history + [entry]))], TopUpMessage))
  }

  /** The catch clause: a failure without a code becomes TOP_UP_FAILED. */
  function WithDefaultCode(e: ErrorCode): (r: ErrorCode)
    ensures !r.Thrown?
    ensures !e.Thrown? ==> r == e
    ensures e.Thrown? ==> r == TopUpFailed
  {
    if e.Thrown? then TopUpFailed else e
  }

  /** `handleTopUp`. */
  function HandleTopUp(s: Store, id: PoolId, password: string, amount: JsValue, creator: Address,
                       hash: string -> Digest, chain: Chain, now: Time): (r: Result<ToppedUp, ErrorCode>)
    ensures r.Err? ==> !r.error.Thrown?
    ensures r.Ok? <==> AttemptTopUp(s, id, password, amount, creator, hash, chain, now).Ok?
    ensures r.Ok? ==> r == AttemptTopUp(s, id, password, amount, creator, hash, chain, now)
    // a coded failure keeps its code; one without a code becomes TOP_UP_FAILED
    ensures var a := AttemptTopUp(s, id, password, amount, creator, hash, chain, now);
            a.Err? && !a.error.Thrown? ==> r == a
    ensures var a := AttemptTopUp(s, id, password, amount, creator, hash, chain, now);
            a.Err? && a.error.Thrown? ==> r == Err(TopUpFailed)
    // so the collaborators' failures leave as follows
    ensures RequestAccepted(s, id, password, amount, creator, hash) && chain.wallet.Err? ==>
      r == Err(WithDefaultCode(chain.wallet.error))
    ensures RequestAccepted(s, id, password, amount, creator, hash) && chain.wallet.Ok? && chain.arBalance.Err? ==>
      r == Err(WithDefaultCode(chain.arBalance.error))
    ensures (&& RequestAccepted(s, id, password, amount, creator, hash) && chain.wallet.Ok? && chain.arBalance.Ok?
             && chain.arBalance.value >= ParseFloat(amount).value && chain.topUp.Err?) ==>
      r == Err(WithDefaultCode(chain.topUp.error))
  {
    match AttemptTopUp(s, id, password, amount, creator, hash, chain, now)
    case Ok(done) => Ok(done)
    case Err(e) => Err(WithDefaultCode(e))
  }

  // ---------------------------------------------------------------------
  // Properties

  /** A numeric string passes the amount check exactly when one of its
      digits is not `0`; its logged amount is its exact value. */
  lemma DecimalAmountAccepted(text: string)
    requires IsAmountPattern(text)
    ensures AmountAccepted(Str(text)) <==> HasNonZeroDigit(text)
    ensures ParseFloat(Str(text)) == Some(AmountValue(text))
  {
    ParseFloatOfAmount(text);
    AmountPositiveIffNonZeroDigit(text);
  }

  /** A negative numeric string is refused. */
  lemma NegativeAmountRefused(text: string)
    requires IsAmountPattern(text)
    ensures !AmountAccepted(Str("-" + text))
  {
    ParseFloatOfNegatedAmount(text);
    AmountValueNonNegative(text);
  }

  /** "0.0" is refused, "0.5" is accepted. */
  lemma AmountExamples()
    ensures !AmountAccepted(Str("0.0")) && AmountAccepted(Str("0.5"))
  {
    DecimalAmountAccepted("0.0");
    assert DotIndex("0.0") == 1;
    assert !HasNonZeroDigit("0.0");
    DecimalAmountAccepted("0.5");
    assert DotIndex("0.5") == 1;
    assert '1' <= "0.5"[2] <= '9';
  }

  /** The log only grows: a top-up appends one entry and keeps the older
      ones in order. */
  lemma TopUpAppendsOnly(s: Store, id: PoolId, password: string, amount: JsValue, creator: Address,
                         hash: string -> Digest, chain: Chain, now: Time)
    requires HandleTopUp(s, id, password, amount, creator, hash, chain, now).Ok?
    ensures var t := HandleTopUp(s, id, password, amount, creator, hash, chain, now).value.store;
            && History(s[id]) < History(t[id])
            && |History(t[id])| == |History(s[id])| + 1
            && History(t[id])[|History(s[id])|].timestamp == now
            && History(t[id])[|History(s[id])|].amount > 0.0
  {
  }

  /** Only the pool's owner, with its password, can top it up. */
  lemma TopUpNeedsOwner(s: Store, id: PoolId, password: string, amount: JsValue, creator: Address,
                        hash: string -> Digest, chain: Chain, now: Time)
    requires id in s && (s[id].creatorAddress != creator || s[id].passwordHash != hash(password))
    ensures HandleTopUp(s, id, password, amount, creator, hash, chain, now).Err?
  {
  }

  /** A top-up touches only the log: every store invariant survives it. */
  lemma TopUpKeepsInvariants(s: Store, id: PoolId, password: string, amount: JsValue, creator: Address,
                             hash: string -> Digest, chain: Chain, now: Time)
    requires AtMostThreePerCreator(s) && AllCreditedWithinWhitelist(s)
    requires AllCreditsOnce(s) && AllUsageWithinCap(s)
    requires HandleTopUp(s, id, password, amount, creator, hash, chain, now).Ok?
    ensures var t := HandleTopUp(s, id, password, amount, creator, hash, chain, now).value.store;
            && AtMostThreePerCreator(t) && AllCreditedWithinWhitelist(t)
            && AllCreditsOnce(t) && AllUsageWithinCap(t)
  {
    var t := HandleTopUp(s, id, password, amount, creator, hash, chain, now).value.store;
    SameCreatorKeepsQuota(s, id, t[id]);
  }
}
