/** The credit-share helper: validates a delegated-credit request, checks the
    pool wallet's balance with the ledger, and asks the ledger to create the
    approval. Its own failures are plain `Error`s (no code); a refusal by the
    ledger is not an error but a reply saying the share failed. */
module Share {
  import opened Results
  import opened Errors
  import opened JsValues
  import opened Decimal

  const SharedMessage: string := "Credits shared successfully"
  const ShareFailedMessage: string := "Failed to share credits"
  const BalancePrefix: string := "Could not check balance: "
  const InvalidAddressMessage: string := "Invalid recipient address"
  const InvalidAmountMessage: string := "approvedWincAmount must be a positive number string"
  const InvalidExpiryMessage: string := "expiresBySeconds must be a positive integer"

  /** The helper's reply: a message and, when the ledger refused, its error. */
  datatype ShareReply = ShareReply(message: string, error: Option<string>)

  /** What the collaborators do: loading the pool's key through the wallet
      manager (done by the credit-grant engine before it calls this helper),
      reading the key file here, building the authenticated ledger client
      from the key, querying the wallet's credit balance in winston, and
      creating the approval. The wallet manager's failure is the error it
      raises, with its code when it has one. A failure to build the client
      is raised as it is, uncoded; the key-file and balance failures reach
      this helper's caller only through a new error's message. */
  datatype Ledger = Ledger(
    poolWallet: Result<(), ErrorCode>,
    keyfile: Result<(), string>,
    client: Result<(), string>,
    balance: Result<int, string>,
    approval: Result<(), string>)

  /** A recipient must be a non-empty string. */
  predicate IsValidAddress(address: JsValue) {
    address.Str? && |address.str| > 0
  }

  /** A winston amount must match `^(\d*\.\d+|\d+)$` and denote a positive
      number. */
  predicate IsPositiveWinc(winc: string) {
    IsAmountPattern(winc) && AmountValue(winc) > 0.0
  }

  /** An expiry must be absent or a positive integer. */
  predicate ExpiryAccepted(expires: JsValue) {
    expires == Undefined || (expires.Number? && IsInteger(expires.num) && expires.num > 0.0)
  }

  /** All three request checks pass. */
  predicate RequestAccepted(address: JsValue, winc: string, expires: JsValue) {
    IsValidAddress(address) && IsPositiveWinc(winc) && ExpiryAccepted(expires)
  }

  /** `BigInt(balance) < winc`. JavaScript converts the string to a BigInt
      for the comparison; a string with a decimal point has no BigInt value
      and then the comparison is false. */
  predicate BalanceBelow(balance: int, winc: string) {
    if |winc| > 0 && AllDigits(winc) then balance < NatValue(winc) else false
  }

  function InsufficientMessage(balance: int, winc: string): string {
    "Insufficient credits. Available: " + IntToDecimal(balance) + ", Required: " + winc
  }

  /** Shares up to `winc` winston of the pool wallet's credits with `address`
      for `expires` seconds. The key file is read first; then the address,
      the amount and the expiry are checked in that order. The ledger client
      is built next, outside any handler, so its failure is raised without a
      prefix; then the balance is queried. A failed or insufficient balance
      check is reported under the prefix "Could not check balance: ",
      because the inner error is caught and raised again. The ledger's
      verdict on the approval never raises: it becomes the reply. */
  function ShareCredits(address: JsValue, winc: string, expires: JsValue, ledger: Ledger): (r: Result<ShareReply, ErrorCode>)
    ensures r.Err? ==> r.error.Thrown?
    ensures ledger.keyfile.Err? ==> r == Err(Thrown("Failed to load keyfile: " + ledger.keyfile.error))
    ensures ledger.keyfile.Ok? && !IsValidAddress(address) ==> r == Err(Thrown(InvalidAddressMessage))
    ensures ledger.keyfile.Ok? && IsValidAddress(address) && !IsPositiveWinc(winc) ==>
      r == Err(Thrown(InvalidAmountMessage))
    ensures ledger.keyfile.Ok? && IsValidAddress(address) && IsPositiveWinc(winc) && !ExpiryAccepted(expires) ==>
      r == Err(Thrown(InvalidExpiryMessage))
    ensures ledger.keyfile.Ok? && RequestAccepted(address, winc, expires) && ledger.client.Err? ==>
      r == Err(Thrown(ledger.client.error))
    ensures ledger.keyfile.Ok? && RequestAccepted(address, winc, expires) && ledger.client.Ok?
            && (ledger.balance.Err? || BalanceBelow(ledger.balance.value, winc)) ==>
      r.Err? && BalancePrefix <= r.error.message
    ensures r.Ok? <==>
      && ledger.keyfile.Ok?
      && RequestAccepted(address, winc, expires)
      && ledger.client.Ok?
      && ledger.balance.Ok? && !BalanceBelow(ledger.balance.value, winc)
    ensures r.Ok? ==> (r.value.message == SharedMessage <==> ledger.approval.Ok?)
    ensures r.Ok? && ledger.approval.Ok? ==> r.value.error == None
    ensures r.Ok? && ledger.approval.Err? ==> r.value == ShareReply(ShareFailedMessage, Some(ledger.approval.error))
  {
    if ledger.keyfile.Err? then Err(Thrown("Failed to load keyfile: " + ledger.keyfile.error))
    else if !IsValidAddress(address) then Err(Thrown(InvalidAddressMessage))
    else if !IsPositiveWinc(winc) then Err(Thrown(InvalidAmountMessage))
    else if expires != Undefined && (!expires.Number? || !IsInteger(expires.num) || expires.num <= 0.0) then
      Err(Thrown(InvalidExpiryMessage))
    else if ledger.client.Err? then Err(Thrown(ledger.client.error))
    else
      match ledger.balance
      case Err(e) => Err(Thrown(BalancePrefix + e))
      case Ok(balance) =>
        if BalanceBelow(balance, winc) then Err(Thrown(BalancePrefix + InsufficientMessage(balance, winc)))
        else
          match ledger.approval
          case Ok(_) => Ok(ShareReply(SharedMessage, None))
          case Err(e) => Ok(ShareReply(ShareFailedMessage, Some(e)))
  }

  /** The accepted amounts are exactly the well-shaped strings with a
      non-zero digit. */
  lemma PositiveWincIffNonZeroDigit(winc: string)
    ensures IsPositiveWinc(winc) <==> IsAmountPattern(winc) && HasNonZeroDigit(winc)
  {
    if IsAmountPattern(winc) {
      AmountPositiveIffNonZeroDigit(winc);
    }
  }

  /** An absent expiry and a positive whole number are accepted; a fraction,
      zero, a negative number and a numeric string are refused, since
      `Number.isInteger` does not convert its argument. */
  lemma ExpiryExamples()
    ensures ExpiryAccepted(Undefined) && ExpiryAccepted(Number(60.0))
    ensures !ExpiryAccepted(Number(1.5)) && !ExpiryAccepted(Number(0.0)) && !ExpiryAccepted(Number(-5.0))
    ensures !ExpiryAccepted(Str("60")) && !ExpiryAccepted(Null)
  {
  }

  /** "0", "5.", "-1" and "" are refused; ".5" and "12" are accepted. */
  lemma PositiveWincExamples()
    ensures !IsPositiveWinc("0") && !IsPositiveWinc("5.") && !IsPositiveWinc("-1") && !IsPositiveWinc("")
    ensures IsPositiveWinc(".5") && IsPositiveWinc("12")
  {
    PositiveWincIffNonZeroDigit("0");
    assert !HasNonZeroDigit("0");
    assert DotIndex("5.") == 1;
    assert DotIndex("-1") == 2;
    assert !IsDigit("-1"[0]);
    PositiveWincIffNonZeroDigit(".5");
    assert DotIndex(".5") == 0;
    assert ".5"[1..] == "5";
    assert '1' <= ".5"[1] <= '9';
    PositiveWincIffNonZeroDigit("12");
    assert DotIndex("12") == 2;
    assert '1' <= "12"[0] <= '9';
  }

  /** The rendering of an integer amount passes the amount check exactly
      when the amount is positive. */
  lemma RenderedAmountAccepted(n: int)
    ensures IsPositiveWinc(IntToDecimal(n)) <==> n > 0
  {
    IntToDecimalAmount(n);
  }

  /** For a rendered non-negative amount the balance comparison is the
      comparison of the integers. */
  lemma RenderedAmountBalanceBelow(balance: int, n: nat)
    ensures BalanceBelow(balance, IntToDecimal(n)) <==> balance < n
  {
    NatToDecimalRoundTrip(n);
  }

  /** An amount with a decimal point is never found insufficient: it has no
      BigInt value, so the comparison is false whatever the balance, and an
      otherwise accepted request reaches the ledger's approval unchecked. */
  lemma FractionalAmountSkipsBalanceCheck(winc: string, address: JsValue, expires: JsValue, ledger: Ledger)
    requires '.' in winc
    ensures forall balance :: !BalanceBelow(balance, winc)
    ensures ledger.keyfile.Ok? && RequestAccepted(address, winc, expires) && ledger.client.Ok? && ledger.balance.Ok? ==>
      ShareCredits(address, winc, expires, ledger).Ok?
  {
    var i :| 0 <= i < |winc| && winc[i] == '.';
    assert !IsDigit(winc[i]);
  }
}
