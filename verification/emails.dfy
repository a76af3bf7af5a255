/** The waitlist: a persisted list of e-mail addresses to which an address
    is appended once. */
module Emails {
  import opened Results
  import opened Errors
  import opened Lists

  const JoinedMessage: string := "Successfully joined the waitlist"

  /** The list after a join, and the reply message. */
  datatype Joined = Joined(emails: seq<string>, message: string)

  /** `addEmail`: an address already on the list is refused with
      EMAIL_EXISTS; any other is appended at the end. Addresses are compared
      exactly, without case folding or trimming. */
  function AddEmail(emails: seq<string>, email: string): (r: Result<Joined, ErrorCode>)
    ensures r.Err? <==> email in emails
    ensures r.Err? ==> r.error == EmailExists
    ensures r.Ok? ==> r.value.emails == emails + [email]
    ensures r.Ok? ==> r.value.message == JoinedMessage
    ensures r.Ok? && NoDuplicates(emails) ==> NoDuplicates(r.value.emails)
  {
    if email in emails then Err(EmailExists)
    else
      Ok(Joined(emails + [email], JoinedMessage))
  }

  /** The list after one join attempt, successful or not. */
  function JoinOne(emails: seq<string>, email: string): seq<string> {
    var next := AddEmail(emails, email);
    if next.Ok? then next.value.emails else emails
  }

  /** Joining one address after another, keeping the list on success and the
      previous list on failure. */
  function JoinAll(emails: seq<string>, requests: seq<string>): seq<string>
    decreases |requests|
  {
    if |requests| == 0 then emails
    else JoinAll(JoinOne(emails, requests[0]), requests[1..])
  }

  /** One join attempt de-duplicates the extended list. */
  lemma JoinOneIsDedup(emails: seq<string>, email: string)
    requires NoDuplicates(emails)
    ensures JoinOne(emails, email) == Dedup(emails + [email])
  {
    DedupOfDuplicateFree(emails);
    assert (emails + [email])[..|emails|] == emails;
  }

  /** Joining the requests one by one leaves the list `[...new Set(emails
      + requests)]` would give: each address once, at its first request. */
  lemma {:induction false} JoinAllIsDedup(emails: seq<string>, requests: seq<string>)
    requires NoDuplicates(emails)
    ensures JoinAll(emails, requests) == Dedup(emails + requests)
    decreases |requests|
  {
    if |requests| > 0 {
      var r0, rest := requests[0], requests[1..];
      var grown := emails + [r0];
      JoinOneIsDedup(emails, r0);
      JoinAllIsDedup(Dedup(grown), rest);
      DedupOfAppended(grown, rest);
      SplitFirst(emails, requests);
    } else {
      assert emails + requests == emails;
      DedupOfDuplicateFree(emails);
    }
  }

  /** Moving the first request onto the list keeps the concatenation. */
  lemma SplitFirst(emails: seq<string>, requests: seq<string>)
    requires |requests| > 0
    ensures (emails + [requests[0]]) + requests[1..] == emails + requests
  {
    assert requests == [requests[0]] + requests[1..];
  }

  /** Whatever the order of the requests, the waitlist ends up holding every
      address it held or was asked to hold, each exactly once, with the
      earlier entries first and untouched. */
  lemma JoinAllKeepsListDuplicateFree(emails: seq<string>, requests: seq<string>)
    requires NoDuplicates(emails)
    ensures NoDuplicates(JoinAll(emails, requests))
    ensures forall e :: e in JoinAll(emails, requests) <==> e in emails || e in requests
    ensures emails <= JoinAll(emails, requests)
  {
    JoinAllIsDedup(emails, requests);
    DedupAppendKeepsOld(emails, requests);
  }
}
