/** The bounded retry for one manufacturer's availability feed
    (app.js:45-63): one fetch, then up to five more while the `response` field
    has length exactly 2. */
module AvailabilityFetcher {
  import opened Upstream

  /** One first attempt plus five retries. */
  const MAX_ATTEMPTS: nat := 6

  /** The upstream's failure signature: a `response` of length exactly 2. */
  predicate Malformed(response: seq<Record>)
  {
    |response| == 2
  }

  /** How the retry ends: with a well-formed response, by giving up after the
      last attempt (`continue` to the next manufacturer), or by a throw that
      aborts the whole availability refresh. */
  datatype Outcome = Got(records: seq<Record>) | GaveUp | Threw

  datatype Fetch = Fetch(outcome: Outcome, attempts: nat)

  /** The retry from attempt number `i` (zero-based) on; `feed[i]` is what the
      `i`-th fetch of the manufacturer's feed yields. */
  function RetryFrom(feed: seq<Reply>, i: nat): (f: Fetch)
    requires i < MAX_ATTEMPTS <= |feed|
    ensures i < f.attempts <= MAX_ATTEMPTS
    ensures forall j :: i <= j < f.attempts - 1 ==> feed[j].Some? && Malformed(feed[j].value)
    ensures f.outcome.Threw? <==> feed[f.attempts - 1].None?
    ensures f.outcome.Got? <==> feed[f.attempts - 1].Some? && !Malformed(feed[f.attempts - 1].value)
    ensures f.outcome.Got? ==> f.outcome.records == feed[f.attempts - 1].value
    ensures f.outcome.GaveUp? ==> f.attempts == MAX_ATTEMPTS
    decreases MAX_ATTEMPTS - i
  {
    match feed[i]
    case None => Fetch(Threw, i + 1)
    case Some(response) =>
      if !Malformed(response) then Fetch(Got(response), i + 1)
      else if i + 1 == MAX_ATTEMPTS then Fetch(GaveUp, MAX_ATTEMPTS)
      else RetryFrom(feed, i + 1)
  }

  /** The whole retry for one manufacturer: at most six attempts, every one but
      the last malformed, and the last one deciding the outcome. */
  function Retry(feed: seq<Reply>): (f: Fetch)
    requires MAX_ATTEMPTS <= |feed|
    ensures 1 <= f.attempts <= MAX_ATTEMPTS
    ensures forall j :: 0 <= j < f.attempts - 1 ==> feed[j].Some? && Malformed(feed[j].value)
    ensures f.outcome.Threw? <==> feed[f.attempts - 1].None?
    ensures f.outcome.Got? <==> feed[f.attempts - 1].Some? && !Malformed(feed[f.attempts - 1].value)
    ensures f.outcome.Got? ==> f.outcome.records == feed[f.attempts - 1].value
    ensures f.outcome.GaveUp? ==> f.attempts == MAX_ATTEMPTS
  {
    RetryFrom(feed, 0)
  }

  /** The retry loop as app.js runs it, drawing the `i`-th fetch's reply from
      `feed[i]`. */
  method FetchAvailability(feed: seq<Reply>) returns (f: Fetch)
    requires MAX_ATTEMPTS <= |feed|
    ensures f == Retry(feed)
  {
    var tries := 1;
    var avb := feed[0];
    if avb.None? {
      return Fetch(Threw, tries);
    }
    var response := avb.value;
    while |response| == 2
      invariant 1 <= tries <= MAX_ATTEMPTS
      invariant feed[tries - 1] == Some(response)
      invariant Retry(feed) == RetryFrom(feed, tries - 1)
      decreases MAX_ATTEMPTS - tries
    {
      if tries > 5 {
        break;
      }
      avb := feed[tries];
      if avb.None? {
        return Fetch(Threw, tries + 1);
      }
      response := avb.value;
      tries := tries + 1;
    }
    if |response| == 2 {
      return Fetch(GaveUp, tries);
    }
    return Fetch(Got(response), tries);
  }

  /** After k malformed replies (k at most five), the next well-formed reply is
      the one kept, after k + 1 attempts. */
  lemma RetrySucceedsWithinBudget(feed: seq<Reply>, k: nat)
    requires MAX_ATTEMPTS <= |feed| && k < MAX_ATTEMPTS
    requires forall j :: 0 <= j < k ==> feed[j].Some? && Malformed(feed[j].value)
    requires feed[k].Some? && !Malformed(feed[k].value)
    ensures Retry(feed) == Fetch(Got(feed[k].value), k + 1)
  {
  }

  /** Six malformed replies in a row: the manufacturer is given up after exactly
      six attempts, no more. */
  lemma RetryGivesUpAfterSix(feed: seq<Reply>)
    requires MAX_ATTEMPTS <= |feed|
    requires forall j :: 0 <= j < MAX_ATTEMPTS ==> feed[j].Some? && Malformed(feed[j].value)
    ensures Retry(feed) == Fetch(GaveUp, MAX_ATTEMPTS)
  {
  }

  /** A reply that cannot be read ends the retry at once. */
  lemma RetryThrowsOnUnreadableReply(feed: seq<Reply>, k: nat)
    requires MAX_ATTEMPTS <= |feed| && k < MAX_ATTEMPTS
    requires forall j :: 0 <= j < k ==> feed[j].Some? && Malformed(feed[j].value)
    requires feed[k].None?
    ensures Retry(feed) == Fetch(Threw, k + 1)
  {
  }
}
