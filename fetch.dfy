/**
 The retry-and-fallback behaviour of `fetchQuote`, as a function of the
 outcomes the remote quote service gives to successive attempts. The network
 request and the one-second retry timer are not modelled; an attempt is
 represented by its outcome alone.
 */
module Fetch {
  import opened Favorites

  /** What one request to the quote service yields: a payload, or a failure of any kind. */
  datatype Outcome = Fetched(content: string, author: string) | Failed

  /** The quote shown when every attempt has failed. */
  const FallbackQuote: Quote := Quote("The only way to do great work is to love what you do.", "Steve Jobs")

  /** The notice shown when every attempt has failed. */
  const FetchErrorMessage: string := "Unable to fetch a new quote. Please try again later."

  /** The number of retries a fresh call allows when the caller gives none. */
  const DefaultRetries: nat := 2

  /** The state a finished attempt chain leaves: the quote shown, the notice, and how many attempts it took. */
  datatype Resolution = Resolution(quote: Quote, error: Option<string>, attempts: nat)

  /**
   The resolution of a chain that starts with `retries` retries left, where
   the i-th attempt meets `outcomes[i]`. Every attempt consumes one outcome and
   the chain makes at most `retries + 1` attempts. It stops at the first
   success, with the payload as the quote and no notice, or at the failure
   that finds no retry left, with the fallback quote and the notice.
   */
  function Chain(retries: nat, outcomes: seq<Outcome>): (r: Resolution)
    requires retries < |outcomes|
    ensures 1 <= r.attempts <= retries + 1
    ensures forall i :: 0 <= i < r.attempts - 1 ==> outcomes[i].Failed?
    ensures outcomes[r.attempts - 1].Fetched? ==>
              r.quote == Quote(outcomes[r.attempts - 1].content, outcomes[r.attempts - 1].author) && r.error == None
    ensures outcomes[r.attempts - 1].Failed? ==>
              r.attempts == retries + 1 && r.quote == FallbackQuote && r.error == Some(FetchErrorMessage)
    decreases retries
  {
    match outcomes[0]
    case Fetched(content, author) => Resolution(Quote(content, author), None, 1)
    case Failed =>
      if retries > 0 then
        var rest := Chain(retries - 1, outcomes[1..]);
        Resolution(rest.quote, rest.error, rest.attempts + 1)
      else
        Resolution(FallbackQuote, Some(FetchErrorMessage), 1)
  }

  /** The chain stops at the first successful attempt within its budget and shows its payload. */
  lemma FirstSuccessWins(retries: nat, outcomes: seq<Outcome>, k: nat)
    requires retries < |outcomes| && k <= retries
    requires outcomes[k].Fetched? && forall i :: 0 <= i < k ==> outcomes[i].Failed?
    ensures Chain(retries, outcomes) ==
              Resolution(Quote(outcomes[k].content, outcomes[k].author), None, k + 1)
  {
  }

  /**
   The chain ends with the fallback quote and the notice exactly when all
   `retries + 1` attempts fail; otherwise it ends with no notice.
   */
  lemma FallbackIffAllFail(retries: nat, outcomes: seq<Outcome>)
    requires retries < |outcomes|
    ensures Chain(retries, outcomes).error.Some? <==> forall i :: 0 <= i <= retries ==> outcomes[i].Failed?
    ensures Chain(retries, outcomes).error.Some? ==>
              Chain(retries, outcomes) == Resolution(FallbackQuote, Some(FetchErrorMessage), retries + 1)
  {
  }

  /**
   With the default budget and a service that always fails, the chain makes
   three attempts and ends on the fallback quote with the notice.
   */
  lemma DefaultChainAlwaysFailing(outcomes: seq<Outcome>)
    requires |outcomes| > DefaultRetries
    requires forall i :: 0 <= i < |outcomes| ==> outcomes[i] == Failed
    ensures Chain(DefaultRetries, outcomes) == Resolution(FallbackQuote, Some(FetchErrorMessage), 3)
  {
    FallbackIffAllFail(DefaultRetries, outcomes);
  }
}
