/**
 The session state of the quote generator: the four state cells of the `App`
 component, each setter call modelled as a field assignment.
 */
module Session {
  import opened Favorites
  import opened Fetch

  /** The visible state of a session between two events: the quote, the notice and the loading flag. */
  datatype Snapshot = Snapshot(quote: Option<Quote>, error: Option<string>, isLoading: bool)

  class App {
    var quote: Option<Quote>
    var favorites: seq<Quote>
    var isLoading: bool
    var error: Option<string>

    /** The favorites never hold two quotes with the same content. */
    ghost predicate Valid()
      reads this
    {
      UniqueContents(favorites)
    }

    /** The state a fresh session starts in: no quote yet, no favorites, not loading, no notice. */
    constructor ()
      ensures Valid()
      ensures quote == None && favorites == [] && !isLoading && error == None
    {
      quote := None;
      favorites := [];
      isLoading := false;
      error := None;
    }

    /** Whether the "Favorite" button is disabled in the current state. */
    function FavoriteButtonDisabled(): (disabled: bool)
      reads this
      ensures !disabled <==> Add(quote, favorites) != favorites
    {
      FavoriteEnabledIffAddChanges(quote, favorites);
      FavoriteDisabled(quote, favorites)
    }

    /** The "Favorite" action. */
    method AddToFavorites()
      requires Valid()
      modifies this
      ensures Valid()
      ensures favorites == Add(quote, old(favorites))
      ensures quote == old(quote) && isLoading == old(isLoading) && error == old(error)
    {
      AddKeepsUnique(quote, favorites);
      favorites := Add(quote, favorites);
    }

    /** The remove action of a favorites entry. */
    method RemoveFromFavorites(target: Quote)
      requires Valid()
      modifies this
      ensures Valid()
      ensures favorites == Remove(old(favorites), target)
      ensures quote == old(quote) && isLoading == old(isLoading) && error == old(error)
    {
      RemoveKeepsUnique(favorites, target);
      favorites := Remove(favorites, target);
    }

    /**
     One run of the body of `fetchQuote` with `retries` retries left, where the
     request meets `outcome`. The notice is cleared at the start; a payload
     becomes the quote; a failure either schedules a retry (reported in
     `retryScheduled`, the state otherwise left as it was) or, with no retry
     left, shows the fallback quote and the notice. Loading is switched off at
     the end in every case, also when a retry is pending. `during` is the state
     while the request is awaited: loading on, the notice cleared and the
     earlier quote still shown.
     */
    method Attempt(retries: nat, outcome: Outcome) returns (retryScheduled: bool, ghost during: Snapshot)
      modifies this
      ensures during == Snapshot(old(quote), None, true)
      ensures retryScheduled <==> outcome.Failed? && retries > 0
      ensures outcome.Fetched? ==> quote == Some(Quote(outcome.content, outcome.author)) && error == None
      ensures retryScheduled ==> quote == old(quote) && error == None
      ensures outcome.Failed? && retries == 0 ==> quote == Some(FallbackQuote) && error == Some(FetchErrorMessage)
      ensures !isLoading && favorites == old(favorites)
    {
      isLoading := true;
      error := None;
      during := Snapshot(quote, error, isLoading);
      retryScheduled := false;
      match outcome {
        case Fetched(content, author) =>
          quote := Some(Quote(content, author));
        case Failed =>
          if retries > 0 {
            retryScheduled := true;
          } else {
            error := Some(FetchErrorMessage);
            quote := Some(FallbackQuote);
          }
      }
      isLoading := false;
    }

    /**
     A call `fetchQuote(retries)` together with the retries it schedules, run
     one after another; the i-th attempt meets `outcomes[i]`. The chain ends
     in the state `Chain` describes, after the number of attempts it gives,
     with loading off and the favorites untouched. `whileAwaiting` records the
     state while each attempt's request is awaited: loading on, the notice
     cleared and the earlier quote shown. `afterEach` records the state after
     every attempt: while a retry is pending, loading is already off, the
     notice is cleared and the earlier quote is still shown.
     */
    method FetchQuote(retries: nat, outcomes: seq<Outcome>)
      returns (attempts: nat, ghost whileAwaiting: seq<Snapshot>, ghost afterEach: seq<Snapshot>)
      requires retries < |outcomes|
      modifies this
      ensures whileAwaiting == seq(attempts, _ => Snapshot(old(quote), None, true))
      ensures Valid() == old(Valid())
      ensures 1 <= attempts
      ensures afterEach == seq(attempts - 1, _ => Snapshot(old(quote), None, false)) + [Snapshot(quote, error, isLoading)]
      ensures attempts == Chain(retries, outcomes).attempts
      ensures quote == Some(Chain(retries, outcomes).quote) && error == Chain(retries, outcomes).error
      ensures !isLoading && favorites == old(favorites)
    {
      ghost var shown := quote;
      ghost var awaiting, retrying := Snapshot(shown, None, true), Snapshot(shown, None, false);
      var left: nat := retries;
      attempts := 0;
      var pending := true;
      whileAwaiting, afterEach := [], [];
      while pending
        invariant favorites == old(favorites) && attempts + left <= retries + 1
        invariant whileAwaiting == seq(attempts, _ => awaiting)
        invariant pending ==> attempts + left == retries && quote == shown &&
                                afterEach == seq(attempts, _ => retrying)
        invariant forall i :: 0 <= i < attempts - (if pending then 0 else 1) ==> outcomes[i].Failed?
        invariant !pending ==> (1 <= attempts && !isLoading &&
                    afterEach == seq(attempts - 1, _ => retrying) + [Snapshot(quote, error, isLoading)])
        invariant !pending && outcomes[attempts - 1].Fetched? ==>
                    quote == Some(Quote(outcomes[attempts - 1].content, outcomes[attempts - 1].author)) && error == None
        invariant !pending && outcomes[attempts - 1].Failed? ==>
                    attempts == retries + 1 && quote == Some(FallbackQuote) && error == Some(FetchErrorMessage)
        decreases left, pending
      {
        var retry, during := Attempt(left, outcomes[attempts]);
        assert seq(attempts + 1, _ => awaiting) == whileAwaiting + [during];
        whileAwaiting := whileAwaiting + [during];
        if retry {
          assert seq(attempts + 1, _ => retrying) == afterEach + [Snapshot(quote, error, isLoading)];
          left := left - 1;
        } else {
          pending := false;
        }
        afterEach := afterEach + [Snapshot(quote, error, isLoading)];
        attempts := attempts + 1;
      }
      if outcomes[attempts - 1].Fetched? {
        FirstSuccessWins(retries, outcomes, attempts - 1);
      } else {
        FallbackIffAllFail(retries, outcomes);
      }
    }
  }
}
