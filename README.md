# Zen Quote Generator — session state model

A Dafny model of the session logic of the Zen Quote Generator's single
component, `App` in `src/App.tsx`. The component shows a quote fetched from a
remote quote service. It retries a failed request a bounded number of times
and falls back to one built-in quote when every attempt fails. It also keeps
an in-memory list of favorite quotes.

The model has three modules:

- `Favorites` (favorites.dfy) holds the quote record and the favorites store.
  A quote's identity is its `content` text alone. `Add` and `Remove` are the
  lists that `addToFavorites` and `removeFromFavorites` hand to the favorites
  setter. `FavoriteDisabled` is the disabled predicate of the "Favorite"
  button. Lemmas state the store's properties: no duplicate contents,
  idempotence, order preservation, and add-then-remove restoring the list.
- `Fetch` (fetch.dfy) defines `Chain`, the specification of a whole attempt
  chain. It is a function of the retry budget and of the sequence of outcomes
  that successive requests meet. Each outcome is a payload or a failure.
- `Session` (session.dfy) holds the class `App`, whose fields are the
  component's four state cells: `quote`, `favorites`, `isLoading`, `error`.
  Each setter call is a field assignment. `Attempt` is one run of the body of
  `fetchQuote`. `FetchQuote` runs a call and the retries it schedules one
  after another, and is proved to end in the state `Chain` gives.

Both calls of `fetchQuote` from outside the chain (src/App.tsx:44, 77) pass
no argument, so a chain starts with `DefaultRetries` = 2 (src/App.tsx:20).
The retry at src/App.tsx:33 passes `retries - 1`, so `FetchQuote` takes the
budget as a parameter.

## Notes on the code

- The notice is cleared at the start of every attempt, retries included,
  because a retry is a fresh call of `fetchQuote` (src/App.tsx:22, 33).
- The loading flag is switched off at the end of every attempt, even while a
  retry is pending (src/App.tsx:39). It is not held on for the whole chain.
- There is one fallback quote (src/App.tsx:9-12). There are no categories, no
  per-category fallback tables and no random choice.

## Model

| member | source | states |
|---|---|---|
| `Favorites.HasContent` | src/App.tsx:48 | the `some` scan is true exactly when some favorite has the given content |
| `Favorites.Add` | src/App.tsx:47-51 | the old list is a prefix of the result, which is at most one entry longer; it grows exactly when a quote is present and no favorite has its content, and then the new last entry is that quote |
| `Favorites.Remove` | src/App.tsx:53-55 | no entry of the result has the target's content; the result is a subsequence of the old list (order kept) and no longer than it; every quote with another content occurs as often as before |
| `Favorites.AddKeepsUnique` | src/App.tsx:48-49 | adding preserves "no two favorites share content" |
| `Favorites.AddIdempotent` | src/App.tsx:48-49 | adding the same quote twice gives the same list as adding it once |
| `Favorites.AddLeavesOneEntry` | src/App.tsx:48-49 | in a duplicate-free store, adding a quote once or twice leaves exactly one favorite with its content |
| `Favorites.FavoriteDisabled` | src/App.tsx:90 | the Favorite button is disabled exactly when no quote is loaded or some favorite has its content |
| `Favorites.FavoriteEnabledIffAddChanges` | src/App.tsx:90 | the Favorite button is enabled exactly when pressing it would change the favorites |
| `Favorites.RemovedIsNotFavorited` | src/App.tsx:54 | after removal the target's content is no longer favorited |
| `Favorites.RemoveKeepsUnique` | src/App.tsx:54 | removal preserves "no two favorites share content" |
| `Favorites.RemoveAbsentIsNoOp` | src/App.tsx:54 | removing a content that no favorite has leaves the list unchanged |
| `Favorites.RemoveIdempotent` | src/App.tsx:54 | removing twice gives the same list as removing once |
| `Favorites.RemoveAppend` | src/App.tsx:54 | filtering a concatenation is the concatenation of the filtered parts |
| `Favorites.AddThenRemoveRestores` | src/App.tsx:48-54 | if no favorite had the quote's content, adding it and then removing it restores the original list |
| `Favorites.AddAddRemoveEmpties` | src/App.tsx:47-55 | adding a quote twice to an empty store and removing it leaves the store empty |
| `Fetch.Chain` | src/App.tsx:20-41 | a chain with budget `r` makes between 1 and `r + 1` attempts, all but the last failing; a last success leaves its payload as the quote and no notice; a last failure happens only with the budget spent and leaves the fallback quote and the notice |
| `Fetch.FirstSuccessWins` | src/App.tsx:28-33 | the first success within the budget ends the chain, with its payload shown, no notice, after exactly that many attempts |
| `Fetch.FallbackIffAllFail` | src/App.tsx:32-37 | the notice is shown exactly when all `r + 1` attempts fail, and then the fallback quote is shown after `r + 1` attempts |
| `Fetch.DefaultChainAlwaysFailing` | src/App.tsx:20-37 | with the default budget of 2 retries and a service that always fails, the chain makes 3 attempts and ends on the fallback quote with the notice |
| `Session.App.constructor` | src/App.tsx:15-18 | a session starts with no quote, no favorites, loading off and no notice |
| `Session.App.FavoriteButtonDisabled` | src/App.tsx:90 | in the session's state, the button is enabled exactly when `addToFavorites` would change the favorites |
| `Session.App.AddToFavorites` | src/App.tsx:47-51 | the favorites become `Add` of the current quote, the duplicate-free invariant is kept, and nothing else changes |
| `Session.App.RemoveFromFavorites` | src/App.tsx:53-55 | the favorites become `Remove` of the target, the duplicate-free invariant is kept, and nothing else changes |
| `Session.App.Attempt` | src/App.tsx:20-41 | one attempt: while the request is awaited, loading is on, the notice is cleared and the earlier quote is shown; afterwards a retry is scheduled exactly on a failure with retries left, and the quote and a cleared notice stay as they were; a payload becomes the quote with no notice; a failure with no retry left shows the fallback quote and the notice; loading is off afterwards in every case; favorites untouched |
| `Session.App.FetchQuote` | src/App.tsx:20-41 | the attempt chain ends in the state `Chain` specifies, after `Chain`'s number of attempts, with loading off and favorites untouched; while each attempt's request is awaited, loading is on, the notice is cleared and the earlier quote is shown; after every attempt that scheduled a retry, loading is off, the notice is cleared and the earlier quote is still shown |

## Left out

- Rendering, styling and icons (src/App.tsx:57-120). The Favorite button's disabled predicate is modelled. The New Quote button's predicate is listed below.
- The HTTP request and `response.json()` (src/App.tsx:24-28). Each attempt meets an abstract outcome: a `{content, author}` payload or a failure. A non-success status, a network error and a parse error are all the same failure. A payload without `content` or `author` fields is not modelled.
- The one-second `setTimeout` delay and event-loop interleaving (src/App.tsx:33). A retry is modelled as the next step of the chain. A new call started while a retry is still pending, and a late retry overwriting a newer result, are not modelled.
- The "New Quote" button's disabled predicate `isLoading` (src/App.tsx:78). `FetchQuote` and `Attempt` state that loading is off after every attempt. So the button is enabled again while a retry is pending.
- The mount-time call of `fetchQuote` by `useEffect` (src/App.tsx:43-45) and the `console.error` logging (src/App.tsx:31).
- React's batching of state updates. Each setter call is a direct field assignment.
- A request that never settles. Each request is assumed to settle, with a payload or a failure, so the outcome sequence given to `FetchQuote` holds an outcome for each of the `retries + 1` attempts the chain may make. The code sets no time-out on `fetch` or `response.json()` (src/App.tsx:24, 28), so a request that never settles leaves loading on from src/App.tsx:21 and schedules no retry; that case is not modelled, and "loading is off after every attempt" in `Attempt` and `FetchQuote` holds only for requests that settle.
