# Movie watchlist and watch history, modelled in Dafny

The page script `app.js` keeps two lists in the browser:

- the **movie list** (`MOVIE_LIST_ITEMS`): lower-cased titles, in the order they were added, none twice;
- the **watch history** (`MOVIE_HISTORY_ITEMS`): `{name, watches}` rows in first-seen order, counting how often each title was added, including adds refused because the title was already listed.

Both lists are saved in `localStorage` under `movie_list_items` and `movie_history_items` after every change. They are read back when the page loads, and a missing key reads as `[]`. The page renders the list as `<li>` items and the history as table rows.

This project models the script's bookkeeping as a state machine over immutable values:

- `Watchlist.State` holds the two lists, the two rendered views (`listView`, `historyView`) and the storage (`Storage`, one `Option` per key).
- Each event handler is a pure function from a state (and the text-box value it reads) to the next state.
- `addMovie` and `validateMovieName` also return a `Verdict`. It is `Accepted`, or `Rejected(EmptyName | DuplicateName)` where the page shows an `alert`.
- `Sessions.Run` applies any sequence of add, filter and clear events. The session lemmas state what every such sequence keeps true.

Modules:

- `Sequences` (`sequences.dfy`): duplicate-freedom and order-preserving subsequences.
- `Text` (`text.dfy`): `toLowerCase`, modelled on ASCII capitals, and `includes`, a case-sensitive substring test.
- `History` (`history.dfy`): the history rows, the counting step of `updateMovieWatches` as a function (`RecordWatch`) and as the loop the script runs (`RecordWatchByScan`), and `Watches`, the per-title total.
- `Watchlist` (`watchlist.dfy`): the page state and the handlers `clearMovies`, `refreshMovieList`, `refreshMovieHistoryTable`, `updateMovieWatches`, `validateMovieName`, `addMovie` and `filterMovies`, plus page load.
- `Sessions` (`sessions.dfy`): event sequences and the invariants they preserve.

`Watchlist.Consistent` collects the invariants:

- the list is duplicate-free, and every title on it is non-empty and lower case;
- history names are unique and every count is at least 1;
- reloading from storage gives back both in-memory lists;
- the rendered list is an order-preserving subsequence of the list;
- the rendered table equals the history.

## Model

| member | source | states |
|---|---|---|
| Text.Lower | app.js:37 | lower-casing keeps the length, leaves no capital letter, changes no other character, and fixes an already lower-case string |
| Text.LowerIdempotent | app.js:37 | lower-casing a lower-cased title changes nothing |
| Text.Contains | app.js:165 | `s.includes(q)`: `q` occurs at some index of `s`, matching case exactly; the empty query occurs in every string |
| Text.UpperQueryMatchesNoLower | app.js:165 | matching is case-sensitive: a query with a capital letter matches no stored (lower-case) title |
| History.RecordWatch | app.js:58-74 | a present name keeps the row names and adds 1 to each matching row; an absent name gets a new last row `{name, 1}`; no row is dropped, renamed or counted down; unique names stay unique and positive counts stay positive |
| History.RecordWatchByScan | app.js:58-74 | the scan with no early exit and the `found` flag computes exactly `RecordWatch` |
| History.RecordWatchCounts | app.js:62-74 | with unique names, the total for the recorded title goes up by exactly 1 and every other total is unchanged |
| Watchlist.Load | app.js:5-10 | each list is the value saved under its key, or `[]` when the key is missing; the storage is kept, so reloading it gives back the loaded lists |
| Watchlist.Open | app.js:13-16 | after load both views show the stored lists in full; stored lists that meet the invariants give a consistent state |
| Watchlist.ClearMovies | app.js:23-30 | the rendered list is emptied; `resetList` also empties the list and saves `[]`; without it nothing else changes; the history and its key are untouched; consistency is kept |
| Watchlist.RefreshMovieList | app.js:107-121 | the rendered list becomes exactly the given titles, in order; neither list nor storage changes |
| Watchlist.RefreshMovieHistoryTable | app.js:84-100 | the rendered table becomes the history rows in history order; nothing else changes |
| Watchlist.UpdateMovieWatches | app.js:58-79 | the history becomes `RecordWatch(history, name)`, is saved under its key and redrawn; the list, its view and its key are untouched |
| Watchlist.ValidateMovieName | app.js:129-144 | accepted exactly when the name is non-empty and not listed; an empty name changes nothing; a listed name still records a watch; validation never changes the list |
| Watchlist.AddMovie | app.js:35-51 | an empty title changes nothing; a listed title leaves list, list view and list key alone but records one watch and saves the history; a new title is appended at the end, both keys are saved and both views redrawn; the history only grows; consistency is kept |
| Watchlist.MatchingTitles | app.js:165 | the filtered titles are an order-preserving subsequence of the list holding every occurrence of each title that includes the query and nothing else |
| Watchlist.MatchingTitlesEmptyQuery | app.js:160-165 | the general filter on `''` already returns the whole list, so the empty-query branch agrees with it |
| Watchlist.FilterMovies | app.js:156-166 | an empty query shows the whole list; any query shows an ordered subsequence holding every copy of each title that includes it and nothing else; neither list, the table nor storage changes |
| Watchlist.AddMovieCounts | app.js:35-48 | with unique history names, one add raises the typed title's total by exactly 1, also when refused as a duplicate; an empty title raises nothing |
| Sessions.RunConsistent | app.js:23-166 | every sequence of adds, filters and clears from a consistent state ends in a consistent state |
| Sessions.RunGrows | app.js:58-74 | over any session no history row is dropped, renamed or counted down |
| Sessions.RunCountsAttempts | app.js:129-141 | over any session each title's total grows by the number of adds of that title, refused duplicates included |
| Sessions.DistinctAddsAppend | app.js:43-44 | adding new, non-empty, pairwise distinct titles appends their lower-cased forms in typing order |
| Sessions.ShownTitlesAreListed | app.js:156-166 | after any session from a consistent state, the rendered list shows only listed titles |
| Sessions.ReopenRestores | app.js:5-16 | reloading the page from the storage any session leaves behind restores exactly the list and history in memory, in a consistent state |
| Sessions.DuneSession | app.js:23-166 | first visit: "Dune" is accepted as `dune` with 1 watch; "dune" is refused and makes it 2; "du" shows `dune` and "zz" shows nothing; clearing for good empties and saves the list and keeps `{dune, 2}` |

## Left out

- Text.Lower: models `toLowerCase` on ASCII capitals only. Unicode case mapping, which can change a string's length, is not modelled. The proved facts (idempotence, the result has no capital) are the ones the rest of the model uses.
- History.RecordWatch: `watches` is an unbounded integer, while JavaScript counts are IEEE doubles. At 2^53 the `watches++` of app.js:64 stops growing, because 2^53 + 1 rounds back to 2^53; the "exactly one more" of History.RecordWatchCounts, Watchlist.AddMovieCounts and Sessions.RunCountsAttempts holds only for counts below that. Stored counts that are fractional (such as 1.5) or not numbers at all, which `++` would coerce, are not represented.
- History.RecordWatch: stored history names are assumed to be strings. The loose `==` of app.js:63 would also match a stored non-string name, such as the number 5 against a typed "5"; the model compares strings only.
- DOM work is not modelled: `document.querySelector`, `innerHTML`, `insertRow`/`insertCell`, `createElement`. It is abstracted as the two rendered-view sequences. The two repository variants differ only in how the table element is built, so one model covers both.
- `alert` is replaced by the returned `Rejected(EmptyName)` / `Rejected(DuplicateName)` verdict.
- `clearInput` only blanks the text box, which is not part of the state.
- `localStorage` is modelled as a `Storage` value whose reads and writes always succeed. In the browser, reading `window.localStorage` at app.js:5 and app.js:10 throws when storage is blocked (`SecurityError`), and `setItem` at app.js:28, app.js:44 and app.js:76 throws when the quota is full (`QuotaExceededError`). Neither failure is modelled. So `Watchlist.Persisted` (part of `Watchlist.Consistent`), Sessions.ReopenRestores, Watchlist.AddMovieCounts and Sessions.RunCountsAttempts hold only when every write succeeds: they say what the saved data and the counts are after writes that did not throw.
- Watchlist.ClearMovies: a `setItem` that throws at app.js:28 leaves the list already emptied in memory by app.js:27 but not saved. This half-applied clear is not modelled.
- Watchlist.AddMovie: a `setItem` that throws at app.js:44 leaves the title already pushed into memory by app.js:43 but not saved. Lines 46-48 are skipped, so the list is not redrawn and no watch is recorded. This half-applied add is not modelled.
- Watchlist.UpdateMovieWatches: a `setItem` that throws at app.js:76 leaves the count already raised by app.js:64, or the row already pushed by app.js:70, in memory but not saved, and the table is not redrawn. This half-applied watch is not modelled.
- `JSON.stringify`/`JSON.parse` are not modelled: values are stored already deserialised. Malformed stored JSON makes `JSON.parse` throw at page load. The code falls back to `[]` only when a key is missing, so the model's `Load` does the same; it does not treat unreadable data as empty.
- The `name === undefined` and `movieFilterText === undefined` tests are not modelled. A text box's `value` is always a string, so only the `''` test matters.
- Several tabs writing the same keys at once are not modelled. The script runs one event at a time.
