/**
 * The page script's state machine: the movie list, the watch history, the two
 * `localStorage` keys they are saved under, and what the page currently shows.
 * Each event handler of the script is a pure transition from one State to the
 * next.
 */
module Watchlist {
  import opened Sequences
  import opened Text
  import opened History

  datatype Option<T> = None | Some(value: T)
  {
    /** The `?? []` fallback: the stored value, or `default` for a missing key. */
    function GetOr(default: T): T
    {
      match this
      case Some(v) => v
      case None => default
    }
  }

  /**
   * The keys `movie_list_items` and `movie_history_items` of `localStorage`,
   * holding already-deserialised values; `None` is a key that was never set.
   */
  datatype Storage = Storage(listItems: Option<seq<string>>, historyItems: Option<seq<Entry>>)

  /**
   * `list` is `MOVIE_LIST_ITEMS`, `history` is `MOVIE_HISTORY_ITEMS`;
   * `listView` holds the titles currently rendered as `<li>` items of the movie
   * list, `historyView` the rows currently rendered in the history table.
   */
  datatype State = State(
    list: seq<string>,
    history: seq<Entry>,
    listView: seq<string>,
    historyView: seq<Entry>,
    storage: Storage)

  /** Why a title was turned away; the page shows it in an `alert`. */
  datatype AddError = EmptyName | DuplicateName

  datatype Verdict = Accepted | Rejected(error: AddError)

  /** The state after a validating operation, and whether the title was accepted. */
  datatype Step = Step(next: State, verdict: Verdict)

  /** Every title on the list is non-empty and lower case, and none is listed twice. */
  predicate ListInvariant(list: seq<string>)
  {
    && NoDuplicates(list)
    && forall i :: 0 <= i < |list| ==> list[i] != "" && IsLower(list[i])
  }

  /** Reloading the page from storage gives back the in-memory list and history. */
  predicate Persisted(s: State)
  {
    && s.storage.listItems.GetOr([]) == s.list
    && s.storage.historyItems.GetOr([]) == s.history
  }

  /** Everything the script keeps true between events. */
  predicate Consistent(s: State)
  {
    && ListInvariant(s.list)
    && UniqueNames(s.history)
    && PositiveWatches(s.history)
    && Persisted(s)
    && IsSubsequence(s.listView, s.list)
    && s.historyView == s.history
  }

  /** The script's top level: read both keys, defaulting a missing one to `[]`. */
  function Load(storage: Storage): (r: State)
    ensures r.storage == storage
    ensures r.list == storage.listItems.GetOr([]) && r.history == storage.historyItems.GetOr([])
    ensures storage.listItems == None ==> r.list == []
    ensures storage.historyItems == None ==> r.history == []
    ensures Persisted(r)
    ensures r.listView == [] && r.historyView == []
  {
    State(storage.listItems.GetOr([]), storage.historyItems.GetOr([]), [], [], storage)
  }

  /** `clearMovies(resetList)`: empty the rendered list; with `resetList`, also the stored one. */
  function ClearMovies(s: State, resetList: bool): (r: State)
    ensures r.listView == []
    ensures resetList ==> r.list == [] && r.storage.listItems == Some([])
    ensures !resetList ==> r.list == s.list && r.storage == s.storage
    ensures r.history == s.history && r.historyView == s.historyView
    ensures r.storage.historyItems == s.storage.historyItems
    ensures Consistent(s) ==> Consistent(r)
  {
    var cleared := s.(listView := []);
    if resetList then cleared.(list := [], storage := s.storage.(listItems := Some([])))
    else cleared
  }

  /** `refreshMovieList(items)`: wipe the rendered list, then render `items` in order. */
  function RefreshMovieList(s: State, items: seq<string>): (r: State)
    ensures r.listView == items
    ensures r.list == s.list && r.history == s.history
    ensures r.historyView == s.historyView && r.storage == s.storage
  {
    ClearMovies(s, false).(listView := items)
  }

  /** `refreshMovieHistoryTable()`: render every history row, in history order. */
  function RefreshMovieHistoryTable(s: State): (r: State)
    ensures r.historyView == s.history
    ensures r.list == s.list && r.history == s.history
    ensures r.listView == s.listView && r.storage == s.storage
  {
    s.(historyView := s.history)
  }

  /** `window.onload` after loading: render the stored list and the history table. */
  function Open(storage: Storage): (r: State)
    ensures r.list == storage.listItems.GetOr([]) && r.history == storage.historyItems.GetOr([])
    ensures r.listView == r.list && r.historyView == r.history
    ensures r.storage == storage
    ensures ListInvariant(r.list) && UniqueNames(r.history) && PositiveWatches(r.history) ==>
      Consistent(r)
  {
    var s := Load(storage);
    var r := RefreshMovieHistoryTable(RefreshMovieList(s, s.list));
    SubsequenceReflexive(r.list);
    r
  }

  /**
   * `updateMovieWatches(name)`: record one more watch of `name`, save the
   * history and redraw the table; the movie list is not touched.
   */
  function UpdateMovieWatches(s: State, name: string): (r: State)
    ensures r.history == RecordWatch(s.history, name)
    ensures r.storage.historyItems == Some(r.history)
    ensures r.historyView == r.history
    ensures r.list == s.list && r.listView == s.listView
    ensures r.storage.listItems == s.storage.listItems
  {
    var h := RecordWatch(s.history, name);
    RefreshMovieHistoryTable(s.(history := h, storage := s.storage.(historyItems := Some(h))))
  }

  /**
   * `validateMovieName(name)`: the empty title is refused; a title already on
   * the list is refused too, but its watch is still recorded.
   */
  function ValidateMovieName(s: State, name: string): (r: Step)
    ensures r.verdict == Accepted <==> name != "" && name !in s.list
    ensures name == "" ==> r.verdict == Rejected(EmptyName) && r.next == s
    ensures name != "" && name in s.list ==>
      && r.verdict == Rejected(DuplicateName)
      && r.next == UpdateMovieWatches(s, name)
    ensures r.verdict == Accepted ==> r.next == s
    ensures r.next.list == s.list
  {
    if name == "" then Step(s, Rejected(EmptyName))
    else if name in s.list then Step(UpdateMovieWatches(s, name), Rejected(DuplicateName))
    else Step(s, Accepted)
  }

  /**
   * `addMovie()` on the text `input` typed into the box: lower-case it,
   * validate it, then append it to the list, save and redraw the list, and
   * record the watch.
   */
  function AddMovie(s: State, input: string): (r: Step)
    // an empty title changes nothing at all
    ensures Lower(input) == "" ==> r == Step(s, Rejected(EmptyName))
    // a title already listed: list untouched, one more watch recorded and saved
    ensures Lower(input) != "" && Lower(input) in s.list ==>
      && r.verdict == Rejected(DuplicateName)
      && r.next.list == s.list && r.next.listView == s.listView
      && r.next.storage.listItems == s.storage.listItems
      && r.next.history == RecordWatch(s.history, Lower(input))
      && r.next.storage.historyItems == Some(r.next.history)
      && r.next.historyView == r.next.history
    // a new title: appended at the end, both lists saved and redrawn
    ensures Lower(input) != "" && Lower(input) !in s.list ==>
      && r.verdict == Accepted
      && r.next.list == s.list + [Lower(input)]
      && r.next.history == RecordWatch(s.history, Lower(input))
      && r.next.storage == Storage(Some(r.next.list), Some(r.next.history))
      && r.next.listView == r.next.list
      && r.next.historyView == r.next.history
    ensures Grows(s.history, r.next.history)
    ensures Consistent(s) ==> Consistent(r.next)
  {
    var name := Lower(input);
    var v := ValidateMovieName(s, name);
    if v.verdict.Rejected? then v
    else
      var list := v.next.list + [name];
      var pushed := v.next.(list := list, storage := v.next.storage.(listItems := Some(list)));
      var shown := RefreshMovieList(pushed, pushed.list);
      SubsequenceReflexive(list);
      Step(UpdateMovieWatches(shown, name), Accepted)
  }

  /**
   * The titles of `list` that include `query`, in list order: the
   * `MOVIE_LIST_ITEMS.filter(...)` of `filterMovies`.
   */
  function MatchingTitles(list: seq<string>, query: string): (r: seq<string>)
    ensures IsSubsequence(r, list)
    ensures forall x :: multiset(r)[x] == if Contains(x, query) then multiset(list)[x] else 0
    decreases |list|
  {
    if |list| == 0 then []
    else
      var rest := MatchingTitles(list[1..], query);
      assert list == [list[0]] + list[1..];
      if Contains(list[0], query) then [list[0]] + rest else rest
  }

  /** The filter keeps every title on an empty query. */
  lemma {:induction false} MatchingTitlesEmptyQuery(list: seq<string>)
    ensures MatchingTitles(list, "") == list
    decreases |list|
  {
    if |list| > 0 {
      MatchingTitlesEmptyQuery(list[1..]);
      assert list == [list[0]] + list[1..];
    }
  }

  /**
   * `filterMovies()` on the text `query` of the filter box: render every
   * title on an empty query, otherwise only those that include the query.
   * Nothing is saved and neither list changes.
   */
  function FilterMovies(s: State, query: string): (r: State)
    ensures query == "" ==> r.listView == s.list
    ensures IsSubsequence(r.listView, s.list)
    ensures forall x :: multiset(r.listView)[x] == if Contains(x, query) then multiset(s.list)[x] else 0
    ensures r.list == s.list && r.history == s.history
    ensures r.storage == s.storage && r.historyView == s.historyView
    ensures Consistent(s) ==> Consistent(r)
  {
    if query == "" then
      SubsequenceReflexive(s.list);
      RefreshMovieList(s, s.list)
    else RefreshMovieList(s, MatchingTitles(s.list, query))
  }

  /**
   * With unique history names, one `addMovie` raises the count of the typed
   * title by exactly one, even when the title is refused as a duplicate, and
   * leaves every other count as it was; an empty title changes no count.
   */
  lemma AddMovieCounts(s: State, input: string, n: string)
    requires UniqueNames(s.history)
    ensures Watches(AddMovie(s, input).next.history, n)
         == Watches(s.history, n) + (if n != "" && n == Lower(input) then 1 else 0)
  {
    if Lower(input) != "" {
      RecordWatchCounts(s.history, Lower(input), n);
    }
  }
}
