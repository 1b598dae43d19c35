/**
 * The watch history (`MOVIE_HISTORY_ITEMS`): an ordered list of name/count
 * records, and the counting step `updateMovieWatches` performs on it.
 */
module History {
  import opened Sequences

  /** One history row: a lower-cased title and how often it was added. */
  datatype Entry = Entry(name: string, watches: int)

  /** The titles of the history, in table order. */
  function Names(h: seq<Entry>): seq<string>
  {
    seq(|h|, i requires 0 <= i < |h| => h[i].name)
  }

  /** No title has two rows. */
  predicate UniqueNames(h: seq<Entry>)
  {
    NoDuplicates(Names(h))
  }

  /** Every row records at least one watch. */
  predicate PositiveWatches(h: seq<Entry>)
  {
    forall i :: 0 <= i < |h| ==> h[i].watches >= 1
  }

  /**
   * `h2` is `h1` possibly followed by new rows, with no row dropped, renamed or
   * counted down.
   */
  predicate Grows(h1: seq<Entry>, h2: seq<Entry>)
  {
    && |h1| <= |h2|
    && (forall i :: 0 <= i < |h1| ==> h2[i].name == h1[i].name)
    && (forall i :: 0 <= i < |h1| ==> h2[i].watches >= h1[i].watches)
  }

  lemma GrowsTransitive(h1: seq<Entry>, h2: seq<Entry>, h3: seq<Entry>)
    requires Grows(h1, h2) && Grows(h2, h3)
    ensures Grows(h1, h3)
  {
  }

  /**
   * The total count recorded for title `n`: the sum of `watches` over every row
   * named `n` (0 when there is none). With unique names it is that row's count.
   */
  function Watches(h: seq<Entry>, n: string): int
  {
    if |h| == 0 then 0
    else Watches(h[..|h| - 1], n) + (if h[|h| - 1].name == n then h[|h| - 1].watches else 0)
  }

  /** Adds one to the count of every row named `name`. */
  function Bump(h: seq<Entry>, name: string): seq<Entry>
  {
    seq(|h|, i requires 0 <= i < |h| =>
      if h[i].name == name then h[i].(watches := h[i].watches + 1) else h[i])
  }

  /**
   * The history after one more watch of `name`: the counts of the rows with
   * that name go up by one or, when there is no such row, a row `{name, 1}` is
   * appended.
   */
  function RecordWatch(h: seq<Entry>, name: string): (r: seq<Entry>)
    ensures name in Names(h) ==> Names(r) == Names(h)
    ensures name !in Names(h) ==> Names(r) == Names(h) + [name] && r[|h|].watches == 1
    ensures forall i :: 0 <= i < |h| ==>
      r[i].watches == (if h[i].name == name then h[i].watches + 1 else h[i].watches)
    ensures Grows(h, r)
    ensures UniqueNames(h) ==> UniqueNames(r)
    ensures PositiveWatches(h) ==> PositiveWatches(r)
  {
    if name in Names(h) then Bump(h, name)
    else
      var r := h + [Entry(name, 1)];
      assert Names(r) == Names(h) + [name];
      assert forall i :: 0 <= i < |h| ==> Names(h)[i] == h[i].name;
      r
  }

  /** Bumping a title that has no row changes nothing. */
  lemma BumpAbsent(h: seq<Entry>, name: string)
    requires name !in Names(h)
    ensures Bump(h, name) == h
  {
    forall i | 0 <= i < |h|
      ensures Bump(h, name)[i] == h[i]
    {
      assert Names(h)[i] == h[i].name;
    }
  }

  /** The total for `n` after appending one row. */
  lemma WatchesAppend(h: seq<Entry>, e: Entry, n: string)
    ensures Watches(h + [e], n) == Watches(h, n) + (if e.name == n then e.watches else 0)
  {
    assert (h + [e])[..|h|] == h;
  }

  /**
   * With unique names and `name` present, bumping adds exactly one to the total
   * of `name` and leaves every other total alone.
   */
  lemma {:induction false} BumpWatches(h: seq<Entry>, name: string, n: string)
    requires UniqueNames(h)
    requires name in Names(h)
    ensures Watches(Bump(h, name), n) == Watches(h, n) + (if n == name then 1 else 0)
    decreases |h|
  {
    var p := h[..|h| - 1];
    var last := h[|h| - 1];
    assert Bump(h, name) == Bump(p, name) + [Bump(h, name)[|h| - 1]];
    WatchesAppend(Bump(p, name), Bump(h, name)[|h| - 1], n);
    assert Names(p) == Names(h)[..|h| - 1];
    if last.name == name {
      assert name !in Names(p) by {
        forall i | 0 <= i < |p|
          ensures Names(p)[i] != name
        {
          assert Names(h)[i] != Names(h)[|h| - 1];
        }
      }
      BumpAbsent(p, name);
    } else {
      assert UniqueNames(p);
      assert name in Names(p) by {
        var k :| 0 <= k < |h| && Names(h)[k] == name;
        assert k < |h| - 1;
        assert Names(p)[k] == name;
      }
      BumpWatches(p, name, n);
    }
  }

  /**
   * The count of `name` goes up by exactly one and every other count stays the
   * same, provided the history starts with unique names.
   */
  lemma RecordWatchCounts(h: seq<Entry>, name: string, n: string)
    requires UniqueNames(h)
    ensures Watches(RecordWatch(h, name), n) == Watches(h, n) + (if n == name then 1 else 0)
  {
    if name in Names(h) {
      BumpWatches(h, name, n);
    } else {
      WatchesAppend(h, Entry(name, 1), n);
    }
  }

  /**
   * `updateMovieWatches` as written: one pass over every row with no early
   * exit, bumping each match and remembering whether any matched, then
   * appending `{name, 1}` when none did.
   */
  method RecordWatchByScan(h: seq<Entry>, name: string) returns (r: seq<Entry>)
    ensures r == RecordWatch(h, name)
  {
    var found := false;
    r := h;
    var i := 0;
    while i < |r|
      invariant 0 <= i <= |r| == |h|
      invariant forall k :: 0 <= k < i ==> r[k] == Bump(h, name)[k]
      invariant forall k :: i <= k < |r| ==> r[k] == h[k]
      invariant found <==> exists k :: 0 <= k < i && h[k].name == name
    {
      if r[i].name == name {
        r := r[i := r[i].(watches := r[i].watches + 1)];
        found := true;
      }
      i := i + 1;
    }
    if !found {
      assert name !in Names(h) by {
        forall k | 0 <= k < |h|
          ensures Names(h)[k] != name
        {
        }
      }
      r := r + [Entry(name, 1)];
    } else {
      var k :| 0 <= k < |h| && h[k].name == name;
      assert Names(h)[k] == name;
    }
  }
}
