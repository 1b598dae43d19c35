/**
 * Sessions: any sequence of the page's events (typing a title and adding it,
 * typing in the filter box, clearing the list) applied to a state, and what
 * stays true across all of them.
 */
module Sessions {
  import opened Sequences
  import opened Text
  import opened History
  import opened Watchlist

  /** One user event, carrying the text-box value it reads. */
  datatype Event = Add(input: string) | Filter(query: string) | Clear(resetList: bool)

  function Apply(s: State, e: Event): (r: State)
    ensures Grows(s.history, r.history)
    ensures Consistent(s) ==> Consistent(r)
  {
    match e
    case Add(input) => AddMovie(s, input).next
    case Filter(query) => FilterMovies(s, query)
    case Clear(resetList) => ClearMovies(s, resetList)
  }

  /** The state after the events of `events`, in order. */
  function Run(s: State, events: seq<Event>): State
    decreases |events|
  {
    if |events| == 0 then s else Run(Apply(s, events[0]), events[1..])
  }

  /** The events of typing each of `inputs` in turn and pressing add. */
  function Adds(inputs: seq<string>): (r: seq<Event>)
    ensures |r| == |inputs|
    ensures forall i :: 0 <= i < |inputs| ==> r[i] == Add(inputs[i])
  {
    seq(|inputs|, i requires 0 <= i < |inputs| => Add(inputs[i]))
  }

  /** How many events of `events` add a title that lower-cases to the non-empty `n`. */
  function Attempts(events: seq<Event>, n: string): nat
    decreases |events|
  {
    if |events| == 0 then 0
    else (if n != "" && events[0].Add? && Lower(events[0].input) == n then 1 else 0)
         + Attempts(events[1..], n)
  }

  /** The invariants hold after every session that starts in a consistent state. */
  lemma {:induction false} RunConsistent(s: State, events: seq<Event>)
    requires Consistent(s)
    ensures Consistent(Run(s, events))
    decreases |events|
  {
    if |events| > 0 {
      RunConsistent(Apply(s, events[0]), events[1..]);
    }
  }

  /** No session drops a history row, renames it or lowers its count. */
  lemma {:induction false} RunGrows(s: State, events: seq<Event>)
    ensures Grows(s.history, Run(s, events).history)
    decreases |events|
  {
    if |events| > 0 {
      var t := Apply(s, events[0]);
      RunGrows(t, events[1..]);
      GrowsTransitive(s.history, t.history, Run(t, events[1..]).history);
    }
  }

  /**
   * Every title's count grows by the number of times it was typed and added,
   * counting the adds that were refused as duplicates; filtering and clearing
   * never change a count.
   */
  lemma {:induction false} RunCountsAttempts(s: State, events: seq<Event>, n: string)
    requires UniqueNames(s.history)
    ensures Watches(Run(s, events).history, n) == Watches(s.history, n) + Attempts(events, n)
    decreases |events|
  {
    if |events| > 0 {
      var t := Apply(s, events[0]);
      if events[0].Add? {
        AddMovieCounts(s, events[0].input, n);
      }
      RunCountsAttempts(t, events[1..], n);
    }
  }

  /**
   * Reloading the page after any session gives back the list and history the
   * session ended with, both shown in full.
   */
  lemma ReopenRestores(s: State, events: seq<Event>)
    requires Consistent(s)
    ensures var r := Run(s, events);
      && Open(r.storage).list == r.list
      && Open(r.storage).history == r.history
      && Consistent(Open(r.storage))
  {
    RunConsistent(s, events);
  }

  /** The titles `inputs` become once lower-cased, in order. */
  function LowerAll(inputs: seq<string>): (r: seq<string>)
    ensures |r| == |inputs|
    ensures forall i :: 0 <= i < |inputs| ==> r[i] == Lower(inputs[i])
  {
    seq(|inputs|, i requires 0 <= i < |inputs| => Lower(inputs[i]))
  }

  /** Adding a new, non-empty title appends it to the list. */
  lemma AddNewTitle(s: State, input: string)
    requires Lower(input) != "" && Lower(input) !in s.list
    ensures Apply(s, Add(input)).list == s.list + [Lower(input)]
  {
  }

  /** Running a run of adds is adding the first and running the rest. */
  lemma RunAddsStep(s: State, inputs: seq<string>)
    requires |inputs| > 0
    ensures Run(s, Adds(inputs)) == Run(Apply(s, Add(inputs[0])), Adds(inputs[1..]))
  {
    assert Adds(inputs)[1..] == Adds(inputs[1..]);
  }

  /**
   * Adding titles that are new, non-empty and pairwise distinct once
   * lower-cased appends them to the list in the order they were typed.
   */
  lemma {:induction false} DistinctAddsAppend(s: State, inputs: seq<string>)
    requires forall i :: 0 <= i < |inputs| ==> LowerAll(inputs)[i] != "" && LowerAll(inputs)[i] !in s.list
    requires NoDuplicates(LowerAll(inputs))
    ensures Run(s, Adds(inputs)).list == s.list + LowerAll(inputs)
    decreases |inputs|
  {
    if |inputs| > 0 {
      var names := LowerAll(inputs);
      var rest := inputs[1..];
      var t := Apply(s, Add(inputs[0]));
      AddNewTitle(s, inputs[0]);
      RunAddsStep(s, inputs);
      assert LowerAll(rest) == names[1..];
      assert t.list == s.list + [names[0]];
      assert forall i :: 0 <= i < |rest| ==> names[1..][i] != "" && names[1..][i] !in t.list by {
        forall i | 0 <= i < |rest|
          ensures names[1..][i] != "" && names[1..][i] !in t.list
        {
          assert names[1..][i] == names[i + 1] != names[0];
        }
      }
      DistinctAddsAppend(t, rest);
      ShiftHead(s.list, names);
    }
  }

  /** The rendered movie list never shows a title that is not on the list. */
  lemma ShownTitlesAreListed(s: State, events: seq<Event>)
    requires Consistent(s)
    ensures forall x :: x in Run(s, events).listView ==> x in Run(s, events).list
  {
    RunConsistent(s, events);
    var r := Run(s, events);
    SubsequenceElements(r.listView, r.list);
  }

  lemma LowerDune()
    ensures Lower("Dune") == "dune" && Lower("dune") == "dune"
  {
    assert LowerChar('D') == 'd';
    assert IsLower("dune");
  }

  /** "du" matches "dune" and "zz" does not. */
  lemma DuneQueries()
    ensures Contains("dune", "du") && !Contains("dune", "zz")
  {
    assert OccursAt("dune", "du", 0);
    forall i | 0 <= i <= 2
      ensures !OccursAt("dune", "zz", i)
    {
      assert "dune"[i..i + 2][0] != 'z';
    }
  }

  /**
   * A first visit: add "Dune", add "dune" again, filter on "du" and on "zz",
   * then clear the list for good.
   */
  lemma DuneSession()
    ensures var s0 := Open(Storage(None, None));
      var a1 := AddMovie(s0, "Dune");
      var a2 := AddMovie(a1.next, "dune");
      var f1 := FilterMovies(a2.next, "du");
      var f2 := FilterMovies(f1, "zz");
      var c := ClearMovies(f2, true);
      && a1.verdict == Accepted
      && a1.next.list == ["dune"] && a1.next.history == [Entry("dune", 1)]
      && a2.verdict == Rejected(DuplicateName)
      && a2.next.list == ["dune"] && a2.next.history == [Entry("dune", 2)]
      && f1.listView == ["dune"]
      && f2.listView == []
      && c.list == [] && c.history == [Entry("dune", 2)]
      && c.storage == Storage(Some([]), Some([Entry("dune", 2)]))
  {
    LowerDune();
    DuneQueries();
    var s0 := Open(Storage(None, None));
    assert s0.list == [] && s0.history == [];
    var a1 := AddMovie(s0, "Dune");
    assert a1.next.list == ["dune"];
    assert a1.next.history == [Entry("dune", 1)];
    var a2 := AddMovie(a1.next, "dune");
    assert Names(a1.next.history) == ["dune"];
    assert a2.next.history == [Entry("dune", 2)];
    var f1 := FilterMovies(a2.next, "du");
    assert f1.listView == ["dune"] by {
      assert MatchingTitles(["dune"], "du") == ["dune"] by {
        assert ["dune"][1..] == [];
      }
    }
    var f2 := FilterMovies(f1, "zz");
    assert f2.listView == [] by {
      assert MatchingTitles(["dune"], "zz") == [] by {
        assert ["dune"][1..] == [];
      }
    }
  }
}
