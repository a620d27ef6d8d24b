/**
 * `genera_tutti_scenari` (lines 803-861): expand the requested pieces, sort
 * them longest first, run the greedy strategy, then the preference strategy
 * for every catalog length (longest first), then the min-bars and the
 * long-offcuts strategies, keeping a scenario only when its bar demand is new,
 * and finally sort the kept scenarios by total waste.
 */
module Generator {
  import opened Wrappers
  import opened Seqs
  import opened Cutting
  import opened Plans
  import opened Scenarios
  import opened Choices
  import opened Strategies

  /** What one strategy contributes: its scenario, or nothing when it gave up. */
  function Candidate(s: Strategy, pieces: seq<int>, catalog: seq<int>, kerf: int, costs: map<int, real>): Option<Scenario>
  {
    Optional(Evaluate(s, pieces, catalog, kerf, costs))
  }

  /** Lines 843-844, 849-850, 855-856: a scenario joins the list only when it exists and its demand is new. */
  function AddIfNew(list: seq<Scenario>, o: Option<Scenario>): (r: seq<Scenario>)
    ensures o.Some? && !Duplicated(o.value, list) ==> r == list + [o.value]
    ensures o.None? || Duplicated(o.value, list) ==> r == list
  {
    if o.Some? && !Duplicated(o.value, list) then list + [o.value] else list
  }

  /** Lines 840-844: the preference scenarios for the given lengths, in that order. */
  function WithPreferences(list: seq<Scenario>, prefs: seq<int>, pieces: seq<int>, catalog: seq<int>, kerf: int,
                           costs: map<int, real>): seq<Scenario>
  {
    if prefs == [] then list
    else
      var n := |prefs| - 1;
      AddIfNew(WithPreferences(list, prefs[..n], pieces, catalog, kerf, costs),
               Candidate(Preference(prefs[n]), pieces, catalog, kerf, costs))
  }

  /** The kept scenarios before the final sort. */
  function Kept(greedy: Scenario, pieces: seq<int>, catalog: seq<int>, kerf: int, costs: map<int, real>): seq<Scenario>
  {
    var withPrefs := WithPreferences([greedy], SortDesc(catalog), pieces, catalog, kerf, costs);
    var withMinBars := AddIfNew(withPrefs, Candidate(MinBars, pieces, catalog, kerf, costs));
    AddIfNew(withMinBars, Candidate(LongOffcuts, pieces, catalog, kerf, costs))
  }

  /** A list in non-decreasing order of total waste. */
  predicate ByWaste(list: seq<Scenario>)
  {
    forall i, j :: 0 <= i < j < |list| ==> list[i].totalWaste <= list[j].totalWaste
  }

  /** No scenario in the list wastes less than w. */
  predicate WasteAtLeast(w: int, list: seq<Scenario>)
  {
    forall j :: 0 <= j < |list| ==> w <= list[j].totalWaste
  }

  /** Puts a scenario before the first one of no smaller waste. */
  function InsertByWaste(x: Scenario, list: seq<Scenario>): (r: seq<Scenario>)
    ensures multiset(r) == multiset(list) + multiset{x}
  {
    if list == [] then [x]
    else if x.totalWaste <= list[0].totalWaste then [x] + list
    else
      assert list == [list[0]] + list[1..];
      [list[0]] + InsertByWaste(x, list[1..])
  }

  /** Inserting a scenario of waste at least w keeps every waste at least w. */
  lemma {:induction false} InsertBound(w: int, x: Scenario, list: seq<Scenario>)
    requires WasteAtLeast(w, list) && w <= x.totalWaste
    ensures WasteAtLeast(w, InsertByWaste(x, list))
  {
    if list != [] && x.totalWaste > list[0].totalWaste {
      InsertBound(w, x, list[1..]);
    }
  }

  /** Inserting into a list sorted by waste keeps it sorted. */
  lemma {:induction false} InsertSorted(x: Scenario, list: seq<Scenario>)
    requires ByWaste(list)
    ensures ByWaste(InsertByWaste(x, list))
  {
    if list != [] {
      if x.totalWaste <= list[0].totalWaste {
        var r := [x] + list;
        forall i, j | 0 <= i < j < |r| ensures r[i].totalWaste <= r[j].totalWaste {
          if i == 0 {
            assert list[0].totalWaste <= list[j - 1].totalWaste;
          }
        }
      } else {
        var rest := InsertByWaste(x, list[1..]);
        InsertSorted(x, list[1..]);
        InsertBound(list[0].totalWaste, x, list[1..]);
        var r := [list[0]] + rest;
        forall i, j | 0 <= i < j < |r| ensures r[i].totalWaste <= r[j].totalWaste {
          if i > 0 {
            assert r[i] == rest[i - 1] && r[j] == rest[j - 1];
          }
        }
      }
    }
  }

  /** Line 859: a stable sort by total waste. */
  function SortByWaste(list: seq<Scenario>): (r: seq<Scenario>)
    ensures multiset(r) == multiset(list) && |r| == |list|
    ensures ByWaste(r)
  {
    if list == [] then []
    else
      assert list == [list[0]] + list[1..];
      var sorted := SortByWaste(list[1..]);
      InsertSorted(list[0], sorted);
      var r := InsertByWaste(list[0], sorted);
      assert |r| == |multiset(r)|;
      r
  }

  /**
   * What `genera_tutti_scenari` returns for the pieces sorted longest first:
   * the greedy strategy's error, or the kept scenarios sorted by waste.
   */
  function Collect(pieces: seq<int>, catalog: seq<int>, kerf: int, costs: map<int, real>): Result<seq<Scenario>, int>
  {
    match Evaluate(Greedy, pieces, catalog, kerf, costs)
    case Err(piece) => Err(piece)
    case Ok(greedy) => Ok(SortByWaste(Kept(greedy, pieces, catalog, kerf, costs)))
  }

  /** Lines 803-861, from the (quantity, length) list. */
  function Generate(demand: seq<(int, int)>, catalog: seq<int>, kerf: int, costs: map<int, real>): Result<seq<Scenario>, int>
  {
    Collect(SortDesc(Expand(demand)), catalog, kerf, costs)
  }

  /** Lines 843-844, 849-850, 855-856: append the scenario when it exists and its demand is new. */
  method AddCandidate(list: seq<Scenario>, o: Option<Scenario>) returns (r: seq<Scenario>)
    ensures r == AddIfNew(list, o)
  {
    r := list;
    if o.Some? {
      var dup := IsDuplicate(o.value, list);
      if !dup {
        r := list + [o.value];
      }
    }
  }

  /** Lines 840-844: one preference scenario per given catalog length. */
  method AddPreferenceScenarios(list0: seq<Scenario>, prefs: seq<int>, pieces: seq<int>, catalog: seq<int>, kerf: int,
                                costs: map<int, real>) returns (list: seq<Scenario>)
    requires forall i :: 0 <= i < |prefs| ==> prefs[i] in catalog
    ensures list == WithPreferences(list0, prefs, pieces, catalog, kerf, costs)
  {
    list := list0;
    for i := 0 to |prefs|
      invariant list == WithPreferences(list0, prefs[..i], pieces, catalog, kerf, costs)
    {
      assert prefs[..i + 1][..i] == prefs[..i];
      var sc := PreferenceScenario(pieces, catalog, kerf, prefs[i], costs);
      list := AddCandidate(list, sc);
    }
    assert prefs[..|prefs|] == prefs;
  }

  /** The catalog sorted longest first holds only catalog lengths. */
  lemma SortedCatalog(catalog: seq<int>)
    ensures forall i :: 0 <= i < |SortDesc(catalog)| ==> SortDesc(catalog)[i] in catalog
  {
    var prefs := SortDesc(catalog);
    forall i | 0 <= i < |prefs| ensures prefs[i] in catalog {
      assert prefs[i] in multiset(prefs);
    }
  }

  /** Lines 803-861: the generator as the program runs it. */
  method GenerateScenarios(demand: seq<(int, int)>, catalog: seq<int>, kerf: int, costs: map<int, real>)
    returns (r: Result<seq<Scenario>, int>)
    ensures r == Generate(demand, catalog, kerf, costs)
  {
    var units := ExpandDemand(demand);
    var pieces := SortDesc(units);
    var greedy := GreedyScenario(pieces, catalog, kerf, costs);
    if greedy.Err? {
      return Err(greedy.error);
    }
    SortedCatalog(catalog);
    var list := AddPreferenceScenarios([greedy.value], SortDesc(catalog), pieces, catalog, kerf, costs);
    var minBars := MinBarsScenario(pieces, catalog, kerf, costs);
    list := AddCandidate(list, minBars);
    var longOffcuts := LongOffcutsScenario(pieces, catalog, kerf, costs);
    list := AddCandidate(list, longOffcuts);
    r := Ok(SortByWaste(list));
  }

  // ---------------------------------------------------------------------------
  // What the returned list satisfies
  // ---------------------------------------------------------------------------

  /** A strategy the generator runs: a preference is always for a catalog length. */
  predicate Runnable(s: Strategy, catalog: seq<int>)
  {
    s.Preference? ==> s.preferred in catalog
  }

  /** The scenario is what some strategy the generator runs reports. */
  ghost predicate Produced(sc: Scenario, pieces: seq<int>, catalog: seq<int>, kerf: int, costs: map<int, real>)
  {
    exists s :: Runnable(s, catalog) && Evaluate(s, pieces, catalog, kerf, costs) == Ok(sc)
  }

  /** Every scenario of the list is one that a strategy reports. */
  ghost predicate AllProduced(list: seq<Scenario>, pieces: seq<int>, catalog: seq<int>, kerf: int, costs: map<int, real>)
  {
    forall i :: 0 <= i < |list| ==> Produced(list[i], pieces, catalog, kerf, costs)
  }

  /** No two scenarios of the list ask for the same bars (lines 863-868). */
  predicate DistinctDemands(list: seq<Scenario>)
  {
    forall i, j :: 0 <= i < j < |list| ==> list[i].demand != list[j].demand
  }

  /** Adding only new demands keeps the demands distinct. */
  lemma AddIfNewDistinct(list: seq<Scenario>, o: Option<Scenario>)
    requires DistinctDemands(list)
    ensures DistinctDemands(AddIfNew(list, o))
  {
    if o.Some? && !Duplicated(o.value, list) {
      var r := list + [o.value];
      forall i, j | 0 <= i < j < |r| ensures r[i].demand != r[j].demand {
        if j == |list| {
          assert r[i] == list[i];
        }
      }
    }
  }

  /** The preference round keeps the list it starts from as a prefix and adds at most one scenario per length. */
  lemma {:induction false} WithPreferencesPrefix(list: seq<Scenario>, prefs: seq<int>, pieces: seq<int>,
                                                 catalog: seq<int>, kerf: int, costs: map<int, real>)
    ensures var r := WithPreferences(list, prefs, pieces, catalog, kerf, costs);
      |list| <= |r| <= |list| + |prefs| && r[..|list|] == list
  {
    if prefs != [] {
      var n := |prefs| - 1;
      WithPreferencesPrefix(list, prefs[..n], pieces, catalog, kerf, costs);
      var before := WithPreferences(list, prefs[..n], pieces, catalog, kerf, costs);
      AddIfNewPrefix(before, Candidate(Preference(prefs[n]), pieces, catalog, kerf, costs), |list|);
    }
  }

  /** Adding at most one scenario grows a list by at most one and keeps its every prefix. */
  lemma AddIfNewPrefix(list: seq<Scenario>, o: Option<Scenario>, k: nat)
    requires k <= |list|
    ensures var r := AddIfNew(list, o); |list| <= |r| <= |list| + 1 && r[..k] == list[..k]
  {
    if o.Some? && !Duplicated(o.value, list) {
      assert (list + [o.value])[..k] == list[..k];
    }
  }

  /** The preference round keeps the demands distinct. */
  lemma {:induction false} WithPreferencesDistinct(list: seq<Scenario>, prefs: seq<int>, pieces: seq<int>,
                                                   catalog: seq<int>, kerf: int, costs: map<int, real>)
    requires DistinctDemands(list)
    ensures DistinctDemands(WithPreferences(list, prefs, pieces, catalog, kerf, costs))
  {
    if prefs != [] {
      var n := |prefs| - 1;
      WithPreferencesDistinct(list, prefs[..n], pieces, catalog, kerf, costs);
      AddIfNewDistinct(WithPreferences(list, prefs[..n], pieces, catalog, kerf, costs),
                       Candidate(Preference(prefs[n]), pieces, catalog, kerf, costs));
    }
  }

  /** A list whose every element is in the catalog: so is every element of the list without its last. */
  lemma PrefixIn(prefs: seq<int>, n: nat, catalog: seq<int>)
    requires n <= |prefs| && forall i :: 0 <= i < |prefs| ==> prefs[i] in catalog
    ensures forall i :: 0 <= i < n ==> prefs[..n][i] in catalog
  {
  }

  /** Adding a strategy's scenario keeps every scenario one that a strategy reports. */
  lemma AddIfNewProduced(list: seq<Scenario>, s: Strategy, pieces: seq<int>, catalog: seq<int>, kerf: int,
                         costs: map<int, real>)
    requires Runnable(s, catalog)
    requires AllProduced(list, pieces, catalog, kerf, costs)
    ensures AllProduced(AddIfNew(list, Candidate(s, pieces, catalog, kerf, costs)), pieces, catalog, kerf, costs)
  {
    var o := Candidate(s, pieces, catalog, kerf, costs);
    if o.Some? && !Duplicated(o.value, list) {
      assert Evaluate(s, pieces, catalog, kerf, costs) == Ok(o.value);
      var r := list + [o.value];
      forall i | 0 <= i < |r| ensures Produced(r[i], pieces, catalog, kerf, costs) {
        if i < |list| {
          assert r[i] == list[i];
        }
      }
    }
  }

  /** The preference round, over catalog lengths, adds only scenarios that a strategy reports. */
  lemma {:induction false} WithPreferencesProduced(list: seq<Scenario>, prefs: seq<int>, pieces: seq<int>,
                                                   catalog: seq<int>, kerf: int, costs: map<int, real>)
    requires forall i :: 0 <= i < |prefs| ==> prefs[i] in catalog
    requires AllProduced(list, pieces, catalog, kerf, costs)
    ensures AllProduced(WithPreferences(list, prefs, pieces, catalog, kerf, costs), pieces, catalog, kerf, costs)
  {
    if prefs != [] {
      var n := |prefs| - 1;
      PrefixIn(prefs, n, catalog);
      WithPreferencesProduced(list, prefs[..n], pieces, catalog, kerf, costs);
      AddIfNewProduced(WithPreferences(list, prefs[..n], pieces, catalog, kerf, costs), Preference(prefs[n]),
                       pieces, catalog, kerf, costs);
    }
  }

  /** Inserting a scenario whose demand is new keeps the demands distinct. */
  lemma {:induction false} InsertDistinct(x: Scenario, list: seq<Scenario>)
    requires DistinctDemands(list)
    requires forall y :: y in list ==> y.demand != x.demand
    ensures DistinctDemands(InsertByWaste(x, list))
  {
    if list != [] && x.totalWaste > list[0].totalWaste {
      var tail := list[1..];
      DistinctSplit(list);
      InsertDistinct(x, tail);
      var rest := InsertByWaste(x, tail);
      forall y | y in rest ensures y.demand != list[0].demand {
        assert y in multiset(rest);
        if y != x {
          assert y in multiset(tail);
        }
      }
      DistinctCons(list[0], rest);
    } else if list != [] {
      DistinctCons(x, list);
    }
  }

  /** A duplicate-free list: its head's demand is not in its tail, which is duplicate-free too. */
  lemma DistinctSplit(list: seq<Scenario>)
    requires list != [] && DistinctDemands(list)
    ensures DistinctDemands(list[1..])
    ensures forall y :: y in list[1..] ==> y.demand != list[0].demand
  {
    var tail := list[1..];
    forall i, j | 0 <= i < j < |tail| ensures tail[i].demand != tail[j].demand {
      assert tail[i] == list[i + 1] && tail[j] == list[j + 1];
    }
    forall y | y in tail ensures y.demand != list[0].demand {
      var k :| 0 <= k < |tail| && tail[k] == y;
      assert list[k + 1] == y;
    }
  }

  /** A scenario in front of a duplicate-free list none of whose demands is its own. */
  lemma DistinctCons(h: Scenario, rest: seq<Scenario>)
    requires DistinctDemands(rest)
    requires forall y :: y in rest ==> y.demand != h.demand
    ensures DistinctDemands([h] + rest)
  {
    var r := [h] + rest;
    forall i, j | 0 <= i < j < |r| ensures r[i].demand != r[j].demand {
      assert r[j] == rest[j - 1];
      if i > 0 {
        assert r[i] == rest[i - 1];
      }
    }
  }


  /** Sorting by waste keeps the demands distinct. */
  lemma {:induction false} SortDistinct(list: seq<Scenario>)
    requires DistinctDemands(list)
    ensures DistinctDemands(SortByWaste(list))
  {
    if list != [] {
      var tail := list[1..];
      assert DistinctDemands(tail) by {
        forall i, j | 0 <= i < j < |tail| ensures tail[i].demand != tail[j].demand {
          assert tail[i] == list[i + 1] && tail[j] == list[j + 1];
        }
      }
      SortDistinct(tail);
      var sorted := SortByWaste(tail);
      forall y | y in sorted ensures y.demand != list[0].demand {
        assert y in multiset(sorted);
        var k :| 0 <= k < |tail| && tail[k] == y;
        assert list[k + 1] == y;
      }
      InsertDistinct(list[0], sorted);
    }
  }

  /** A scenario whose demand is already on the list stays a duplicate as the list grows. */
  lemma DuplicatedGrows(x: Scenario, list: seq<Scenario>, o: Option<Scenario>)
    requires Duplicated(x, list)
    ensures Duplicated(x, AddIfNew(list, o))
  {
    var i :| 0 <= i < |list| && list[i].demand == x.demand;
    assert AddIfNew(list, o)[i] == list[i];
  }

  /** After the preference round, the demand of every preference scenario it tried is on the list. */
  lemma {:induction false} PreferenceCovered(list: seq<Scenario>, prefs: seq<int>, p: int, pieces: seq<int>,
                                             catalog: seq<int>, kerf: int, costs: map<int, real>)
    requires p in prefs && Candidate(Preference(p), pieces, catalog, kerf, costs).Some?
    ensures Duplicated(Candidate(Preference(p), pieces, catalog, kerf, costs).value,
                       WithPreferences(list, prefs, pieces, catalog, kerf, costs))
  {
    var n := |prefs| - 1;
    var before := WithPreferences(list, prefs[..n], pieces, catalog, kerf, costs);
    var o := Candidate(Preference(prefs[n]), pieces, catalog, kerf, costs);
    var x := Candidate(Preference(p), pieces, catalog, kerf, costs).value;
    if p == prefs[n] {
      if !Duplicated(x, before) {
        assert (before + [x])[|before|] == x;
      }
    } else {
      InFront(prefs, p);
      PreferenceCovered(list, prefs[..n], p, pieces, catalog, kerf, costs);
      DuplicatedGrows(x, before, o);
    }
  }

  /** With no catalog lengths, the greedy strategy succeeds only when no piece is requested. */
  lemma EmptyCatalog(pieces: seq<int>, catalog: seq<int>, kerf: int, costs: map<int, real>)
    requires catalog == [] && Evaluate(Greedy, pieces, catalog, kerf, costs).Ok?
    ensures pieces == []
  {
    EvaluateSound(Greedy, pieces, catalog, kerf, costs);
    var bars := Evaluate(Greedy, pieces, catalog, kerf, costs).value.bars;
    FirstSound(bars, catalog, kerf);
    assert bars == [];
    assert |multiset(pieces)| == 0;
  }

  /** The first bar of a plan of sound bars has a catalog length. */
  lemma FirstSound(bars: seq<PlanBar>, catalog: seq<int>, kerf: int)
    requires forall k :: 0 <= k < |bars| ==> Sound(bars[k], catalog, kerf)
    ensures bars != [] ==> bars[0].length in catalog
  {
    if bars != [] {
      assert Sound(bars[0], catalog, kerf);
    }
  }

  /**
   * Lines 847-850: the min-bars scenario never joins the list, since the
   * preference round already tried the longest catalog length.
   */
  lemma MinBarsNeverNew(greedy: Scenario, pieces: seq<int>, catalog: seq<int>, kerf: int, costs: map<int, real>)
    requires Evaluate(Greedy, pieces, catalog, kerf, costs) == Ok(greedy)
    ensures var withPrefs := WithPreferences([greedy], SortDesc(catalog), pieces, catalog, kerf, costs);
      AddIfNew(withPrefs, Candidate(MinBars, pieces, catalog, kerf, costs)) == withPrefs
  {
    var withPrefs := WithPreferences([greedy], SortDesc(catalog), pieces, catalog, kerf, costs);
    var o := Candidate(MinBars, pieces, catalog, kerf, costs);
    if o.Some? {
      if catalog == [] {
        EmptyCatalog(pieces, catalog, kerf, costs);
        RunDone(MinBars, pieces, catalog, kerf, [], {});
        RunDone(Greedy, pieces, catalog, kerf, [], {});
        WithPreferencesPrefix([greedy], SortDesc(catalog), pieces, catalog, kerf, costs);
        assert withPrefs[0] == withPrefs[..1][0] == greedy;
        assert o.value == greedy;
      } else {
        MinBarsIsPreferenceForLongest(pieces, catalog, kerf, costs);
        assert Max(catalog) in SortDesc(catalog) by {
          assert Max(catalog) in multiset(SortDesc(catalog));
        }
        PreferenceCovered([greedy], SortDesc(catalog), Max(catalog), pieces, catalog, kerf, costs);
      }
    }
  }

  /** The list before sorting: the greedy scenario first, at most two more than the catalog lengths. */
  lemma KeptShape(greedy: Scenario, pieces: seq<int>, catalog: seq<int>, kerf: int, costs: map<int, real>)
    requires Evaluate(Greedy, pieces, catalog, kerf, costs) == Ok(greedy)
    ensures 1 <= |Kept(greedy, pieces, catalog, kerf, costs)| <= 2 + |catalog|
    ensures Kept(greedy, pieces, catalog, kerf, costs)[0] == greedy
  {
    var prefs := SortDesc(catalog);
    assert |prefs| == |catalog| by {
      assert |multiset(prefs)| == |multiset(catalog)|;
    }
    WithPreferencesPrefix([greedy], prefs, pieces, catalog, kerf, costs);
    MinBarsNeverNew(greedy, pieces, catalog, kerf, costs);
    var withPrefs := WithPreferences([greedy], prefs, pieces, catalog, kerf, costs);
    AddIfNewShape(greedy, withPrefs, Candidate(LongOffcuts, pieces, catalog, kerf, costs), |catalog|);
  }

  /** Adding at most one scenario to a list that starts with g keeps g first and grows it by at most one. */
  lemma AddIfNewShape(g: Scenario, list: seq<Scenario>, o: Option<Scenario>, n: nat)
    requires 1 <= |list| <= 1 + n && list[..1] == [g]
    ensures var r := AddIfNew(list, o); 1 <= |r| <= 2 + n && r[0] == g
  {
    assert list[0] == list[..1][0];
  }

  /** The list before sorting asks for each bar demand at most once. */
  lemma KeptDistinct(greedy: Scenario, pieces: seq<int>, catalog: seq<int>, kerf: int, costs: map<int, real>)
    ensures DistinctDemands(Kept(greedy, pieces, catalog, kerf, costs))
  {
    WithPreferencesDistinct([greedy], SortDesc(catalog), pieces, catalog, kerf, costs);
    var withPrefs := WithPreferences([greedy], SortDesc(catalog), pieces, catalog, kerf, costs);
    AddIfNewDistinct(withPrefs, Candidate(MinBars, pieces, catalog, kerf, costs));
    var withMinBars := AddIfNew(withPrefs, Candidate(MinBars, pieces, catalog, kerf, costs));
    AddIfNewDistinct(withMinBars, Candidate(LongOffcuts, pieces, catalog, kerf, costs));
  }

  /** Every scenario of the list before sorting is one that a strategy reports. */
  lemma KeptProduced(greedy: Scenario, pieces: seq<int>, catalog: seq<int>, kerf: int, costs: map<int, real>)
    requires Evaluate(Greedy, pieces, catalog, kerf, costs) == Ok(greedy)
    ensures AllProduced(Kept(greedy, pieces, catalog, kerf, costs), pieces, catalog, kerf, costs)
  {
    SortedCatalog(catalog);
    assert Produced(greedy, pieces, catalog, kerf, costs) by {
      assert Runnable(Greedy, catalog);
    }
    WithPreferencesProduced([greedy], SortDesc(catalog), pieces, catalog, kerf, costs);
    var withPrefs := WithPreferences([greedy], SortDesc(catalog), pieces, catalog, kerf, costs);
    AddIfNewProduced(withPrefs, MinBars, pieces, catalog, kerf, costs);
    var withMinBars := AddIfNew(withPrefs, Candidate(MinBars, pieces, catalog, kerf, costs));
    AddIfNewProduced(withMinBars, LongOffcuts, pieces, catalog, kerf, costs);
  }

  /** The kept scenarios, once sorted: the greedy scenario among them, by waste, distinct and produced. */
  lemma SortedKeptFacts(greedy: Scenario, pieces: seq<int>, catalog: seq<int>, kerf: int, costs: map<int, real>)
    requires Evaluate(Greedy, pieces, catalog, kerf, costs) == Ok(greedy)
    ensures var list := SortByWaste(Kept(greedy, pieces, catalog, kerf, costs));
      greedy in list && ByWaste(list) && DistinctDemands(list) && 1 <= |list| <= 2 + |catalog| &&
      AllProduced(list, pieces, catalog, kerf, costs)
  {
    KeptShape(greedy, pieces, catalog, kerf, costs);
    KeptDistinct(greedy, pieces, catalog, kerf, costs);
    KeptProduced(greedy, pieces, catalog, kerf, costs);
    SortedFacts(Kept(greedy, pieces, catalog, kerf, costs), pieces, catalog, kerf, costs);
  }

  /** Sorting by waste keeps the scenarios, their distinct demands and what produced them. */
  lemma SortedFacts(kept: seq<Scenario>, pieces: seq<int>, catalog: seq<int>, kerf: int, costs: map<int, real>)
    requires kept != [] && DistinctDemands(kept) && AllProduced(kept, pieces, catalog, kerf, costs)
    ensures var list := SortByWaste(kept);
      kept[0] in list && ByWaste(list) && DistinctDemands(list) && |list| == |kept| &&
      AllProduced(list, pieces, catalog, kerf, costs)
  {
    var list := SortByWaste(kept);
    SortDistinct(kept);
    assert kept[0] in multiset(list) by {
      assert kept[0] in multiset(kept);
    }
    forall i | 0 <= i < |list| ensures Produced(list[i], pieces, catalog, kerf, costs) {
      assert list[i] in multiset(kept);
      var k :| 0 <= k < |kept| && kept[k] == list[i];
    }
  }

  /**
   * Lines 835-861: the generator fails exactly when the greedy strategy does,
   * on a requested piece longer than every catalog length; otherwise its list
   * holds the greedy scenario, is sorted by waste, asks for each bar demand at
   * most once, has at most two scenarios more than the catalog has lengths,
   * and each of its scenarios is one that a strategy reports.
   */
  lemma CollectFacts(pieces: seq<int>, catalog: seq<int>, kerf: int, costs: map<int, real>)
    ensures Collect(pieces, catalog, kerf, costs).Err? <==> Evaluate(Greedy, pieces, catalog, kerf, costs).Err?
    ensures Collect(pieces, catalog, kerf, costs).Err? ==>
      Collect(pieces, catalog, kerf, costs).error in pieces &&
      forall t :: 0 <= t < |catalog| ==> catalog[t] < Collect(pieces, catalog, kerf, costs).error
    ensures Collect(pieces, catalog, kerf, costs).Ok? ==>
      var list := Collect(pieces, catalog, kerf, costs).value;
      Evaluate(Greedy, pieces, catalog, kerf, costs).value in list &&
      ByWaste(list) && DistinctDemands(list) && 1 <= |list| <= 2 + |catalog| &&
      AllProduced(list, pieces, catalog, kerf, costs)
  {
    match Evaluate(Greedy, pieces, catalog, kerf, costs)
    case Err(_) =>
      EvaluateSound(Greedy, pieces, catalog, kerf, costs);
    case Ok(greedy) =>
      SortedKeptFacts(greedy, pieces, catalog, kerf, costs);
  }

  /** Every scenario the generator returns cuts each requested piece exactly once from sound catalog bars. */
  lemma CollectComplete(pieces: seq<int>, catalog: seq<int>, kerf: int, costs: map<int, real>, i: nat)
    requires Collect(pieces, catalog, kerf, costs).Ok? && i < |Collect(pieces, catalog, kerf, costs).value|
    ensures var sc := Collect(pieces, catalog, kerf, costs).value[i];
      Complete(pieces, catalog, kerf, sc.bars) && sc == ScenarioOf(sc.bars, catalog, costs)
  {
    CollectFacts(pieces, catalog, kerf, costs);
    var sc := Collect(pieces, catalog, kerf, costs).value[i];
    var s :| Runnable(s, catalog) && Evaluate(s, pieces, catalog, kerf, costs) == Ok(sc);
    EvaluateSound(s, pieces, catalog, kerf, costs);
  }

  /**
   * Lines 835-837 with 905-907: when no piece with its kerf is negative, the
   * generator fails exactly when some requested piece is longer than every
   * catalog length.
   */
  lemma CollectFails(pieces: seq<int>, catalog: seq<int>, kerf: int, costs: map<int, real>)
    requires forall t :: 0 <= t < |pieces| ==> pieces[t] + kerf >= 0
    ensures Collect(pieces, catalog, kerf, costs).Err? <==>
      exists j :: 0 <= j < |pieces| && forall t :: 0 <= t < |catalog| ==> catalog[t] < pieces[j]
  {
    CollectFacts(pieces, catalog, kerf, costs);
    FailsExactlyWhenTooLong(Greedy, pieces, catalog, kerf, costs);
  }

  /**
   * Lines 829-834 with the strategies: every scenario the generator returns
   * cuts each length exactly as many times as the (quantity, length) list
   * requests it, every bar bought from the catalog and its remaining space
   * being its length less the pieces and one kerf per piece.
   */
  lemma GenerateComplete(demand: seq<(int, int)>, catalog: seq<int>, kerf: int, costs: map<int, real>, i: nat)
    requires Generate(demand, catalog, kerf, costs).Ok? && i < |Generate(demand, catalog, kerf, costs).value|
    ensures var sc := Generate(demand, catalog, kerf, costs).value[i];
      (forall x :: Cut(sc.bars)[x] == Requested(demand, x)) &&
      forall k :: 0 <= k < |sc.bars| ==> Sound(sc.bars[k], catalog, kerf)
  {
    var pieces := SortDesc(Expand(demand));
    CollectComplete(pieces, catalog, kerf, costs, i);
    forall x {
      ExpandCount(demand, x);
    }
  }
}
