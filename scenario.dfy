/**
 * A purchase scenario as the engine reports it (lines 1147-1170): how many
 * bars of each catalog length to buy, the total waste, the offcuts longest
 * first, the number of bars, the optional total cost and the bars
 * themselves; and the duplicate test of lines 863-868.
 */
module Scenarios {
  import opened Wrappers
  import opened Seqs
  import opened Plans

  /**
   * The dict built by `_crea_scenario`: fabbisogno, spreco_totale, scarti,
   * num_barre_totale, costo_totale and barre_dettaglio.
   */
  datatype Scenario = Scenario(demand: map<int, nat>, totalWaste: int, offcuts: seq<int>,
                               barCount: nat, cost: Option<real>, bars: seq<PlanBar>)

  /** How many bars of the plan have the given length. */
  function Count(bars: seq<PlanBar>, length: int): nat
  {
    if bars == [] then 0
    else Count(bars[..|bars| - 1], length) + (if bars[|bars| - 1].length == length then 1 else 0)
  }

  /** The keys of a dict built from the catalog: each length once, in order of first occurrence. */
  function Keys(catalog: seq<int>): (r: seq<int>)
    ensures Distinct(r)
    ensures forall l :: l in r <==> l in catalog
  {
    if catalog == [] then []
    else
      var init, last := catalog[..|catalog| - 1], catalog[|catalog| - 1];
      assert catalog == init + [last];
      var r0 := Keys(init);
      if last in r0 then r0 else r0 + [last]
  }

  /** The remaining space of each bar, in bar order. */
  function Remainings(bars: seq<PlanBar>): (r: seq<int>)
    ensures |r| == |bars| && forall k :: 0 <= k < |bars| ==> r[k] == bars[k].remaining
  {
    seq(|bars|, k requires 0 <= k < |bars| => bars[k].remaining)
  }

  /** `costs.get(l, 0)`. */
  function Price(costs: map<int, real>, l: int): real
  {
    if l in costs then costs[l] else 0.0
  }

  /** The cost sum over the demand dict's items, taken in the order of its keys. */
  function Cost(keys: seq<int>, demand: map<int, nat>, costs: map<int, real>): real
    requires forall t :: 0 <= t < |keys| ==> keys[t] in demand
  {
    if keys == [] then 0.0
    else Cost(keys[..|keys| - 1], demand, costs) + Price(costs, keys[|keys| - 1]) * (demand[keys[|keys| - 1]] as real)
  }

  /** The price of every bar of the plan, added up bar by bar. */
  function BarPrices(bars: seq<PlanBar>, costs: map<int, real>): real
  {
    if bars == [] then 0.0 else BarPrices(bars[..|bars| - 1], costs) + Price(costs, bars[|bars| - 1].length)
  }

  /** The demand dict: every catalog length, mapped to the number of bars of that length. */
  function DemandOf(bars: seq<PlanBar>, catalog: seq<int>): (d: map<int, nat>)
    ensures forall l :: l in d <==> l in catalog
  {
    map l | l in catalog :: Count(bars, l)
  }

  /**
   * Lines 1147-1170: what `_crea_scenario` reports for a plan. Costs are
   * reported only when a non-empty price list is given (None and an empty
   * dict behave alike).
   */
  function ScenarioOf(bars: seq<PlanBar>, catalog: seq<int>, costs: map<int, real>): Scenario
  {
    var demand := DemandOf(bars, catalog);
    Scenario(demand, Sum(Remainings(bars)), SortDesc(Remainings(bars)), |bars|,
             if |costs| == 0 then None else Some(Cost(Keys(catalog), demand, costs)), bars)
  }

  /**
   * Lines 1147-1170. The demand dict starts at zero for every catalog length
   * and the loop over the bars adds one per bar; a bar whose length is not in
   * the catalog would raise KeyError, so every bar must come from the catalog.
   */
  method CreateScenario(bars: seq<PlanBar>, catalog: seq<int>, costs: map<int, real>) returns (sc: Scenario)
    requires forall k :: 0 <= k < |bars| ==> bars[k].length in catalog
    ensures sc == ScenarioOf(bars, catalog, costs)
  {
    var demand: map<int, nat> := map l | l in catalog :: 0;
    for i := 0 to |bars|
      invariant demand == DemandOf(bars[..i], catalog)
    {
      assert bars[..i + 1][..i] == bars[..i];
      demand := demand[bars[i].length := demand[bars[i].length] + 1];
    }
    assert bars[..|bars|] == bars;
    var waste := Sum(Remainings(bars));
    var offcuts := SortDesc(Remainings(bars));
    var cost := if |costs| == 0 then None else Some(Cost(Keys(catalog), demand, costs));
    sc := Scenario(demand, waste, offcuts, |bars|, cost, bars);
  }

  /** Adding one to a key that occurs once in the key list adds its price once to the cost. */
  lemma {:induction false} CostBump(keys: seq<int>, demand: map<int, nat>, costs: map<int, real>, l: int)
    requires forall t :: 0 <= t < |keys| ==> keys[t] in demand
    requires Distinct(keys) && l in demand
    ensures Cost(keys, demand[l := demand[l] + 1], costs)
         == Cost(keys, demand, costs) + (if l in keys then Price(costs, l) else 0.0)
  {
    if keys != [] {
      var init, last := keys[..|keys| - 1], keys[|keys| - 1];
      assert Distinct(init);
      CostBump(init, demand, costs, l);
      assert keys == init + [last];
      if last == l {
        assert l !in init by {
          forall t | 0 <= t < |init| ensures init[t] != l {
            assert keys[t] == init[t];
          }
        }
        var p, n := Price(costs, l), demand[l] as real;
        assert p * (n + 1.0) == p * n + p;
      }
    }
  }

  /** One more bar adds one to its length's count and leaves the others alone. */
  lemma DemandStep(bars: seq<PlanBar>, catalog: seq<int>, i: nat)
    requires i < |bars| && bars[i].length in catalog
    ensures DemandOf(bars[..i + 1], catalog)
         == DemandOf(bars[..i], catalog)[bars[i].length := DemandOf(bars[..i], catalog)[bars[i].length] + 1]
  {
    assert bars[..i + 1][..i] == bars[..i];
  }

  /**
   * The reported cost is the price of every bar bought: summing
   * price times quantity over the demand dict adds each bar's price once.
   */
  lemma {:induction false} CostIsBarPrices(bars: seq<PlanBar>, catalog: seq<int>, costs: map<int, real>)
    requires forall k :: 0 <= k < |bars| ==> bars[k].length in catalog
    ensures Cost(Keys(catalog), DemandOf(bars, catalog), costs) == BarPrices(bars, costs)
  {
    var keys := Keys(catalog);
    if bars == [] {
      ZeroDemandCost(keys, DemandOf(bars, catalog), costs);
    } else {
      var n := |bars| - 1;
      assert bars[..n + 1] == bars;
      CostIsBarPrices(bars[..n], catalog, costs);
      CostStep(bars, catalog, costs);
    }
  }

  /** The last bar of a plan adds its price to the cost of the bars before it. */
  lemma CostStep(bars: seq<PlanBar>, catalog: seq<int>, costs: map<int, real>)
    requires bars != [] && bars[|bars| - 1].length in catalog
    ensures var n := |bars| - 1;
      Cost(Keys(catalog), DemandOf(bars, catalog), costs)
      == Cost(Keys(catalog), DemandOf(bars[..n], catalog), costs) + Price(costs, bars[n].length)
  {
    var n := |bars| - 1;
    var keys, l, before := Keys(catalog), bars[n].length, DemandOf(bars[..n], catalog);
    assert DemandOf(bars, catalog) == before[l := before[l] + 1] by {
      DemandStep(bars, catalog, n);
      assert bars[..n + 1] == bars;
    }
    assert l in keys;
    CostBump(keys, before, costs, l);
  }

  /** With no bar bought, nothing is spent. */
  lemma {:induction false} ZeroDemandCost(keys: seq<int>, demand: map<int, nat>, costs: map<int, real>)
    requires forall t :: 0 <= t < |keys| ==> keys[t] in demand && demand[keys[t]] == 0
    ensures Cost(keys, demand, costs) == 0.0
  {
    if keys != [] {
      ZeroDemandCost(keys[..|keys| - 1], demand, costs);
    }
  }

  /** The demand counts, added over the dict's keys. */
  function DemandTotal(keys: seq<int>, demand: map<int, nat>): nat
    requires forall t :: 0 <= t < |keys| ==> keys[t] in demand
  {
    if keys == [] then 0 else DemandTotal(keys[..|keys| - 1], demand) + demand[keys[|keys| - 1]]
  }

  lemma {:induction false} DemandTotalBump(keys: seq<int>, demand: map<int, nat>, l: int)
    requires forall t :: 0 <= t < |keys| ==> keys[t] in demand
    requires Distinct(keys) && l in demand
    ensures DemandTotal(keys, demand[l := demand[l] + 1]) == DemandTotal(keys, demand) + (if l in keys then 1 else 0)
  {
    if keys != [] {
      var init, last := keys[..|keys| - 1], keys[|keys| - 1];
      assert Distinct(init);
      DemandTotalBump(init, demand, l);
      assert keys == init + [last];
      if last == l {
        assert l !in init by {
          forall t | 0 <= t < |init| ensures init[t] != l {
            assert keys[t] == init[t];
          }
        }
      }
    }
  }

  lemma {:induction false} ZeroDemandTotal(keys: seq<int>, demand: map<int, nat>)
    requires forall t :: 0 <= t < |keys| ==> keys[t] in demand && demand[keys[t]] == 0
    ensures DemandTotal(keys, demand) == 0
  {
    if keys != [] {
      ZeroDemandTotal(keys[..|keys| - 1], demand);
    }
  }

  /** The demand dict accounts for every bar of the plan: its counts add up to the number of bars. */
  lemma {:induction false} DemandCountsEveryBar(bars: seq<PlanBar>, catalog: seq<int>)
    requires forall k :: 0 <= k < |bars| ==> bars[k].length in catalog
    ensures DemandTotal(Keys(catalog), DemandOf(bars, catalog)) == |bars|
  {
    var keys := Keys(catalog);
    if bars == [] {
      ZeroDemandTotal(keys, DemandOf(bars, catalog));
    } else {
      var n := |bars| - 1;
      DemandCountsEveryBar(bars[..n], catalog);
      DemandTotalStep(bars, catalog);
    }
  }

  /** One more bar of a catalog length adds one to the bar count. */
  lemma DemandTotalStep(bars: seq<PlanBar>, catalog: seq<int>)
    requires bars != [] && bars[|bars| - 1].length in catalog
    ensures var n := |bars| - 1;
      DemandTotal(Keys(catalog), DemandOf(bars, catalog)) == DemandTotal(Keys(catalog), DemandOf(bars[..n], catalog)) + 1
  {
    var n := |bars| - 1;
    var keys, l, before := Keys(catalog), bars[n].length, DemandOf(bars[..n], catalog);
    assert DemandOf(bars, catalog) == before[l := before[l] + 1] by {
      DemandStep(bars, catalog, n);
      assert bars[..n + 1] == bars;
    }
    assert l in keys;
    DemandTotalBump(keys, before, l);
  }

  lemma {:induction false} SumPermutation(s: seq<int>, t: seq<int>)
    requires multiset(s) == multiset(t)
    ensures Sum(s) == Sum(t)
    decreases |s|
  {
    if s != [] {
      var init, last := s[..|s| - 1], s[|s| - 1];
      assert s == init + [last];
      assert last in multiset(t);
      var k :| 0 <= k < |t| && t[k] == last;
      var a, b := t[..k], t[k + 1..];
      assert t == a + [last] + b;
      var t' := a + b;
      assert multiset(init) + multiset{last} == multiset(t') + multiset{last};
      forall y ensures multiset(init)[y] == multiset(t')[y] {
        assert (multiset(init) + multiset{last})[y] == (multiset(t') + multiset{last})[y];
      }
      assert multiset(init) == multiset(t');
      SumPermutation(init, t');
      SumConcat(a + [last], b);
      SumConcat(a, [last]);
      SumConcat(a, b);
      assert Sum([last]) == last by {
        assert [last][..0] == [];
      }
    }
  }

  /**
   * The waste, offcut and bar-count fields agree: there is one offcut per
   * bar, longest first, and the offcuts add up to the total waste.
   */
  lemma ScenarioTotals(bars: seq<PlanBar>, catalog: seq<int>, costs: map<int, real>)
    requires forall k :: 0 <= k < |bars| ==> bars[k].length in catalog
    ensures var sc := ScenarioOf(bars, catalog, costs);
      Descending(sc.offcuts) && multiset(sc.offcuts) == multiset(Remainings(bars)) &&
      |sc.offcuts| == sc.barCount == |bars| &&
      Sum(sc.offcuts) == sc.totalWaste &&
      DemandTotal(Keys(catalog), sc.demand) == sc.barCount &&
      (sc.cost.Some? <==> |costs| != 0) &&
      (sc.cost.Some? ==> sc.cost.value == BarPrices(bars, costs))
  {
    var r := Remainings(bars);
    SumPermutation(SortDesc(r), r);
    assert |SortDesc(r)| == |multiset(SortDesc(r))| == |multiset(r)| == |r|;
    DemandCountsEveryBar(bars, catalog);
    CostIsBarPrices(bars, catalog, costs);
  }

  /** Lines 863-868: another scenario in the list already asks for the same bars. */
  predicate Duplicated(sc: Scenario, list: seq<Scenario>)
  {
    exists i :: 0 <= i < |list| && list[i].demand == sc.demand
  }

  /** Lines 863-868: the scan that stops at the first scenario with the same demand. */
  method IsDuplicate(sc: Scenario, list: seq<Scenario>) returns (r: bool)
    ensures r <==> exists i :: 0 <= i < |list| && list[i].demand == sc.demand
  {
    for i := 0 to |list|
      invariant forall j :: 0 <= j < i ==> list[j].demand != sc.demand
    {
      if list[i].demand == sc.demand {
        return true;
      }
    }
    return false;
  }
}
