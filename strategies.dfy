/**
 * The four catalog strategies of lines 870-1145. Each one takes the pieces
 * longest first and, while some piece is not on a bar, places the first such
 * piece: on an open bar the strategy picks, or else on a new catalog bar
 * filled at once by a first-fit pass over the remaining pieces. `Run` is that
 * loop as a function; the four methods are the loops themselves.
 */
module Strategies {
  import opened Wrappers
  import opened Seqs
  import opened Cutting
  import opened Plans
  import opened Scenarios
  import opened Choices

  /** How a strategy ends: with the bars of a plan, or on a piece no catalog length fits. */
  datatype Outcome = Done(bars: seq<PlanBar>) | Stuck(piece: int)

  /**
   * The strategy's loop from a plan under construction: `bars` bought so far,
   * `used` the positions of the pieces already on them.
   */
  function Run(s: Strategy, pieces: seq<int>, catalog: seq<int>, kerf: int, bars: seq<PlanBar>, used: set<nat>): Outcome
    requires forall j :: j in used ==> j < |pieces|
    decreases |pieces| - |used|
  {
    SubsetCard(used, |pieces|);
    if |used| == |pieces| then Done(bars)
    else
      var first := FirstUnused(|pieces|, used, 0);
      var piece := pieces[first];
      match OpenChoice(s, bars, piece, kerf)
      case Some(k) =>
        GrowCard(used, {first}, first);
        SubsetCard(used + {first}, |pieces|);
        Run(s, pieces, catalog, kerf, Put(bars, k, piece, kerf), used + {first})
      case None =>
        match NewChoice(s, pieces, used, first, catalog, kerf)
        case None => Stuck(piece)
        case Some(o) =>
          var used' := used + {first} + Members(o.taken);
          MembersBelow(used, first, o.taken, |pieces|);
          GrowCard(used, {first} + Members(o.taken), first);
          assert used' == used + ({first} + Members(o.taken));
          SubsetCard(used', |pieces|);
          Run(s, pieces, catalog, kerf, bars + [PlanBar(o.length, [piece] + At(pieces, o.taken), o.remaining)], used')
  }

  /** What a strategy reports: its scenario, or the piece no catalog length fits. */
  function Evaluate(s: Strategy, pieces: seq<int>, catalog: seq<int>, kerf: int, costs: map<int, real>): Result<Scenario, int>
  {
    match Run(s, pieces, catalog, kerf, [], {})
    case Done(bars) => Ok(ScenarioOf(bars, catalog, costs))
    case Stuck(piece) => Err(piece)
  }

  /** A run that has placed every piece is done. */
  lemma RunDone(s: Strategy, pieces: seq<int>, catalog: seq<int>, kerf: int, bars: seq<PlanBar>, used: set<nat>)
    requires forall j :: j in used ==> j < |pieces|
    requires |used| == |pieces|
    ensures Run(s, pieces, catalog, kerf, bars, used) == Done(bars)
  {
  }

  /** A run whose first unplaced piece fits an open bar puts it there and goes on. */
  lemma RunOpen(s: Strategy, pieces: seq<int>, catalog: seq<int>, kerf: int, bars: seq<PlanBar>, used: set<nat>,
                first: nat, k: nat)
    requires forall j :: j in used ==> j < |pieces|
    requires |used| < |pieces| && exists j: nat :: j < |pieces| && j !in used
    requires first == FirstUnused(|pieces|, used, 0)
    requires OpenChoice(s, bars, pieces[first], kerf) == Some(k)
    requires forall j :: j in used + {first} ==> j < |pieces|
    ensures Run(s, pieces, catalog, kerf, bars, used) ==
      Run(s, pieces, catalog, kerf, Put(bars, k, pieces[first], kerf), used + {first})
  {
  }

  /** A run whose first unplaced piece fits no open bar and no catalog length stops on it. */
  lemma RunStuck(s: Strategy, pieces: seq<int>, catalog: seq<int>, kerf: int, bars: seq<PlanBar>, used: set<nat>,
                 first: nat)
    requires forall j :: j in used ==> j < |pieces|
    requires |used| < |pieces| && exists j: nat :: j < |pieces| && j !in used
    requires first == FirstUnused(|pieces|, used, 0)
    requires OpenChoice(s, bars, pieces[first], kerf).None?
    requires NewChoice(s, pieces, used, first, catalog, kerf).None?
    ensures Run(s, pieces, catalog, kerf, bars, used) == Stuck(pieces[first])
  {
  }

  /** A run whose first unplaced piece fits no open bar buys the strategy's new bar and goes on. */
  lemma RunNew(s: Strategy, pieces: seq<int>, catalog: seq<int>, kerf: int, bars: seq<PlanBar>, used: set<nat>,
               first: nat, o: Opening)
    requires forall j :: j in used ==> j < |pieces|
    requires |used| < |pieces| && exists j: nat :: j < |pieces| && j !in used
    requires first == FirstUnused(|pieces|, used, 0)
    requires OpenChoice(s, bars, pieces[first], kerf).None?
    requires NewChoice(s, pieces, used, first, catalog, kerf) == Some(o)
    requires forall j :: j in used + {first} + Members(o.taken) ==> j < |pieces|
    ensures Run(s, pieces, catalog, kerf, bars, used) ==
      Run(s, pieces, catalog, kerf, bars + [PlanBar(o.length, [pieces[first]] + At(pieces, o.taken), o.remaining)],
          used + {first} + Members(o.taken))
  {
  }

  /** Putting the first unplaced piece on the chosen open bar keeps the plan sound and places one more piece. */
  lemma OpenStep(s: Strategy, pieces: seq<int>, catalog: seq<int>, kerf: int, bars: seq<PlanBar>, used: set<nat>,
                 first: nat, k: nat)
    requires forall j :: j in used ==> j < |pieces|
    requires Partial(pieces, catalog, kerf, bars, used)
    requires |used| < |pieces| && exists j: nat :: j < |pieces| && j !in used
    requires first == FirstUnused(|pieces|, used, 0)
    requires OpenChoice(s, bars, pieces[first], kerf) == Some(k)
    ensures forall j :: j in used + {first} ==> j < |pieces|
    ensures |used + {first}| > |used|
    ensures Partial(pieces, catalog, kerf, Put(bars, k, pieces[first], kerf), used + {first})
    ensures Run(s, pieces, catalog, kerf, bars, used) ==
      Run(s, pieces, catalog, kerf, Put(bars, k, pieces[first], kerf), used + {first})
  {
    PutKeeps(pieces, catalog, kerf, bars, used, k, first);
    GrowCard(used, {first}, first);
    RunOpen(s, pieces, catalog, kerf, bars, used, first, k);
  }

  /** Opening a bar filled by the pass for an unplaced piece keeps the plan sound and places more pieces. */
  lemma OpenBar(pieces: seq<int>, catalog: seq<int>, kerf: int, bars: seq<PlanBar>, used: set<nat>,
                first: nat, length: int, limit: Option<nat>, taken: seq<nat>, remaining: int)
                returns (bars': seq<PlanBar>, used': set<nat>)
    requires Partial(pieces, catalog, kerf, bars, used)
    requires first < |pieces| && first !in used && length in catalog && pieces[first] <= length
    requires taken == Pass(pieces, used, first, limit, kerf, length)
    requires remaining == Space(pieces, used, first, limit, kerf, length)
    ensures used' == used + {first} + Members(taken)
    ensures bars' == bars + [PlanBar(length, [pieces[first]] + At(pieces, taken), remaining)]
    ensures forall j :: j in used' ==> j < |pieces|
    ensures |used'| > |used|
    ensures Partial(pieces, catalog, kerf, bars', used')
  {
    OpenKeeps(pieces, catalog, kerf, bars, used, first, length, limit, taken);
    used' := used + {first} + Members(taken);
    MembersBelow(used, first, taken, |pieces|);
    GrowCard(used, {first} + Members(taken), first);
    assert used' == used + ({first} + Members(taken));
    bars' := bars + [Opened(pieces, first, length, taken, kerf)];
  }

  /** Buying the strategy's new bar for the first unplaced piece keeps the plan sound and places more pieces. */
  lemma NewStep(s: Strategy, pieces: seq<int>, catalog: seq<int>, kerf: int, bars: seq<PlanBar>, used: set<nat>,
                first: nat, o: Opening) returns (bars': seq<PlanBar>, used': set<nat>)
    requires Partial(pieces, catalog, kerf, bars, used)
    requires s.Preference? ==> s.preferred in catalog
    requires first < |pieces| && first !in used
    requires NewChoice(s, pieces, used, first, catalog, kerf) == Some(o)
    ensures used' == used + {first} + Members(o.taken)
    ensures bars' == bars + [PlanBar(o.length, [pieces[first]] + At(pieces, o.taken), o.remaining)]
    ensures forall j :: j in used' ==> j < |pieces|
    ensures |used'| > |used|
    ensures Partial(pieces, catalog, kerf, bars', used')
  {
    NewChoiceSome(s, pieces, used, first, catalog, kerf);
    bars', used' := OpenBar(pieces, catalog, kerf, bars, used, first, o.length, Limit(s), o.taken, o.remaining);
  }

  /**
   * A strategy run from a sound plan under construction either cuts every
   * piece from sound catalog bars, or stops on a requested piece that is longer
   * than every catalog length (lines 905-907, 985-987, 1039-1041 and
   * 1103-1105).
   */
  lemma {:induction false} RunSound(s: Strategy, pieces: seq<int>, catalog: seq<int>, kerf: int,
                                    bars: seq<PlanBar>, used: set<nat>) returns (out: Outcome)
    requires forall j :: j in used ==> j < |pieces|
    requires Partial(pieces, catalog, kerf, bars, used)
    requires s.Preference? ==> s.preferred in catalog
    ensures out == Run(s, pieces, catalog, kerf, bars, used)
    ensures out.Done? ==> Complete(pieces, catalog, kerf, out.bars)
    ensures out.Stuck? ==> out.piece in pieces && forall t :: 0 <= t < |catalog| ==> catalog[t] < out.piece
    decreases |pieces| - |used|
  {
    SubsetCard(used, |pieces|);
    if |used| == |pieces| {
      RunDone(s, pieces, catalog, kerf, bars, used);
      out := Done(bars);
      PickedBelowAll(pieces, used, |pieces|);
      assert pieces[..|pieces|] == pieces;
    } else {
      var first := FirstUnused(|pieces|, used, 0);
      match OpenChoice(s, bars, pieces[first], kerf)
      case Some(k) =>
        OpenStep(s, pieces, catalog, kerf, bars, used, first, k);
        SubsetCard(used + {first}, |pieces|);
        out := RunSound(s, pieces, catalog, kerf, Put(bars, k, pieces[first], kerf), used + {first});
      case None =>
        match NewChoice(s, pieces, used, first, catalog, kerf)
        case None =>
          NewChoiceNone(s, pieces, used, first, catalog, kerf);
          RunStuck(s, pieces, catalog, kerf, bars, used, first);
          out := Stuck(pieces[first]);
        case Some(o) =>
          var bars', used' := NewStep(s, pieces, catalog, kerf, bars, used, first, o);
          RunNew(s, pieces, catalog, kerf, bars, used, first, o);
          SubsetCard(used', |pieces|);
          out := RunSound(s, pieces, catalog, kerf, bars', used');
    }
  }

  // ---------------------------------------------------------------------------
  // The loops
  // ---------------------------------------------------------------------------

  /**
   * Lines 917-941: fill a trial bar of each given length with the pass capped
   * at ten extra pieces, and keep the first trial that leaves strictly least
   * room.
   */
  method LeastSpaceTrial(pieces: seq<int>, used: set<nat>, first: nat, kerf: int, lengths: seq<int>)
    returns (k: nat, taken: seq<nat>, space: int)
    requires first < |pieces| && lengths != []
    ensures FirstLeast(SpaceKeys(pieces, used, first, kerf, lengths)) == Some(k)
    ensures k < |lengths|
    ensures taken == Pass(pieces, used, first, Some(10), kerf, lengths[k])
    ensures space == Space(pieces, used, first, Some(10), kerf, lengths[k])
  {
    ghost var keys := SpaceKeys(pieces, used, first, kerf, lengths);
    var best: Option<nat> := None;
    taken, space := [], 0;
    for t := 0 to |lengths|
      invariant best == FirstLeast(keys[..t])
      invariant best.Some? ==> best.value < t
      invariant best.Some? ==> taken == Pass(pieces, used, first, Some(10), kerf, lengths[best.value])
      invariant best.Some? ==> space == Space(pieces, used, first, Some(10), kerf, lengths[best.value])
    {
      var taken', space' := TrialBar(pieces, used, first, Some(10), kerf, lengths[t]);
      assert keys[t] == Some((space', 0));
      KeyStep(keys, t, best, space, space');
      if best.None? || space' < space {
        best, taken, space := Some(t), taken', space';
      }
    }
    assert keys[..|lengths|] == keys;
    assert keys[0].Some?;
    k := best.value;
  }

  /** Lines 918-935: a bar of the given length opened with the piece at `first`, filled by the pass. */
  method TrialBar(pieces: seq<int>, used: set<nat>, first: nat, limit: Option<nat>, kerf: int, length: int)
    returns (taken: seq<nat>, space: int)
    requires first < |pieces|
    ensures taken == Pass(pieces, used, first, limit, kerf, length)
    ensures space == Space(pieces, used, first, limit, kerf, length)
  {
    taken, space := FillBar(pieces, used, first, limit, kerf, length - (pieces[first] + kerf));
  }

  /** Lines 903-934: the greedy strategy tries the (at most three) shortest compatible lengths. */
  method GreedyNewBar(pieces: seq<int>, used: set<nat>, first: nat, catalog: seq<int>, kerf: int)
    returns (r: Option<Opening>)
    requires first < |pieces|
    ensures r == GreedyOpening(pieces, used, first, catalog, kerf)
  {
    var compat := Compatible(catalog, pieces[first]);
    if compat == [] {
      return None;
    }
    var tried := Tried(compat);
    var k, taken, space := LeastSpaceTrial(pieces, used, first, kerf, tried);
    r := Some(Opening(tried[k], taken, space));
  }

  /**
   * Lines 1107-1135: fill a trial bar of each given length with the unlimited
   * pass, and keep the first trial of strictly highest score.
   */
  method HighestScoreTrial(pieces: seq<int>, used: set<nat>, first: nat, kerf: int, lengths: seq<int>)
    returns (k: nat, taken: seq<nat>)
    requires first < |pieces| && lengths != []
    ensures FirstLeast(ScoreKeys(pieces, used, first, kerf, lengths)) == Some(k)
    ensures k < |lengths|
    ensures taken == Pass(pieces, used, first, None, kerf, lengths[k])
  {
    ghost var keys := ScoreKeys(pieces, used, first, kerf, lengths);
    var best: Option<nat> := None;
    var bestKey := 0;  // the negated best score, so that a higher score is a lesser key
    taken := [];
    for t := 0 to |lengths|
      invariant best == FirstLeast(keys[..t])
      invariant best.Some? ==> best.value < t
      invariant best.Some? ==> taken == Pass(pieces, used, first, None, kerf, lengths[best.value])
      invariant best.Some? ==> keys[best.value] == Some((bestKey, 0))
    {
      var taken', space := TrialBar(pieces, used, first, None, kerf, lengths[t]);
      var key := -Score(space);
      assert keys[t] == Some((key, 0));
      KeyStep(keys, t, best, bestKey, key);
      if best.None? || key < bestKey {
        best, taken, bestKey := Some(t), taken', key;
      }
    }
    assert keys[..|lengths|] == keys;
    assert keys[0].Some?;
    k := best.value;
  }

  /**
   * Lines 1101-1143: the long-offcuts strategy tries every compatible length,
   * shortest first; the bar's remaining room is recomputed from its length and
   * its cuts.
   */
  method LongOffcutsNewBar(pieces: seq<int>, used: set<nat>, first: nat, catalog: seq<int>, kerf: int)
    returns (r: Option<Opening>)
    requires first < |pieces|
    ensures r == LongOffcutsOpening(pieces, used, first, catalog, kerf)
  {
    var compat := Compatible(catalog, pieces[first]);
    if compat == [] {
      return None;
    }
    var k, taken := HighestScoreTrial(pieces, used, first, kerf, compat);
    var length := compat[k];
    var cuts := [pieces[first]] + At(pieces, taken);
    r := Some(Opening(length, taken, length - Sum(cuts) - |cuts| * kerf));
    LongOffcutsOpeningIs(pieces, used, first, catalog, kerf, k);
  }

  /** The long-offcuts opening is the length at the first highest score, its unlimited pass and what that leaves. */
  lemma LongOffcutsOpeningIs(pieces: seq<int>, used: set<nat>, first: nat, catalog: seq<int>, kerf: int, k: nat)
    requires first < |pieces|
    requires FirstLeast(ScoreKeys(pieces, used, first, kerf, Compatible(catalog, pieces[first]))) == Some(k)
    ensures var compat := Compatible(catalog, pieces[first]);
      var taken := Pass(pieces, used, first, None, kerf, compat[k]);
      var cuts := [pieces[first]] + At(pieces, taken);
      LongOffcutsOpening(pieces, used, first, catalog, kerf) ==
        Some(Opening(compat[k], taken, compat[k] - Sum(cuts) - |cuts| * kerf))
  {
  }

  /** The open bar the strategy puts the piece on, if any (lines 885-894, 964-976, 1025-1032, 1093-1108). */
  method ChooseOpen(s: Strategy, bars: seq<PlanBar>, piece: int, kerf: int) returns (r: Option<nat>)
    ensures r == OpenChoice(s, bars, piece, kerf)
  {
    if s.Greedy? {
      r := TightestOpenBar(bars, piece, kerf);
      TightestIsFirstTightest(bars, piece, kerf);
    } else {
      r := FirstLeast(OpenKeys(s, bars, piece, kerf));
    }
  }

  /** The new bar the strategy buys for the piece, if any catalog length is long enough. */
  method ChooseNew(s: Strategy, pieces: seq<int>, used: set<nat>, first: nat, catalog: seq<int>, kerf: int)
    returns (r: Option<Opening>)
    requires first < |pieces|
    ensures r == NewChoice(s, pieces, used, first, catalog, kerf)
  {
    match s
    case Greedy =>
      r := GreedyNewBar(pieces, used, first, catalog, kerf);
    case LongOffcuts =>
      r := LongOffcutsNewBar(pieces, used, first, catalog, kerf);
    case Preference(preferred) =>
      r := PreferenceNewBar(pieces, used, first, catalog, preferred, kerf);
    case MinBars =>
      r := MinBarsNewBar(pieces, used, first, catalog, kerf);
  }

  /** Lines 986-1004: the preference strategy buys the first length of its order that fits, and fills it. */
  method PreferenceNewBar(pieces: seq<int>, used: set<nat>, first: nat, catalog: seq<int>, preferred: int, kerf: int)
    returns (r: Option<Opening>)
    requires first < |pieces|
    ensures r == PreferenceOpening(pieces, used, first, catalog, preferred, kerf)
  {
    var piece := pieces[first];
    match FirstAtLeast(PreferenceOrder(catalog, preferred), piece) {
      case None =>
        r := None;
      case Some(length) =>
        var taken, room := TrialBar(pieces, used, first, None, kerf, length);
        r := Some(Opening(length, taken, room));
    }
  }

  /** Lines 1037-1058: the min-bars strategy buys the longest catalog length that fits, and fills it. */
  method MinBarsNewBar(pieces: seq<int>, used: set<nat>, first: nat, catalog: seq<int>, kerf: int)
    returns (r: Option<Opening>)
    requires first < |pieces|
    ensures r == MinBarsOpening(pieces, used, first, catalog, kerf)
  {
    var piece := pieces[first];
    match FirstAtLeast(SortDesc(catalog), piece) {
      case None =>
        r := None;
      case Some(length) =>
        var taken, room := TrialBar(pieces, used, first, None, kerf, length);
        r := Some(Opening(length, taken, room));
    }
  }

  /**
   * The strategies' main loop (lines 877-949, 961-1008, 1019-1062,
   * 1073-1143): while a piece is not on a bar, place the first such piece on
   * the chosen open bar, or else buy the chosen new bar and fill it.
   */
  method RunStrategy(s: Strategy, pieces: seq<int>, catalog: seq<int>, kerf: int) returns (out: Outcome)
    ensures out == Run(s, pieces, catalog, kerf, [], {})
  {
    var bars: seq<PlanBar> := [];
    var used: set<nat> := {};
    while |used| < |pieces|
      invariant forall j :: j in used ==> j < |pieces|
      invariant Run(s, pieces, catalog, kerf, bars, used) == Run(s, pieces, catalog, kerf, [], {})
      decreases |pieces| - |used|
    {
      var next, piece := Advance(s, pieces, catalog, kerf, bars, used);
      if next.None? {
        return Stuck(piece);
      }
      bars, used := next.value.0, next.value.1;
    }
    SubsetCard(used, |pieces|);
    RunDone(s, pieces, catalog, kerf, bars, used);
    out := Done(bars);
  }

  /**
   * One pass of the main loop: the first unused piece goes on the chosen
   * open bar, or on the chosen new bar with the pieces its pass takes; or
   * no catalog length fits it.
   */
  method Advance(s: Strategy, pieces: seq<int>, catalog: seq<int>, kerf: int, bars: seq<PlanBar>, used: set<nat>)
    returns (next: Option<(seq<PlanBar>, set<nat>)>, piece: int)
    requires forall j :: j in used ==> j < |pieces|
    requires |used| < |pieces|
    ensures next.Some? ==> forall j :: j in next.value.1 ==> j < |pieces|
    ensures next.Some? ==> |next.value.1| > |used|
    ensures next.Some? ==> Run(s, pieces, catalog, kerf, next.value.0, next.value.1) == Run(s, pieces, catalog, kerf, bars, used)
    ensures next.None? ==> Run(s, pieces, catalog, kerf, bars, used) == Stuck(piece)
  {
    SubsetCard(used, |pieces|);
    var first := FirstUnusedIndex(|pieces|, used);
    piece := pieces[first];
    var k := ChooseOpen(s, bars, piece, kerf);
    if k.Some? {
      RunOpen(s, pieces, catalog, kerf, bars, used, first, k.value);
      GrowCard(used, {first}, first);
      next := Some((Put(bars, k.value, piece, kerf), used + {first}));
    } else {
      var o := ChooseNew(s, pieces, used, first, catalog, kerf);
      if o.None? {
        RunStuck(s, pieces, catalog, kerf, bars, used, first);
        return None, piece;
      }
      MembersBelow(used, first, o.value.taken, |pieces|);
      RunNew(s, pieces, catalog, kerf, bars, used, first, o.value);
      GrowCard(used, {first} + Members(o.value.taken), first);
      assert used + {first} + Members(o.value.taken) == used + ({first} + Members(o.value.taken));
      next := Some((bars + [PlanBar(o.value.length, [piece] + At(pieces, o.value.taken), o.value.remaining)],
                    used + {first} + Members(o.value.taken)));
    }
  }

  /** The strategies other than the greedy one report a piece no catalog length fits as `None`. */
  function Optional(r: Result<Scenario, int>): (o: Option<Scenario>)
    ensures o.Some? <==> r.Ok?
    ensures o.Some? ==> o.value == r.value
  {
    match r
    case Ok(sc) => Some(sc)
    case Err(_) => None
  }

  /**
   * A strategy's report: a finished plan cuts every requested piece exactly
   * once from sound catalog bars; a failure names a requested piece longer
   * than every catalog length.
   */
  lemma EvaluateSound(s: Strategy, pieces: seq<int>, catalog: seq<int>, kerf: int, costs: map<int, real>)
    requires s.Preference? ==> s.preferred in catalog
    ensures Evaluate(s, pieces, catalog, kerf, costs).Ok? ==>
      Complete(pieces, catalog, kerf, Evaluate(s, pieces, catalog, kerf, costs).value.bars)
    ensures Evaluate(s, pieces, catalog, kerf, costs).Err? ==>
      Evaluate(s, pieces, catalog, kerf, costs).error in pieces &&
      forall t :: 0 <= t < |catalog| ==> catalog[t] < Evaluate(s, pieces, catalog, kerf, costs).error
  {
    PickedBelowNone(pieces, |pieces|);
    var out := RunSound(s, pieces, catalog, kerf, [], {});
  }

  /** In a finished plan every requested piece fits some catalog length, when no piece with its kerf is negative. */
  lemma CompleteFits(pieces: seq<int>, catalog: seq<int>, kerf: int, bars: seq<PlanBar>, j: nat)
    requires Complete(pieces, catalog, kerf, bars) && j < |pieces|
    requires forall t :: 0 <= t < |pieces| ==> pieces[t] + kerf >= 0
    ensures exists t :: 0 <= t < |catalog| && pieces[j] <= catalog[t]
  {
    assert pieces[j] in multiset(pieces);
    var k, i := CutSource(bars, pieces[j]);
    var bar := bars[k];
    forall u | 0 <= u < |bar.pieces| ensures bar.pieces[u] + kerf >= 0 {
      CutHolds(bars, k, u);
      assert bar.pieces[u] in multiset(pieces);
    }
    SoundFits(bar, catalog, kerf, i);
    var t :| 0 <= t < |catalog| && catalog[t] == bar.length;
  }

  /**
   * Lines 905-907, 985-987, 1039-1041, 1103-1105: when no piece with its kerf
   * is negative, a strategy fails exactly when some requested piece is longer
   * than every catalog length.
   */
  lemma FailsExactlyWhenTooLong(s: Strategy, pieces: seq<int>, catalog: seq<int>, kerf: int, costs: map<int, real>)
    requires s.Preference? ==> s.preferred in catalog
    requires forall t :: 0 <= t < |pieces| ==> pieces[t] + kerf >= 0
    ensures Evaluate(s, pieces, catalog, kerf, costs).Err? <==>
      exists j :: 0 <= j < |pieces| && forall t :: 0 <= t < |catalog| ==> catalog[t] < pieces[j]
  {
    EvaluateSound(s, pieces, catalog, kerf, costs);
    var r := Evaluate(s, pieces, catalog, kerf, costs);
    if r.Ok? {
      forall j | 0 <= j < |pieces| ensures exists t :: 0 <= t < |catalog| && pieces[j] <= catalog[t] {
        CompleteFits(pieces, catalog, kerf, r.value.bars, j);
      }
    } else {
      var j :| 0 <= j < |pieces| && pieces[j] == r.error;
    }
  }

  /** Runs a strategy and turns its bars into a scenario (lines 951, 1010, 1064 and 1145, via lines 1147-1170). */
  method Conclude(s: Strategy, pieces: seq<int>, catalog: seq<int>, kerf: int, costs: map<int, real>)
    returns (r: Result<Scenario, int>)
    requires s.Preference? ==> s.preferred in catalog
    ensures r == Evaluate(s, pieces, catalog, kerf, costs)
  {
    var out := RunStrategy(s, pieces, catalog, kerf);
    match out {
      case Stuck(piece) =>
        r := Err(piece);
      case Done(bars) =>
        PickedBelowNone(pieces, |pieces|);
        var sound := RunSound(s, pieces, catalog, kerf, [], {});
        var sc := CreateScenario(bars, catalog, costs);
        r := Ok(sc);
    }
  }

  /** Lines 870-951: the greedy strategy; a piece no catalog length fits is an error. */
  method GreedyScenario(pieces: seq<int>, catalog: seq<int>, kerf: int, costs: map<int, real>)
    returns (r: Result<Scenario, int>)
    ensures r == Evaluate(Greedy, pieces, catalog, kerf, costs)
  {
    r := Conclude(Greedy, pieces, catalog, kerf, costs);
  }

  /** Lines 953-1010: the strategy that favours one catalog length. */
  method PreferenceScenario(pieces: seq<int>, catalog: seq<int>, kerf: int, preferred: int, costs: map<int, real>)
    returns (r: Option<Scenario>)
    requires preferred in catalog
    ensures r == Optional(Evaluate(Preference(preferred), pieces, catalog, kerf, costs))
  {
    var res := Conclude(Preference(preferred), pieces, catalog, kerf, costs);
    r := Optional(res);
  }

  /** Lines 1012-1064: the strategy that buys the longest bars. */
  method MinBarsScenario(pieces: seq<int>, catalog: seq<int>, kerf: int, costs: map<int, real>)
    returns (r: Option<Scenario>)
    ensures r == Optional(Evaluate(MinBars, pieces, catalog, kerf, costs))
  {
    var res := Conclude(MinBars, pieces, catalog, kerf, costs);
    r := Optional(res);
  }

  /** Lines 1066-1145: the strategy that favours reusable offcuts. */
  method LongOffcutsScenario(pieces: seq<int>, catalog: seq<int>, kerf: int, costs: map<int, real>)
    returns (r: Option<Scenario>)
    ensures r == Optional(Evaluate(LongOffcuts, pieces, catalog, kerf, costs))
  {
    var res := Conclude(LongOffcuts, pieces, catalog, kerf, costs);
    r := Optional(res);
  }

  // ---------------------------------------------------------------------------
  // The min-bars strategy is the preference strategy for the longest length
  // ---------------------------------------------------------------------------

  /** Every bar of the plan has the given length. */
  predicate AllOfLength(bars: seq<PlanBar>, length: int)
  {
    forall k :: 0 <= k < |bars| ==> bars[k].length == length
  }

  /** Among bars of one length, both strategies take the first fitting bar of least slack. */
  lemma SameOpenChoice(bars: seq<PlanBar>, piece: int, kerf: int, longest: int)
    requires AllOfLength(bars, longest)
    ensures OpenChoice(MinBars, bars, piece, kerf) == OpenChoice(Preference(longest), bars, piece, kerf)
  {
    FirstLeastSameOrder(OpenKeys(MinBars, bars, piece, kerf), OpenKeys(Preference(longest), bars, piece, kerf));
  }

  /** Both strategies buy the longest catalog length when the piece fits it, and nothing otherwise. */
  lemma SameNewChoice(pieces: seq<int>, used: set<nat>, first: nat, catalog: seq<int>, kerf: int)
    requires first < |pieces| && catalog != []
    ensures NewChoice(MinBars, pieces, used, first, catalog, kerf) ==
      NewChoice(Preference(Max(catalog)), pieces, used, first, catalog, kerf)
    ensures NewChoice(MinBars, pieces, used, first, catalog, kerf).Some? ==>
      NewChoice(MinBars, pieces, used, first, catalog, kerf).value.length == Max(catalog)
  {
    var longest := Max(catalog);
    MinBarsNewChoice(pieces, used, first, catalog, kerf);
    PreferenceNewNone(pieces, used, first, catalog, longest, kerf);
    var m := MinBarsOpening(pieces, used, first, catalog, kerf);
    var p := PreferenceOpening(pieces, used, first, catalog, longest, kerf);
    if m.Some? {
      PreferenceNewChoice(pieces, used, first, catalog, longest, kerf);
      var t :| 0 <= t < |catalog| && catalog[t] == m.value.length;
      assert m.value.length == longest;
      assert p.value.length == longest;
    }
  }

  /** Putting the piece on the open bar both strategies choose: both runs go on from the same plan. */
  lemma OpenBoth(pieces: seq<int>, catalog: seq<int>, kerf: int, bars: seq<PlanBar>, used: set<nat>, first: nat, k: nat)
    requires forall j :: j in used ==> j < |pieces|
    requires catalog != [] && AllOfLength(bars, Max(catalog))
    requires |used| < |pieces| && exists j: nat :: j < |pieces| && j !in used
    requires first == FirstUnused(|pieces|, used, 0)
    requires OpenChoice(MinBars, bars, pieces[first], kerf) == Some(k)
    ensures forall j :: j in used + {first} ==> j < |pieces|
    ensures |used + {first}| > |used|
    ensures AllOfLength(Put(bars, k, pieces[first], kerf), Max(catalog))
    ensures Run(MinBars, pieces, catalog, kerf, bars, used) ==
      Run(MinBars, pieces, catalog, kerf, Put(bars, k, pieces[first], kerf), used + {first})
    ensures Run(Preference(Max(catalog)), pieces, catalog, kerf, bars, used) ==
      Run(Preference(Max(catalog)), pieces, catalog, kerf, Put(bars, k, pieces[first], kerf), used + {first})
  {
    SameOpenChoice(bars, pieces[first], kerf, Max(catalog));
    GrowCard(used, {first}, first);
    RunOpen(MinBars, pieces, catalog, kerf, bars, used, first, k);
    RunOpen(Preference(Max(catalog)), pieces, catalog, kerf, bars, used, first, k);
  }

  /** Buying the new bar both strategies choose: both runs go on from the same plan. */
  lemma NewBoth(pieces: seq<int>, catalog: seq<int>, kerf: int, bars: seq<PlanBar>, used: set<nat>, first: nat, o: Opening)
    returns (bars': seq<PlanBar>, used': set<nat>)
    requires forall j :: j in used ==> j < |pieces|
    requires catalog != [] && AllOfLength(bars, Max(catalog))
    requires |used| < |pieces| && exists j: nat :: j < |pieces| && j !in used
    requires first == FirstUnused(|pieces|, used, 0)
    requires OpenChoice(MinBars, bars, pieces[first], kerf).None?
    requires NewChoice(MinBars, pieces, used, first, catalog, kerf) == Some(o)
    ensures forall j :: j in used' ==> j < |pieces|
    ensures |used'| > |used|
    ensures AllOfLength(bars', Max(catalog))
    ensures Run(MinBars, pieces, catalog, kerf, bars, used) == Run(MinBars, pieces, catalog, kerf, bars', used')
    ensures Run(Preference(Max(catalog)), pieces, catalog, kerf, bars, used) ==
      Run(Preference(Max(catalog)), pieces, catalog, kerf, bars', used')
  {
    SameOpenChoice(bars, pieces[first], kerf, Max(catalog));
    SameNewChoice(pieces, used, first, catalog, kerf);
    bars', used' := Bought(pieces, bars, used, first, o, Max(catalog));
    RunNew(MinBars, pieces, catalog, kerf, bars, used, first, o);
    RunNew(Preference(Max(catalog)), pieces, catalog, kerf, bars, used, first, o);
  }

  /** The plan after buying bar o for the piece at `first`: one bar more, of o's length, and more positions used. */
  lemma Bought(pieces: seq<int>, bars: seq<PlanBar>, used: set<nat>, first: nat, o: Opening, length: int)
    returns (bars': seq<PlanBar>, used': set<nat>)
    requires forall j :: j in used ==> j < |pieces|
    requires first < |pieces| && first !in used && forall t :: 0 <= t < |o.taken| ==> o.taken[t] < |pieces|
    requires AllOfLength(bars, length) && o.length == length
    ensures used' == used + {first} + Members(o.taken)
    ensures bars' == bars + [PlanBar(o.length, [pieces[first]] + At(pieces, o.taken), o.remaining)]
    ensures forall j :: j in used' ==> j < |pieces|
    ensures |used'| > |used|
    ensures AllOfLength(bars', length)
  {
    MembersBelow(used, first, o.taken, |pieces|);
    used' := used + {first} + Members(o.taken);
    GrowCard(used, {first} + Members(o.taken), first);
    assert used' == used + ({first} + Members(o.taken));
    bars' := bars + [PlanBar(o.length, [pieces[first]] + At(pieces, o.taken), o.remaining)];
  }

  /** Run from a plan of longest bars, the min-bars strategy and the preference for the longest length coincide. */
  lemma {:induction false} RunSame(pieces: seq<int>, catalog: seq<int>, kerf: int, bars: seq<PlanBar>, used: set<nat>)
    requires forall j :: j in used ==> j < |pieces|
    requires catalog != [] && AllOfLength(bars, Max(catalog))
    ensures Run(MinBars, pieces, catalog, kerf, bars, used) == Run(Preference(Max(catalog)), pieces, catalog, kerf, bars, used)
    decreases |pieces| - |used|
  {
    SubsetCard(used, |pieces|);
    if |used| == |pieces| {
      RunDone(MinBars, pieces, catalog, kerf, bars, used);
      RunDone(Preference(Max(catalog)), pieces, catalog, kerf, bars, used);
    } else {
      var first := FirstUnused(|pieces|, used, 0);
      match OpenChoice(MinBars, bars, pieces[first], kerf)
      case Some(k) =>
        OpenBoth(pieces, catalog, kerf, bars, used, first, k);
        SubsetCard(used + {first}, |pieces|);
        RunSame(pieces, catalog, kerf, Put(bars, k, pieces[first], kerf), used + {first});
      case None =>
        match NewChoice(MinBars, pieces, used, first, catalog, kerf)
        case None =>
          SameOpenChoice(bars, pieces[first], kerf, Max(catalog));
          SameNewChoice(pieces, used, first, catalog, kerf);
          RunStuck(MinBars, pieces, catalog, kerf, bars, used, first);
          RunStuck(Preference(Max(catalog)), pieces, catalog, kerf, bars, used, first);
        case Some(o) =>
          var bars', used' := NewBoth(pieces, catalog, kerf, bars, used, first, o);
          SubsetCard(used', |pieces|);
          RunSame(pieces, catalog, kerf, bars', used');
    }
  }

  /**
   * Lines 1012-1064 against 953-1010: the min-bars strategy reports exactly
   * what the preference strategy for the longest catalog length reports.
   */
  lemma MinBarsIsPreferenceForLongest(pieces: seq<int>, catalog: seq<int>, kerf: int, costs: map<int, real>)
    requires catalog != []
    ensures Evaluate(MinBars, pieces, catalog, kerf, costs) == Evaluate(Preference(Max(catalog)), pieces, catalog, kerf, costs)
  {
    RunSame(pieces, catalog, kerf, [], {});
  }
}
