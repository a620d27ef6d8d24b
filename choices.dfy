/**
 * How each of the four catalog strategies (lines 870-1145) decides where the
 * next piece goes: onto which open bar, or onto which newly bought catalog
 * length, filled by which first-fit pass.
 */
module Choices {
  import opened Wrappers
  import opened Seqs
  import opened Cutting
  import opened Plans

  /**
   * The strategies behind `_calcola_scenario_greedy`,
   * `_calcola_scenario_con_preferenza` (with its preferred length),
   * `_calcola_scenario_min_barre` and `_calcola_scenario_scarti_lunghi`.
   */
  datatype Strategy = Greedy | Preference(preferred: int) | MinBars | LongOffcuts

  /** An open bar's space after the piece and one more kerf (`spreco`, `scarto_dopo`). */
  function Slack(bar: PlanBar, piece: int, kerf: int): int
  {
    bar.remaining - piece - kerf
  }

  // ---------------------------------------------------------------------------
  // The greedy strategy's open-bar scan (lines 884-893)
  // ---------------------------------------------------------------------------

  /**
   * The scan from bar k on, `best` being the tightest fitting bar before k: a
   * fitting bar replaces it when its slack is strictly smaller, and the scan
   * stops at once when that new slack is exactly zero.
   */
  function TightestFrom(bars: seq<PlanBar>, piece: int, kerf: int, k: nat, best: Option<nat>): (r: Option<nat>)
    requires k <= |bars| && (best.Some? ==> best.value < k)
    ensures r.Some? ==> r.value < |bars|
    decreases |bars| - k
  {
    if k == |bars| then best
    else if piece <= bars[k].remaining && (best.None? || Slack(bars[k], piece, kerf) < Slack(bars[best.value], piece, kerf)) then
      if Slack(bars[k], piece, kerf) == 0 then Some(k) else TightestFrom(bars, piece, kerf, k + 1, Some(k))
    else TightestFrom(bars, piece, kerf, k + 1, best)
  }

  function Tightest(bars: seq<PlanBar>, piece: int, kerf: int): Option<nat>
  {
    TightestFrom(bars, piece, kerf, 0, None)
  }

  /** What the scan knows after bars 0..k-1. */
  ghost predicate TightestSoFar(bars: seq<PlanBar>, piece: int, kerf: int, k: nat, best: Option<nat>)
    requires k <= |bars|
  {
    (best.None? <==> forall j :: 0 <= j < k ==> piece > bars[j].remaining) &&
    (best.Some? ==>
      best.value < k && piece <= bars[best.value].remaining && Slack(bars[best.value], piece, kerf) != 0 &&
      (forall j :: 0 <= j < k && piece <= bars[j].remaining ==> Slack(bars[best.value], piece, kerf) <= Slack(bars[j], piece, kerf)) &&
      (forall j :: 0 <= j < best.value && piece <= bars[j].remaining ==> Slack(bars[best.value], piece, kerf) < Slack(bars[j], piece, kerf)))
  }

  /** The choice the scan makes, as a property of the bars. */
  ghost predicate TightestChoice(bars: seq<PlanBar>, piece: int, kerf: int, r: Option<nat>)
  {
    (r.None? <==> forall j :: 0 <= j < |bars| ==> piece > bars[j].remaining) &&
    (r.Some? ==>
      r.value < |bars| && piece <= bars[r.value].remaining &&
      (forall j :: 0 <= j < r.value && piece <= bars[j].remaining ==> Slack(bars[r.value], piece, kerf) < Slack(bars[j], piece, kerf)) &&
      (Slack(bars[r.value], piece, kerf) == 0 ||
       forall j :: 0 <= j < |bars| && piece <= bars[j].remaining ==> Slack(bars[r.value], piece, kerf) <= Slack(bars[j], piece, kerf)))
  }

  lemma {:induction false} TightestFromChoice(bars: seq<PlanBar>, piece: int, kerf: int, k: nat, best: Option<nat>)
    requires k <= |bars| && (best.Some? ==> best.value < k)
    requires TightestSoFar(bars, piece, kerf, k, best)
    ensures TightestChoice(bars, piece, kerf, TightestFrom(bars, piece, kerf, k, best))
    decreases |bars| - k
  {
    if k < |bars| {
      if piece <= bars[k].remaining && (best.None? || Slack(bars[k], piece, kerf) < Slack(bars[best.value], piece, kerf)) {
        if Slack(bars[k], piece, kerf) != 0 {
          TightestFromChoice(bars, piece, kerf, k + 1, Some(k));
        }
      } else {
        TightestFromChoice(bars, piece, kerf, k + 1, best);
      }
    }
  }

  /**
   * Lines 884-893: the greedy strategy puts the piece on the fitting open bar
   * that leaves the least slack, the first such bar on ties; it stops looking
   * at the first bar that leaves a slack of exactly zero and is strictly
   * tighter than every fitting bar before it. With a positive kerf a slack can
   * be below zero (down to minus one kerf, an exact fit), so a later, tighter
   * bar may be passed over.
   */
  lemma TightestIsFirstTightest(bars: seq<PlanBar>, piece: int, kerf: int)
    ensures TightestChoice(bars, piece, kerf, Tightest(bars, piece, kerf))
  {
    TightestFromChoice(bars, piece, kerf, 0, None);
  }

  /** Lines 884-893: the scan over the open bars, with its early exit. */
  method TightestOpenBar(bars: seq<PlanBar>, piece: int, kerf: int) returns (best: Option<nat>)
    ensures best == Tightest(bars, piece, kerf)
  {
    best := None;
    var bestSlack := 0;
    var k := 0;
    while k < |bars|
      invariant k <= |bars| && (best.Some? ==> best.value < k && bestSlack == Slack(bars[best.value], piece, kerf))
      invariant TightestFrom(bars, piece, kerf, k, best) == Tightest(bars, piece, kerf)
    {
      if piece <= bars[k].remaining {
        var slack := bars[k].remaining - piece - kerf;
        if best.None? || slack < bestSlack {
          if slack == 0 {
            return Some(k);
          }
          best, bestSlack := Some(k), slack;
        }
      }
      k := k + 1;
    }
  }

  // ---------------------------------------------------------------------------
  // First place in a stable ascending sort
  // ---------------------------------------------------------------------------

  /** Lexicographic order on sort keys, as Python compares tuples. */
  predicate Precedes(a: (int, int), b: (int, int))
  {
    a.0 < b.0 || (a.0 == b.0 && a.1 < b.1)
  }

  /**
   * `sorted(candidates, key=...)[0]` for a stable sort: the first candidate
   * whose key is least. A missing key marks a position that is no candidate.
   */
  function FirstLeast(keys: seq<Option<(int, int)>>): (r: Option<nat>)
    ensures r.None? <==> forall j :: 0 <= j < |keys| ==> keys[j].None?
    ensures r.Some? ==> r.value < |keys| && keys[r.value].Some?
    ensures r.Some? ==> forall j :: 0 <= j < |keys| && keys[j].Some? ==> !Precedes(keys[j].value, keys[r.value].value)
    ensures r.Some? ==> forall j :: 0 <= j < r.value && keys[j].Some? ==> Precedes(keys[r.value].value, keys[j].value)
  {
    if keys == [] then None
    else
      var n := |keys| - 1;
      var r0 := FirstLeast(keys[..n]);
      assert forall j :: 0 <= j < n ==> keys[..n][j] == keys[j];
      if keys[n].Some? && (r0.None? || Precedes(keys[n].value, keys[r0.value].value)) then Some(n) else r0
  }

  /** Two key lists present and ordered alike have the same first least key. */
  lemma {:induction false} FirstLeastSameOrder(a: seq<Option<(int, int)>>, b: seq<Option<(int, int)>>)
    requires |a| == |b|
    requires forall k :: 0 <= k < |a| ==> (a[k].Some? <==> b[k].Some?)
    requires forall j, k :: 0 <= j < |a| && 0 <= k < |a| && a[j].Some? && a[k].Some? ==>
      (Precedes(a[j].value, a[k].value) <==> Precedes(b[j].value, b[k].value))
    ensures FirstLeast(a) == FirstLeast(b)
  {
    if a != [] {
      var n := |a| - 1;
      assert forall k :: 0 <= k < n ==> a[..n][k] == a[k] && b[..n][k] == b[k];
      FirstLeastSameOrder(a[..n], b[..n]);
    }
  }

  /** Scanning one more key: it becomes the choice when it is strictly below the choice so far. */
  lemma FirstLeastStep(keys: seq<Option<(int, int)>>, t: nat)
    requires t < |keys|
    ensures FirstLeast(keys[..t + 1]) ==
      if keys[t].Some? && (FirstLeast(keys[..t]).None? || Precedes(keys[t].value, keys[FirstLeast(keys[..t]).value].value))
      then Some(t) else FirstLeast(keys[..t])
  {
    assert keys[..t + 1][..t] == keys[..t];
  }

  /** FirstLeastStep for keys whose second component is 0, as the trial loops compute them. */
  lemma KeyStep(keys: seq<Option<(int, int)>>, t: nat, best: Option<nat>, bestKey: int, key: int)
    requires t < |keys| && best == FirstLeast(keys[..t])
    requires keys[t] == Some((key, 0))
    requires best.Some? ==> keys[best.value] == Some((bestKey, 0))
    ensures FirstLeast(keys[..t + 1]) == if best.None? || key < bestKey then Some(t) else best
  {
    FirstLeastStep(keys, t);
  }

  // ---------------------------------------------------------------------------
  // The open-bar choice of the other three strategies
  // ---------------------------------------------------------------------------

  /** Lines 1085-1092: how the long-offcuts strategy ranks a slack: over 500 first, under 100 next, the rest last. */
  function Tier(slack: int): int
  {
    if slack > 500 then 0 else if slack < 100 then 1 else 2
  }

  /**
   * The sort key of an open bar for the piece: lines 975-980 (preferred length
   * first, then least slack), 1029-1030 (longest bar first, then least space
   * left) and 1085-1092 (the tier of the slack).
   */
  function OpenKey(s: Strategy, bar: PlanBar, piece: int, kerf: int): (int, int)
  {
    match s
    case Greedy => (Slack(bar, piece, kerf), 0)
    case Preference(preferred) => (if bar.length == preferred then 0 else 1, Slack(bar, piece, kerf))
    case MinBars => (-bar.length, bar.remaining - piece)
    case LongOffcuts => (Tier(Slack(bar, piece, kerf)), 0)
  }

  /** The open bars the piece fits, each with its sort key. */
  function OpenKeys(s: Strategy, bars: seq<PlanBar>, piece: int, kerf: int): (r: seq<Option<(int, int)>>)
    ensures |r| == |bars|
    ensures forall k :: 0 <= k < |bars| ==> (r[k].Some? <==> piece <= bars[k].remaining)
    ensures forall k :: 0 <= k < |bars| && r[k].Some? ==> r[k].value == OpenKey(s, bars[k], piece, kerf)
  {
    seq(|bars|, k requires 0 <= k < |bars| =>
      if piece <= bars[k].remaining then Some(OpenKey(s, bars[k], piece, kerf)) else None)
  }

  /** Which open bar, if any, takes the piece. */
  function OpenChoice(s: Strategy, bars: seq<PlanBar>, piece: int, kerf: int): (r: Option<nat>)
    ensures r.None? <==> forall k :: 0 <= k < |bars| ==> piece > bars[k].remaining
    ensures r.Some? ==> r.value < |bars| && piece <= bars[r.value].remaining
  {
    if s.Greedy? then
      TightestIsFirstTightest(bars, piece, kerf);
      Tightest(bars, piece, kerf)
    else FirstLeast(OpenKeys(s, bars, piece, kerf))
  }

  /**
   * Lines 971-980: when some fitting open bar has the preferred length, the
   * piece goes on such a bar; among the bars of its kind it takes the one
   * with least slack, the first one on ties.
   */
  lemma PreferenceOpenChoice(bars: seq<PlanBar>, preferred: int, piece: int, kerf: int)
    requires OpenChoice(Preference(preferred), bars, piece, kerf).Some?
    ensures var k := OpenChoice(Preference(preferred), bars, piece, kerf).value;
      ((exists j :: 0 <= j < |bars| && piece <= bars[j].remaining && bars[j].length == preferred) ==> bars[k].length == preferred) &&
      (forall j :: 0 <= j < |bars| && piece <= bars[j].remaining && (bars[j].length == preferred <==> bars[k].length == preferred) ==>
        Slack(bars[k], piece, kerf) <= Slack(bars[j], piece, kerf)) &&
      (forall j :: 0 <= j < k && piece <= bars[j].remaining && (bars[j].length == preferred <==> bars[k].length == preferred) ==>
        Slack(bars[k], piece, kerf) < Slack(bars[j], piece, kerf))
  {
    var keys := OpenKeys(Preference(preferred), bars, piece, kerf);
    var k := OpenChoice(Preference(preferred), bars, piece, kerf).value;
    if exists j :: 0 <= j < |bars| && piece <= bars[j].remaining && bars[j].length == preferred {
      var j :| 0 <= j < |bars| && piece <= bars[j].remaining && bars[j].length == preferred;
      assert !Precedes(keys[j].value, keys[k].value);
    }
  }

  /**
   * Lines 1028-1031: the min-bars strategy puts the piece on the longest
   * fitting open bar, the one with least space among those, the first one on ties.
   */
  lemma MinBarsOpenChoice(bars: seq<PlanBar>, piece: int, kerf: int)
    requires OpenChoice(MinBars, bars, piece, kerf).Some?
    ensures var k := OpenChoice(MinBars, bars, piece, kerf).value;
      (forall j :: 0 <= j < |bars| && piece <= bars[j].remaining ==> bars[j].length <= bars[k].length) &&
      (forall j :: 0 <= j < |bars| && piece <= bars[j].remaining && bars[j].length == bars[k].length ==>
        bars[k].remaining <= bars[j].remaining) &&
      (forall j :: 0 <= j < k && piece <= bars[j].remaining && bars[j].length == bars[k].length ==>
        bars[k].remaining < bars[j].remaining)
  {
  }

  /**
   * Lines 1082-1099: the long-offcuts strategy puts the piece on the first
   * fitting open bar of the best tier: a slack over 500, else under 100, else any.
   */
  lemma LongOffcutsOpenChoice(bars: seq<PlanBar>, piece: int, kerf: int)
    requires OpenChoice(LongOffcuts, bars, piece, kerf).Some?
    ensures var k := OpenChoice(LongOffcuts, bars, piece, kerf).value;
      (forall j :: 0 <= j < |bars| && piece <= bars[j].remaining ==>
        Tier(Slack(bars[k], piece, kerf)) <= Tier(Slack(bars[j], piece, kerf))) &&
      (forall j :: 0 <= j < k && piece <= bars[j].remaining ==>
        Tier(Slack(bars[k], piece, kerf)) < Tier(Slack(bars[j], piece, kerf)))
  {
  }

  // ---------------------------------------------------------------------------
  // The new-bar choice
  // ---------------------------------------------------------------------------

  /**
   * The first-fit pass after the piece at `first` on a new bar of the given
   * length (lines 918-935, 990-1000, 1044-1054, 1113-1123).
   */
  function Pass(pieces: seq<int>, used: set<nat>, first: nat, limit: Option<nat>, kerf: int, length: int): (r: seq<nat>)
    requires first < |pieces|
    ensures forall t :: 0 <= t < |r| ==> r[t] < |pieces|
  {
    Taken(pieces, used, first, limit, kerf, 0, length - (pieces[first] + kerf), 0)
  }

  /** The room such a bar has left after the pass (`spazio_sim`). */
  function Space(pieces: seq<int>, used: set<nat>, first: nat, limit: Option<nat>, kerf: int, length: int): int
    requires first < |pieces|
  {
    Left(pieces, Pass(pieces, used, first, limit, kerf, length), length - (pieces[first] + kerf), kerf)
  }

  /** A new bar: its length, the positions the pass put on it after the first piece, and its remaining space. */
  datatype Opening = Opening(length: int, taken: seq<nat>, remaining: int)

  /** Line 924: only the greedy strategy caps the pass, at ten pieces after the first. */
  function Limit(s: Strategy): Option<nat>
  {
    if s.Greedy? then Some(10) else None
  }

  /** Lines 905 and 1103 (over the lengths sorted at 872 and 1068): the catalog lengths the piece fits, shortest first. */
  function Compatible(catalog: seq<int>, piece: int): seq<int>
  {
    AtLeast(SortAsc(catalog), piece)
  }

  /** Line 915: at most the three shortest compatible lengths are tried. */
  function Tried(compat: seq<int>): (r: seq<int>)
    ensures |r| == if |compat| < 3 then |compat| else 3
    ensures forall t :: 0 <= t < |r| ==> r[t] == compat[t]
  {
    compat[..if |compat| < 3 then |compat| else 3]
  }

  /** Lines 937-941: the greedy strategy keeps the trial with strictly least space left. */
  function SpaceKeys(pieces: seq<int>, used: set<nat>, first: nat, kerf: int, lengths: seq<int>): (r: seq<Option<(int, int)>>)
    requires first < |pieces|
    ensures |r| == |lengths|
    ensures forall t :: 0 <= t < |lengths| ==> r[t] == Some((Space(pieces, used, first, Some(10), kerf, lengths[t]), 0))
  {
    seq(|lengths|, t requires 0 <= t < |lengths| => Some((Space(pieces, used, first, Some(10), kerf, lengths[t]), 0)))
  }

  /** Lines 903-934: the greedy strategy's new bar. */
  function GreedyOpening(pieces: seq<int>, used: set<nat>, first: nat, catalog: seq<int>, kerf: int): Option<Opening>
    requires first < |pieces|
  {
    var compat := Compatible(catalog, pieces[first]);
    if compat == [] then None
    else
      var tried := Tried(compat);
      var keys := SpaceKeys(pieces, used, first, kerf, tried);
      assert keys[0].Some?;
      var k := FirstLeast(keys).value;
      Some(Opening(tried[k], Pass(pieces, used, first, Some(10), kerf, tried[k]),
                   Space(pieces, used, first, Some(10), kerf, tried[k])))
  }

  /** Lines 1126-1129: a room over 500 scores its length, any other its negation. */
  function Score(space: int): int
  {
    if space > 500 then space else -space
  }

  /** Lines 1131-1135: keeping the first strictly highest score is keeping the first least negated score. */
  function ScoreKeys(pieces: seq<int>, used: set<nat>, first: nat, kerf: int, lengths: seq<int>): (r: seq<Option<(int, int)>>)
    requires first < |pieces|
    ensures |r| == |lengths|
    ensures forall t :: 0 <= t < |lengths| ==> r[t] == Some((-Score(Space(pieces, used, first, None, kerf, lengths[t])), 0))
  {
    seq(|lengths|, t requires 0 <= t < |lengths| => Some((-Score(Space(pieces, used, first, None, kerf, lengths[t])), 0)))
  }

  /**
   * Lines 1101-1143: the long-offcuts strategy's new bar. Its remaining space
   * is recomputed from the length, the pieces and one kerf per piece.
   */
  function LongOffcutsOpening(pieces: seq<int>, used: set<nat>, first: nat, catalog: seq<int>, kerf: int): Option<Opening>
    requires first < |pieces|
  {
    var compat := Compatible(catalog, pieces[first]);
    if compat == [] then None
    else
      var keys := ScoreKeys(pieces, used, first, kerf, compat);
      assert keys[0].Some?;
      var length := compat[FirstLeast(keys).value];
      var taken := Pass(pieces, used, first, None, kerf, length);
      var cuts := [pieces[first]] + At(pieces, taken);
      Some(Opening(length, taken, length - Sum(cuts) - |cuts| * kerf))
  }

  /** `[l for l in s if l != x]`. */
  function Others(s: seq<int>, x: int): (r: seq<int>)
    ensures forall y :: multiset(r)[y] == if y == x then 0 else multiset(s)[y]
  {
    if s == [] then []
    else
      assert s == s[..|s| - 1] + [s[|s| - 1]];
      Others(s[..|s| - 1], x) + (if s[|s| - 1] != x then [s[|s| - 1]] else [])
  }

  /** `[l for l in s if x <= l][0]`, when there is one. */
  function FirstAtLeast(s: seq<int>, x: int): (r: Option<int>)
    ensures r.None? <==> forall t :: 0 <= t < |s| ==> s[t] < x
    ensures r.Some? ==> exists t :: 0 <= t < |s| && s[t] == r.value && x <= s[t] && forall u :: 0 <= u < t ==> s[u] < x
  {
    if s == [] then None
    else if x <= s[0] then Some(s[0])
    else
      var r0 := FirstAtLeast(s[1..], x);
      assert forall t :: 1 <= t < |s| ==> s[t] == s[1..][t - 1];
      if r0.Some? then
        assert exists t :: 1 <= t < |s| && s[t] == r0.value && x <= s[t] && forall u :: 0 <= u < t ==> s[u] < x by {
          var t :| 0 <= t < |s[1..]| && s[1..][t] == r0.value && x <= s[1..][t] && forall u :: 0 <= u < t ==> s[1..][u] < x;
          assert s[t + 1] == r0.value;
          assert forall u :: 0 <= u < t + 1 ==> s[u] < x by {
            forall u | 0 <= u < t + 1 ensures s[u] < x {
              if u > 0 {
                assert s[u] == s[1..][u - 1];
              }
            }
          }
        }
        r0
      else r0
  }

  /** Lines 956, 987-992: the preferred length first, then the others shortest first. */
  function PreferenceOrder(catalog: seq<int>, preferred: int): seq<int>
  {
    [preferred] + Others(SortAsc(catalog), preferred)
  }

  /** Lines 984-1006: the preference strategy's new bar, filled by the unlimited pass. */
  function PreferenceOpening(pieces: seq<int>, used: set<nat>, first: nat, catalog: seq<int>, preferred: int, kerf: int): Option<Opening>
    requires first < |pieces|
  {
    match FirstAtLeast(PreferenceOrder(catalog, preferred), pieces[first])
    case None => None
    case Some(length) => Some(Opening(length, Pass(pieces, used, first, None, kerf, length), Space(pieces, used, first, None, kerf, length)))
  }

  /** Lines 1014, 1037-1045: the min-bars strategy's new bar, the first of the catalog longest first that fits. */
  function MinBarsOpening(pieces: seq<int>, used: set<nat>, first: nat, catalog: seq<int>, kerf: int): Option<Opening>
    requires first < |pieces|
  {
    match FirstAtLeast(SortDesc(catalog), pieces[first])
    case None => None
    case Some(length) => Some(Opening(length, Pass(pieces, used, first, None, kerf, length), Space(pieces, used, first, None, kerf, length)))
  }

  /** The bar a strategy buys when no open bar takes the piece; None when no catalog length is long enough. */
  function NewChoice(s: Strategy, pieces: seq<int>, used: set<nat>, first: nat, catalog: seq<int>, kerf: int): (r: Option<Opening>)
    requires first < |pieces|
    ensures r.Some? ==> forall t :: 0 <= t < |r.value.taken| ==> r.value.taken[t] < |pieces|
  {
    match s
    case Greedy => GreedyOpening(pieces, used, first, catalog, kerf)
    case Preference(preferred) => PreferenceOpening(pieces, used, first, catalog, preferred, kerf)
    case MinBars => MinBarsOpening(pieces, used, first, catalog, kerf)
    case LongOffcuts => LongOffcutsOpening(pieces, used, first, catalog, kerf)
  }

  /** The compatible lengths are the catalog lengths the piece fits, each as often as in the catalog. */
  lemma CompatibleFacts(catalog: seq<int>, piece: int)
    ensures Ascending(Compatible(catalog, piece))
    ensures forall y :: multiset(Compatible(catalog, piece))[y] == if piece <= y then multiset(catalog)[y] else 0
    ensures Compatible(catalog, piece) == [] <==> forall t :: 0 <= t < |catalog| ==> catalog[t] < piece
    ensures forall t :: 0 <= t < |Compatible(catalog, piece)| ==>
      piece <= Compatible(catalog, piece)[t] && Compatible(catalog, piece)[t] in catalog
  {
    var compat := Compatible(catalog, piece);
    AtLeastAscending(SortAsc(catalog), piece);
    forall t | 0 <= t < |compat| ensures piece <= compat[t] && compat[t] in catalog {
      assert compat[t] in multiset(compat);
    }
    if exists t :: 0 <= t < |catalog| && piece <= catalog[t] {
      var t :| 0 <= t < |catalog| && piece <= catalog[t];
      assert catalog[t] in multiset(catalog);
      assert catalog[t] in multiset(compat);
    }
  }

  /** The room of a new bar is its length less each piece on it and one kerf per piece. */
  lemma RoomByFootprint(pieces: seq<int>, first: nat, taken: seq<nat>, length: int, kerf: int)
    requires first < |pieces| && forall t :: 0 <= t < |taken| ==> taken[t] < |pieces|
    ensures var cuts := [pieces[first]] + At(pieces, taken);
      Left(pieces, taken, length - (pieces[first] + kerf), kerf) == length - Sum(cuts) - |cuts| * kerf
  {
    var cuts := [pieces[first]] + At(pieces, taken);
    var rest := Footprint(At(pieces, taken), kerf);
    assert Left(pieces, taken, length - (pieces[first] + kerf), kerf) == length - (pieces[first] + kerf) - rest;
    FootprintCons(pieces[first], At(pieces, taken), kerf);
    FootprintIs(cuts, kerf);
    assert pieces[first] + kerf + rest == Sum(cuts) + kerf * |cuts|;
    assert kerf * |cuts| == |cuts| * kerf;
  }

  /**
   * Lines 903-934: the greedy strategy tries the (at most three) shortest
   * lengths the piece fits, and buys the first one whose capped pass leaves
   * the least room. The result is where the bought length stands among them.
   */
  lemma GreedyNewChoice(pieces: seq<int>, used: set<nat>, first: nat, catalog: seq<int>, kerf: int) returns (k: nat)
    requires first < |pieces| && GreedyOpening(pieces, used, first, catalog, kerf).Some?
    ensures var tried := Tried(Compatible(catalog, pieces[first]));
      k < |tried| && tried[k] == GreedyOpening(pieces, used, first, catalog, kerf).value.length &&
      (forall t :: 0 <= t < |tried| ==>
        Space(pieces, used, first, Some(10), kerf, tried[k]) <= Space(pieces, used, first, Some(10), kerf, tried[t])) &&
      (forall t :: 0 <= t < k ==>
        Space(pieces, used, first, Some(10), kerf, tried[k]) < Space(pieces, used, first, Some(10), kerf, tried[t]))
  {
    var tried := Tried(Compatible(catalog, pieces[first]));
    var keys := SpaceKeys(pieces, used, first, kerf, tried);
    assert keys[0].Some?;
    k := FirstLeast(keys).value;
  }

  /**
   * Lines 1101-1143: the long-offcuts strategy tries every length the piece
   * fits, shortest first, and buys the first one with the highest score.
   */
  lemma LongOffcutsNewChoice(pieces: seq<int>, used: set<nat>, first: nat, catalog: seq<int>, kerf: int)
    requires first < |pieces| && LongOffcutsOpening(pieces, used, first, catalog, kerf).Some?
    ensures var length := LongOffcutsOpening(pieces, used, first, catalog, kerf).value.length;
      (forall t :: 0 <= t < |catalog| && pieces[first] <= catalog[t] ==>
        Score(Space(pieces, used, first, None, kerf, catalog[t])) <= Score(Space(pieces, used, first, None, kerf, length))) &&
      (forall t :: 0 <= t < |catalog| && pieces[first] <= catalog[t] < length ==>
        Score(Space(pieces, used, first, None, kerf, catalog[t])) < Score(Space(pieces, used, first, None, kerf, length)))
  {
    var compat := Compatible(catalog, pieces[first]);
    var k := HighestScore(pieces, used, first, kerf, compat);
    var length := compat[k];
    forall t | 0 <= t < |catalog| && pieces[first] <= catalog[t]
      ensures Score(Space(pieces, used, first, None, kerf, catalog[t])) <= Score(Space(pieces, used, first, None, kerf, length))
      ensures catalog[t] < length ==>
        Score(Space(pieces, used, first, None, kerf, catalog[t])) < Score(Space(pieces, used, first, None, kerf, length))
    {
      var u := CompatibleBefore(catalog, pieces[first], t, k);
    }
  }

  /** A catalog length the piece fits stands among the compatible lengths, before any longer one. */
  lemma CompatibleBefore(catalog: seq<int>, piece: int, t: nat, k: nat) returns (u: nat)
    requires t < |catalog| && piece <= catalog[t] && k < |Compatible(catalog, piece)|
    ensures u < |Compatible(catalog, piece)| && Compatible(catalog, piece)[u] == catalog[t]
    ensures catalog[t] < Compatible(catalog, piece)[k] ==> u < k
  {
    CompatibleFacts(catalog, piece);
    u := CompatibleIndex(catalog, piece, t);
  }

  /** The first length with the highest score beats every length and strictly beats those before it. */
  lemma HighestScore(pieces: seq<int>, used: set<nat>, first: nat, kerf: int, lengths: seq<int>) returns (k: nat)
    requires first < |pieces| && lengths != []
    ensures k < |lengths| && FirstLeast(ScoreKeys(pieces, used, first, kerf, lengths)) == Some(k)
    ensures forall u :: 0 <= u < |lengths| ==>
      Score(Space(pieces, used, first, None, kerf, lengths[u])) <= Score(Space(pieces, used, first, None, kerf, lengths[k]))
    ensures forall u :: 0 <= u < k ==>
      Score(Space(pieces, used, first, None, kerf, lengths[u])) < Score(Space(pieces, used, first, None, kerf, lengths[k]))
  {
    var keys := ScoreKeys(pieces, used, first, kerf, lengths);
    assert keys[0].Some?;
    k := FirstLeast(keys).value;
  }

  /** A catalog length the piece fits stands somewhere among the compatible lengths. */
  lemma CompatibleIndex(catalog: seq<int>, piece: int, t: nat) returns (u: nat)
    requires t < |catalog| && piece <= catalog[t]
    ensures u < |Compatible(catalog, piece)| && Compatible(catalog, piece)[u] == catalog[t]
  {
    CompatibleFacts(catalog, piece);
    var compat := Compatible(catalog, piece);
    assert catalog[t] in multiset(catalog);
    assert catalog[t] in multiset(compat);
    u :| 0 <= u < |compat| && compat[u] == catalog[t];
  }

  /** The other lengths are catalog lengths. */
  lemma OthersInCatalog(catalog: seq<int>, preferred: int)
    ensures forall t :: 0 <= t < |Others(SortAsc(catalog), preferred)| ==> Others(SortAsc(catalog), preferred)[t] in catalog
  {
    var others := Others(SortAsc(catalog), preferred);
    forall t | 0 <= t < |others| ensures others[t] in catalog {
      assert others[t] in multiset(others);
    }
  }

  /** Every catalog length other than the preferred one is among the others. */
  lemma OthersCover(catalog: seq<int>, preferred: int, c: int)
    requires c in catalog && c != preferred
    ensures c in Others(SortAsc(catalog), preferred)
  {
    assert c in multiset(catalog);
    assert c in multiset(Others(SortAsc(catalog), preferred));
  }

  /** The preference order holds the preferred length first, then every other catalog length, shortest first. */
  lemma PreferenceOrderFacts(catalog: seq<int>, preferred: int)
    requires preferred in catalog
    ensures PreferenceOrder(catalog, preferred)[0] == preferred
    ensures forall t :: 0 <= t < |PreferenceOrder(catalog, preferred)| ==> PreferenceOrder(catalog, preferred)[t] in catalog
    ensures forall t, u :: 1 <= t < u < |PreferenceOrder(catalog, preferred)| ==>
      PreferenceOrder(catalog, preferred)[t] <= PreferenceOrder(catalog, preferred)[u]
    ensures forall c :: c in catalog ==> c in PreferenceOrder(catalog, preferred)
  {
    var others := Others(SortAsc(catalog), preferred);
    OthersInCatalog(catalog, preferred);
    OthersAscending(SortAsc(catalog), preferred);
    forall c | c in catalog && c != preferred ensures c in others {
      OthersCover(catalog, preferred, c);
    }
    OrderFacts(catalog, preferred, others);
  }

  lemma OrderFacts(catalog: seq<int>, preferred: int, others: seq<int>)
    requires preferred in catalog && Ascending(others)
    requires forall t :: 0 <= t < |others| ==> others[t] in catalog
    requires forall c :: c in catalog && c != preferred ==> c in others
    ensures ([preferred] + others)[0] == preferred
    ensures forall t :: 0 <= t < |[preferred] + others| ==> ([preferred] + others)[t] in catalog
    ensures forall t, u :: 1 <= t < u < |[preferred] + others| ==> ([preferred] + others)[t] <= ([preferred] + others)[u]
    ensures forall c :: c in catalog ==> c in [preferred] + others
  {
    var order := [preferred] + others;
    assert forall t :: 1 <= t < |order| ==> order[t] == others[t - 1];
  }

  /**
   * The first length of the preference order that the piece fits is the
   * preferred one when the piece fits it, and otherwise no longer than any
   * other catalog length the piece fits.
   */
  lemma FirstInOrder(catalog: seq<int>, preferred: int, order: seq<int>, piece: int)
    requires |order| > 0 && order[0] == preferred
    requires forall t :: 0 <= t < |order| ==> order[t] in catalog
    requires forall t, u :: 1 <= t < u < |order| ==> order[t] <= order[u]
    requires forall c :: c in catalog ==> c in order
    requires FirstAtLeast(order, piece).Some?
    ensures var length := FirstAtLeast(order, piece).value;
      length in catalog && piece <= length &&
      (piece <= preferred ==> length == preferred) &&
      (preferred < piece ==> forall t :: 0 <= t < |catalog| && piece <= catalog[t] ==> length <= catalog[t])
  {
    var r := FirstAtLeast(order, piece);
    var t :| 0 <= t < |order| && order[t] == r.value && piece <= order[t] && forall u :: 0 <= u < t ==> order[u] < piece;
    forall c | 0 <= c < |catalog| && preferred < piece <= catalog[c] ensures r.value <= catalog[c] {
      assert catalog[c] in order;
      var u :| 0 <= u < |order| && order[u] == catalog[c];
      if t > 0 && u > t {
        assert order[t] <= order[u];
      }
    }
  }

  /**
   * Lines 984-1006: the preference strategy buys the preferred length when the
   * piece fits it, and otherwise the shortest catalog length the piece fits.
   */
  lemma PreferenceNewChoice(pieces: seq<int>, used: set<nat>, first: nat, catalog: seq<int>, preferred: int, kerf: int)
    requires first < |pieces| && preferred in catalog
    requires PreferenceOpening(pieces, used, first, catalog, preferred, kerf).Some?
    ensures var length := PreferenceOpening(pieces, used, first, catalog, preferred, kerf).value.length;
      length in catalog && pieces[first] <= length &&
      (pieces[first] <= preferred ==> length == preferred) &&
      (preferred < pieces[first] ==> forall t :: 0 <= t < |catalog| && pieces[first] <= catalog[t] ==> length <= catalog[t])
  {
    PreferenceOrderFacts(catalog, preferred);
    FirstInOrder(catalog, preferred, PreferenceOrder(catalog, preferred), pieces[first]);
  }

  /** The preference strategy finds no bar exactly when the piece is longer than every catalog length. */
  lemma PreferenceNewNone(pieces: seq<int>, used: set<nat>, first: nat, catalog: seq<int>, preferred: int, kerf: int)
    requires first < |pieces| && preferred in catalog
    ensures PreferenceOpening(pieces, used, first, catalog, preferred, kerf).None? <==>
      forall t :: 0 <= t < |catalog| ==> catalog[t] < pieces[first]
  {
    PreferenceOrderFacts(catalog, preferred);
    var order := PreferenceOrder(catalog, preferred);
    if exists t :: 0 <= t < |catalog| && pieces[first] <= catalog[t] {
      var t :| 0 <= t < |catalog| && pieces[first] <= catalog[t];
      assert catalog[t] in order;
    }
  }

  lemma {:induction false} OthersAscending(s: seq<int>, x: int)
    requires Ascending(s)
    ensures Ascending(Others(s, x))
  {
    if s != [] {
      var init, last := s[..|s| - 1], s[|s| - 1];
      assert s == init + [last];
      OthersAscending(init, x);
      var r0 := Others(init, x);
      forall k | 0 <= k < |r0| ensures r0[k] <= last {
        assert r0[k] in multiset(r0);
        assert r0[k] in init;
      }
    }
  }

  /** Lines 1037-1043: the min-bars strategy buys the longest catalog length, when the piece fits it. */
  lemma MinBarsNewChoice(pieces: seq<int>, used: set<nat>, first: nat, catalog: seq<int>, kerf: int)
    requires first < |pieces|
    ensures var r := MinBarsOpening(pieces, used, first, catalog, kerf);
      (r.None? <==> forall t :: 0 <= t < |catalog| ==> catalog[t] < pieces[first]) &&
      (r.Some? ==> r.value.length in catalog && pieces[first] <= r.value.length &&
                   forall t :: 0 <= t < |catalog| ==> catalog[t] <= r.value.length)
  {
    LongestFit(catalog, pieces[first]);
  }

  /** The first length of the catalog sorted longest first that the piece fits is the longest catalog length. */
  lemma LongestFit(catalog: seq<int>, piece: int)
    ensures var r := FirstAtLeast(SortDesc(catalog), piece);
      (r.None? <==> forall t :: 0 <= t < |catalog| ==> catalog[t] < piece) &&
      (r.Some? ==> r.value in catalog && piece <= r.value && forall t :: 0 <= t < |catalog| ==> catalog[t] <= r.value)
  {
    var desc := SortDesc(catalog);
    var r := FirstAtLeast(desc, piece);
    forall t | 0 <= t < |catalog| ensures catalog[t] in desc {
      assert catalog[t] in multiset(catalog);
    }
    if r.Some? {
      var t :| 0 <= t < |desc| && desc[t] == r.value && piece <= desc[t] && forall u :: 0 <= u < t ==> desc[u] < piece;
      assert t == 0;
      assert desc[0] in multiset(desc);
      forall c | 0 <= c < |catalog| ensures catalog[c] <= r.value {
        var u :| 0 <= u < |desc| && desc[u] == catalog[c];
      }
    }
  }

  /** No strategy finds a bar to buy exactly when the piece is longer than every catalog length. */
  lemma NewChoiceNone(s: Strategy, pieces: seq<int>, used: set<nat>, first: nat, catalog: seq<int>, kerf: int)
    requires first < |pieces| && (s.Preference? ==> s.preferred in catalog)
    ensures NewChoice(s, pieces, used, first, catalog, kerf).None? <==>
      forall t :: 0 <= t < |catalog| ==> catalog[t] < pieces[first]
  {
    match s
    case Greedy => CompatibleFacts(catalog, pieces[first]);
    case Preference(preferred) => PreferenceNewNone(pieces, used, first, catalog, preferred, kerf);
    case MinBars => MinBarsNewChoice(pieces, used, first, catalog, kerf);
    case LongOffcuts => CompatibleFacts(catalog, pieces[first]);
  }

  /**
   * The bar a strategy buys is a catalog length the piece fits, filled by the
   * strategy's pass, and its remaining space is the room that pass left.
   */
  lemma NewChoiceSome(s: Strategy, pieces: seq<int>, used: set<nat>, first: nat, catalog: seq<int>, kerf: int)
    requires first < |pieces| && (s.Preference? ==> s.preferred in catalog)
    requires NewChoice(s, pieces, used, first, catalog, kerf).Some?
    ensures var o := NewChoice(s, pieces, used, first, catalog, kerf).value;
      o.length in catalog && pieces[first] <= o.length &&
      o.taken == Pass(pieces, used, first, Limit(s), kerf, o.length) &&
      o.remaining == Space(pieces, used, first, Limit(s), kerf, o.length)
  {
    var o := NewChoice(s, pieces, used, first, catalog, kerf).value;
    match s
    case Greedy =>
      var compat := Compatible(catalog, pieces[first]);
      CompatibleFacts(catalog, pieces[first]);
      var k := GreedyNewChoice(pieces, used, first, catalog, kerf);
      assert Tried(compat)[k] == compat[k];
    case Preference(preferred) =>
      PreferenceNewChoice(pieces, used, first, catalog, preferred, kerf);
    case MinBars =>
      MinBarsNewChoice(pieces, used, first, catalog, kerf);
    case LongOffcuts =>
      var compat := Compatible(catalog, pieces[first]);
      CompatibleFacts(catalog, pieces[first]);
      var keys := ScoreKeys(pieces, used, first, kerf, compat);
      assert keys[0].Some?;
      var k := FirstLeast(keys).value;
      assert o.length == compat[k];
      RoomByFootprint(pieces, first, o.taken, o.length, kerf);
  }
}
