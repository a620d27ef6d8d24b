/**
 * The bookkeeping shared by the four catalog strategies: which pieces (by
 * position in the sorted piece list) are already on a bar, the bars of a plan
 * (dicts with keys lunghezza, pezzi, spazio_rimanente), and the first-fit
 * simulation that fills a freshly opened bar.
 */
module Plans {
  import opened Wrappers
  import opened Seqs
  import opened Cutting

  /** One bar of a purchase plan. */
  datatype PlanBar = PlanBar(length: int, pieces: seq<int>, remaining: int)

  /** The pieces at the given positions, in that order. */
  function At(pieces: seq<int>, idx: seq<nat>): (r: seq<int>)
    requires forall t :: 0 <= t < |idx| ==> idx[t] < |pieces|
    ensures |r| == |idx| && forall t :: 0 <= t < |idx| ==> r[t] == pieces[idx[t]]
  {
    if idx == [] then [] else At(pieces, idx[..|idx| - 1]) + [pieces[idx[|idx| - 1]]]
  }

  /** The pieces at the positions in `used` that are below k, as a multiset. */
  ghost function PickedBelow(pieces: seq<int>, used: set<nat>, k: nat): multiset<int>
    requires k <= |pieces|
  {
    if k == 0 then multiset{}
    else PickedBelow(pieces, used, k - 1) + (if k - 1 in used then multiset{pieces[k - 1]} else multiset{})
  }

  /** The pieces at the positions in `used`, as a multiset. */
  ghost function Picked(pieces: seq<int>, used: set<nat>): multiset<int>
  {
    PickedBelow(pieces, used, |pieces|)
  }

  /** Picking no position picks nothing. */
  lemma {:induction false} PickedBelowNone(pieces: seq<int>, k: nat)
    requires k <= |pieces|
    ensures PickedBelow(pieces, {}, k) == multiset{}
  {
    if k > 0 {
      PickedBelowNone(pieces, k - 1);
    }
  }

  /** Picking two disjoint sets of positions picks the sum of what each picks. */
  lemma {:induction false} PickedBelowUnion(pieces: seq<int>, s: set<nat>, t: set<nat>, k: nat)
    requires k <= |pieces| && s !! t
    ensures PickedBelow(pieces, s + t, k) == PickedBelow(pieces, s, k) + PickedBelow(pieces, t, k)
  {
    if k > 0 {
      PickedBelowUnion(pieces, s, t, k - 1);
    }
  }

  /** Picking one position picks its piece. */
  lemma {:induction false} PickedBelowSingle(pieces: seq<int>, j: nat, k: nat)
    requires j < |pieces| && k <= |pieces|
    ensures PickedBelow(pieces, {j}, k) == if j < k then multiset{pieces[j]} else multiset{}
  {
    if k > 0 {
      PickedBelowSingle(pieces, j, k - 1);
    }
  }

  /** Picking every position picks every piece. */
  lemma {:induction false} PickedBelowAll(pieces: seq<int>, used: set<nat>, k: nat)
    requires k <= |pieces|
    requires forall j :: 0 <= j < k ==> j in used
    ensures PickedBelow(pieces, used, k) == multiset(pieces[..k])
  {
    if k > 0 {
      PickedBelowAll(pieces, used, k - 1);
      assert pieces[..k] == pieces[..k - 1] + [pieces[k - 1]];
    }
  }

  /** The positions in a list, as a set (what `set.update(list)` adds). */
  function Members(idx: seq<nat>): (r: set<nat>)
    ensures forall j :: j in r <==> j in idx
  {
    if idx == [] then {} else Members(idx[..|idx| - 1]) + {idx[|idx| - 1]}
  }

  /** The positions below n. */
  function Range(n: nat): (r: set<nat>)
    ensures forall j: nat :: j in r <==> j < n
    ensures |r| == n
  {
    if n == 0 then {} else Range(n - 1) + {n - 1}
  }

  /** Picking a list of distinct positions picks the pieces at them. */
  lemma {:induction false} PickedSeq(pieces: seq<int>, idx: seq<nat>)
    requires forall t :: 0 <= t < |idx| ==> idx[t] < |pieces|
    requires Distinct(idx)
    ensures Picked(pieces, Members(idx)) == multiset(At(pieces, idx))
  {
    if idx == [] {
      PickedBelowNone(pieces, |pieces|);
    } else {
      var init, last := idx[..|idx| - 1], idx[|idx| - 1];
      assert Distinct(init);
      PickedSeq(pieces, init);
      assert last !in init by {
        forall t | 0 <= t < |init| ensures init[t] != last {
          assert idx[t] == init[t];
        }
      }
      assert Members(idx) == Members(init) + {last};
      PickedBelowUnion(pieces, Members(init), {last}, |pieces|);
      PickedBelowSingle(pieces, last, |pieces|);
      assert Picked(pieces, Members(idx)) == Picked(pieces, Members(init)) + multiset{pieces[last]};
      assert At(pieces, idx) == At(pieces, init) + [pieces[last]];
    }
  }

  /** A set of positions below n has at most n members, and n only when it holds them all. */
  lemma SubsetCard(used: set<nat>, n: nat)
    requires forall j :: j in used ==> j < n
    ensures |used| <= n
    ensures |used| < n <==> exists j: nat :: j < n && j !in used
  {
    var all := Range(n);
    assert all == used + (all - used);
    if forall j: nat :: j < n ==> j in used {
      assert all == used;
    } else {
      var j: nat :| j < n && j !in used;
      assert j in all - used;
    }
  }

  /** Adding a new position makes the set strictly larger. */
  lemma GrowCard(used: set<nat>, more: set<nat>, p: nat)
    requires p in more && p !in used
    ensures |used + more| > |used|
  {
    var u := used + more;
    assert u == used + (u - used);
    assert p in u - used;
  }

  /**
   * Lines 1048-1054 (and 926-935, 994-1000, 1117-1123): the first-fit pass
   * that fills a new bar, given the room left after its first piece. Positions
   * are tried in order; a position is taken when it is not used, is not the
   * bar's first piece and its piece fits the room left, which then shrinks by
   * the piece and one kerf. With a limit, the pass stops once `extra` pieces
   * (counting from the caller's count) were added. The result is the positions
   * taken.
   */
  function Taken(pieces: seq<int>, used: set<nat>, first: nat, limit: Option<nat>, kerf: int,
                 i: nat, room: int, extra: nat): (r: seq<nat>)
    requires i <= |pieces|
    decreases |pieces| - i
    ensures forall t :: 0 <= t < |r| ==> r[t] < |pieces|
  {
    if i == |pieces| || (limit.Some? && extra >= limit.value) then []
    else if i !in used && i != first && pieces[i] <= room then
      [i] + Taken(pieces, used, first, limit, kerf, i + 1, room - (pieces[i] + kerf), extra + 1)
    else
      Taken(pieces, used, first, limit, kerf, i + 1, room, extra)
  }

  /**
   * What the pass takes: unused positions from i on, other than the first, in
   * increasing order, and no more than the limit allows.
   */
  lemma {:induction false} TakenPositions(pieces: seq<int>, used: set<nat>, first: nat, limit: Option<nat>, kerf: int,
                                          i: nat, room: int, extra: nat) returns (r: seq<nat>)
    requires i <= |pieces|
    ensures r == Taken(pieces, used, first, limit, kerf, i, room, extra)
    ensures forall t :: 0 <= t < |r| ==> i <= r[t] && r[t] !in used && r[t] != first
    ensures forall t, u :: 0 <= t < u < |r| ==> r[t] < r[u]
    ensures limit.Some? ==> extra + |r| <= if extra <= limit.value then limit.value else extra
    decreases |pieces| - i
  {
    r := Taken(pieces, used, first, limit, kerf, i, room, extra);
    if i == |pieces| || (limit.Some? && extra >= limit.value) {
    } else if i !in used && i != first && pieces[i] <= room {
      var rest := TakenPositions(pieces, used, first, limit, kerf, i + 1, room - (pieces[i] + kerf), extra + 1);
      assert r == [i] + rest;
      PositionsCons(i, rest, used, first);
    } else {
      var rest := TakenPositions(pieces, used, first, limit, kerf, i + 1, room, extra);
    }
  }
  /** Position i, unused and not the first piece, in front of later increasing positions. */
  lemma PositionsCons(i: nat, rest: seq<nat>, used: set<nat>, first: nat)
    requires i !in used && i != first
    requires forall t :: 0 <= t < |rest| ==> i + 1 <= rest[t] && rest[t] !in used && rest[t] != first
    requires forall t, u :: 0 <= t < u < |rest| ==> rest[t] < rest[u]
    ensures forall t :: 0 <= t < |[i] + rest| ==> i <= ([i] + rest)[t] && ([i] + rest)[t] !in used && ([i] + rest)[t] != first
    ensures forall t, u :: 0 <= t < u < |[i] + rest| ==> ([i] + rest)[t] < ([i] + rest)[u]
  {
    var r := [i] + rest;
    forall t | 0 <= t < |r| ensures i <= r[t] && r[t] !in used && r[t] != first {
      if t > 0 {
        assert r[t] == rest[t - 1];
      }
    }
    forall t, u | 0 <= t < u < |r| ensures r[t] < r[u] {
      assert r[u] == rest[u - 1];
      if t > 0 {
        assert r[t] == rest[t - 1];
      }
    }
  }


  lemma {:induction false} FootprintCons(x: int, s: seq<int>, kerf: int)
    ensures Footprint([x] + s, kerf) == x + kerf + Footprint(s, kerf)
  {
    if s == [] {
      assert [x] + s == [x];
      assert [x][..0] == [];
    } else {
      var init := s[..|s| - 1];
      FootprintCons(x, init, kerf);
      assert ([x] + s)[..|s|] == [x] + init;
    }
  }

  /** The room left after taking a piece and then more, counted from before the piece. */
  lemma AtCons(pieces: seq<int>, i: nat, rest: seq<nat>, kerf: int)
    requires i < |pieces| && forall t :: 0 <= t < |rest| ==> rest[t] < |pieces|
    ensures Footprint(At(pieces, [i] + rest), kerf) == pieces[i] + kerf + Footprint(At(pieces, rest), kerf)
  {
    assert At(pieces, [i] + rest) == [pieces[i]] + At(pieces, rest);
    FootprintCons(pieces[i], At(pieces, rest), kerf);
  }

  /** A piece is only taken when it fits, so the room left never drops below minus one kerf. */
  lemma {:induction false} TakenRoom(pieces: seq<int>, used: set<nat>, first: nat, limit: Option<nat>, kerf: int,
                                     i: nat, room: int, extra: nat)
    requires i <= |pieces|
    requires room >= -kerf
    ensures Left(pieces, Taken(pieces, used, first, limit, kerf, i, room, extra), room, kerf) >= -kerf
    decreases |pieces| - i
  {
    var r := Taken(pieces, used, first, limit, kerf, i, room, extra);
    if i == |pieces| || (limit.Some? && extra >= limit.value) {
    } else if i !in used && i != first && pieces[i] <= room {
      var room' := room - (pieces[i] + kerf);
      TakenRoom(pieces, used, first, limit, kerf, i + 1, room', extra + 1);
      var rest := Taken(pieces, used, first, limit, kerf, i + 1, room', extra + 1);
      assert r == [i] + rest;
      AtCons(pieces, i, rest, kerf);
    } else {
      TakenRoom(pieces, used, first, limit, kerf, i + 1, room, extra);
    }
  }

  /** The room left after the pass, counted from the room before it. */
  function Left(pieces: seq<int>, taken: seq<nat>, room: int, kerf: int): int
    requires forall t :: 0 <= t < |taken| ==> taken[t] < |pieces|
  {
    room - Footprint(At(pieces, taken), kerf)
  }

  /** A list of pieces none shorter than minus one kerf has a footprint of at least zero. */
  lemma {:induction false} FootprintNonnegative(s: seq<int>, kerf: int)
    requires forall t :: 0 <= t < |s| ==> s[t] + kerf >= 0
    ensures Footprint(s, kerf) >= 0
  {
    if s != [] {
      FootprintNonnegative(s[..|s| - 1], kerf);
    }
  }

  /** When no piece is shorter than minus one kerf, the room never grows. */
  lemma TakenShrinks(pieces: seq<int>, taken: seq<nat>, room: int, kerf: int)
    requires forall t :: 0 <= t < |taken| ==> taken[t] < |pieces|
    requires forall j :: 0 <= j < |pieces| ==> pieces[j] + kerf >= 0
    ensures Left(pieces, taken, room, kerf) <= room
  {
    FootprintNonnegative(At(pieces, taken), kerf);
  }

  /** Taking position i first leaves, from room, what the rest leaves from the room after i. */
  lemma LeftCons(pieces: seq<int>, i: nat, rest: seq<nat>, room: int, kerf: int)
    requires i < |pieces| && forall t :: 0 <= t < |rest| ==> rest[t] < |pieces|
    ensures Left(pieces, [i] + rest, room, kerf) == Left(pieces, rest, room - (pieces[i] + kerf), kerf)
  {
    AtCons(pieces, i, rest, kerf);
  }

  /**
   * Without a limit, or when the limit was not reached, the pass leaves out
   * only pieces too long for the room finally left, provided no piece is
   * shorter than minus one kerf.
   */
  lemma {:induction false} TakenMaximal(pieces: seq<int>, used: set<nat>, first: nat, limit: Option<nat>, kerf: int,
                                        i: nat, room: int, extra: nat)
    requires i <= |pieces|
    requires forall j :: 0 <= j < |pieces| ==> pieces[j] + kerf >= 0
    requires limit.None? || extra + |Taken(pieces, used, first, limit, kerf, i, room, extra)| < limit.value
    ensures var r := Taken(pieces, used, first, limit, kerf, i, room, extra);
      forall j :: i <= j < |pieces| && j !in used && j != first && j !in r ==> pieces[j] > Left(pieces, r, room, kerf)
    decreases |pieces| - i
  {
    var r := Taken(pieces, used, first, limit, kerf, i, room, extra);
    if i == |pieces| || (limit.Some? && extra >= limit.value) {
    } else if i !in used && i != first && pieces[i] <= room {
      var room' := room - (pieces[i] + kerf);
      var rest := Taken(pieces, used, first, limit, kerf, i + 1, room', extra + 1);
      assert r == [i] + rest;
      TakenMaximal(pieces, used, first, limit, kerf, i + 1, room', extra + 1);
      LeftCons(pieces, i, rest, room, kerf);
      SkippedCons(pieces, used, first, i, rest, Left(pieces, r, room, kerf));
    } else {
      assert r == Taken(pieces, used, first, limit, kerf, i + 1, room, extra);
      TakenMaximal(pieces, used, first, limit, kerf, i + 1, room, extra);
      TakenShrinks(pieces, r, room, kerf);
      SkippedStep(pieces, used, first, i, r, Left(pieces, r, room, kerf));
    }
  }

  /** The pieces skipped from i + 1 on are the ones skipped from i on, once i is taken. */
  lemma SkippedCons(pieces: seq<int>, used: set<nat>, first: nat, i: nat, rest: seq<nat>, left: int)
    requires forall j :: i + 1 <= j < |pieces| && j !in used && j != first && j !in rest ==> pieces[j] > left
    ensures forall j :: i <= j < |pieces| && j !in used && j != first && j !in [i] + rest ==> pieces[j] > left
  {
    forall j | i <= j < |pieces| && j !in used && j != first && j !in [i] + rest ensures pieces[j] > left {
      assert j != i && j !in rest;
    }
  }

  /** Position i, when passed over, is too long too. */
  lemma SkippedStep(pieces: seq<int>, used: set<nat>, first: nat, i: nat, r: seq<nat>, left: int)
    requires i < |pieces| && (i !in used && i != first ==> pieces[i] > left)
    requires forall j :: i + 1 <= j < |pieces| && j !in used && j != first && j !in r ==> pieces[j] > left
    ensures forall j :: i <= j < |pieces| && j !in used && j != first && j !in r ==> pieces[j] > left
  {
  }

  /**
   * Lines 877-879 (and 964, 1020, 1073): `next(i for i in range(n) if i not in
   * used)`, the first position from i on that no bar holds yet.
   */
  function FirstUnused(n: nat, used: set<nat>, i: nat): (r: nat)
    requires i <= n && exists j: nat :: i <= j < n && j !in used
    ensures i <= r < n && r !in used
    ensures forall j :: i <= j < r ==> j in used
    decreases n - i
  {
    if i !in used then i else FirstUnused(n, used, i + 1)
  }

  /** The generator loop behind `next(...)`. */
  method FirstUnusedIndex(n: nat, used: set<nat>) returns (r: nat)
    requires exists j: nat :: j < n && j !in used
    ensures r == FirstUnused(n, used, 0)
  {
    r := 0;
    while r in used
      invariant r <= n && (exists j: nat :: r <= j < n && j !in used)
      invariant FirstUnused(n, used, r) == FirstUnused(n, used, 0)
      decreases n - r
    {
      r := r + 1;
    }
  }

  /**
   * Lines 1048-1054 (and 926-935, 1117-1123): the first-fit pass over every
   * position, stopping early once the limit is reached, that fills a new bar
   * whose first piece sits at `first` and left `room0`.
   */
  method FillBar(pieces: seq<int>, used: set<nat>, first: nat, limit: Option<nat>, kerf: int, room0: int)
    returns (taken: seq<nat>, room: int)
    ensures taken == Taken(pieces, used, first, limit, kerf, 0, room0, 0)
    ensures room == Left(pieces, taken, room0, kerf)
  {
    taken, room := [], room0;
    var added, i := 0, 0;
    while i < |pieces|
      invariant i <= |pieces| && added == |taken|
      invariant forall t :: 0 <= t < |taken| ==> taken[t] < |pieces|
      invariant taken + Taken(pieces, used, first, limit, kerf, i, room, added) == Taken(pieces, used, first, limit, kerf, 0, room0, 0)
      invariant room == Left(pieces, taken, room0, kerf)
    {
      if limit.Some? && added >= limit.value {
        break;
      }
      if i !in used && i != first && pieces[i] <= room {
        FillStep(pieces, used, first, limit, kerf, room0, taken, i, room);
        taken, room, added := taken + [i], room - (pieces[i] + kerf), added + 1;
      }
      i := i + 1;
    }
  }

  /** One piece taken by the pass: the positions gain it and the room shrinks by it and one kerf. */
  lemma FillStep(pieces: seq<int>, used: set<nat>, first: nat, limit: Option<nat>, kerf: int, room0: int,
                 taken: seq<nat>, i: nat, room: int)
    requires i < |pieces| && i !in used && i != first && pieces[i] <= room
    requires !(limit.Some? && |taken| >= limit.value)
    requires forall t :: 0 <= t < |taken| ==> taken[t] < |pieces|
    requires taken + Taken(pieces, used, first, limit, kerf, i, room, |taken|) == Taken(pieces, used, first, limit, kerf, 0, room0, 0)
    requires room == Left(pieces, taken, room0, kerf)
    ensures (taken + [i]) + Taken(pieces, used, first, limit, kerf, i + 1, room - (pieces[i] + kerf), |taken| + 1)
      == Taken(pieces, used, first, limit, kerf, 0, room0, 0)
    ensures room - (pieces[i] + kerf) == Left(pieces, taken + [i], room0, kerf)
  {
    LeftSnoc(pieces, taken, i, room0, kerf);
    TakenTakes(pieces, used, first, limit, kerf, i, room, |taken|);
    var rest := Taken(pieces, used, first, limit, kerf, i + 1, room - (pieces[i] + kerf), |taken| + 1);
    Regroup(taken, i, rest, Taken(pieces, used, first, limit, kerf, 0, room0, 0));
  }

  /** Moving one position from the head of the rest to the end of the prefix keeps the whole. */
  lemma Regroup(taken: seq<nat>, i: nat, rest: seq<nat>, whole: seq<nat>)
    requires taken + ([i] + rest) == whole
    ensures (taken + [i]) + rest == whole
  {
    assert (taken + [i]) + rest == taken + ([i] + rest);
  }

  /** A position the pass takes heads what it takes from there on. */
  lemma TakenTakes(pieces: seq<int>, used: set<nat>, first: nat, limit: Option<nat>, kerf: int, i: nat, room: int, extra: nat)
    requires i < |pieces| && i !in used && i != first && pieces[i] <= room
    requires !(limit.Some? && extra >= limit.value)
    ensures Taken(pieces, used, first, limit, kerf, i, room, extra)
      == [i] + Taken(pieces, used, first, limit, kerf, i + 1, room - (pieces[i] + kerf), extra + 1)
  {
  }

  /** Taking one more position lowers the room by its piece and one kerf. */
  lemma LeftSnoc(pieces: seq<int>, taken: seq<nat>, i: nat, room: int, kerf: int)
    requires i < |pieces| && forall t :: 0 <= t < |taken| ==> taken[t] < |pieces|
    ensures Left(pieces, taken + [i], room, kerf) == Left(pieces, taken, room, kerf) - (pieces[i] + kerf)
  {
    var s := At(pieces, taken + [i]);
    assert s[..|s| - 1] == At(pieces, taken);
  }

  /** Every piece cut from the bars of a plan, as a multiset. */
  ghost function Cut(bars: seq<PlanBar>): multiset<int>
  {
    if bars == [] then multiset{} else Cut(bars[..|bars| - 1]) + multiset(bars[|bars| - 1].pieces)
  }

  /**
   * A bar as every strategy leaves it: bought from the catalog, holding at
   * least one piece, its remaining space the length less every piece and one
   * kerf per piece, and never below minus one kerf.
   */
  ghost predicate Sound(bar: PlanBar, catalog: seq<int>, kerf: int)
  {
    bar.length in catalog && bar.pieces != [] && bar.remaining >= -kerf &&
    Balanced(bar.length, bar.pieces, bar.remaining, kerf)
  }

  /** Every piece on a bar of the plan is among the pieces the plan cuts. */
  lemma {:induction false} CutHolds(bars: seq<PlanBar>, k: nat, i: nat)
    requires k < |bars| && i < |bars[k].pieces|
    ensures bars[k].pieces[i] in Cut(bars)
  {
    var n := |bars| - 1;
    if k < n {
      assert bars[..n][k] == bars[k];
      CutHolds(bars[..n], k, i);
    } else {
      assert bars[k].pieces[i] in multiset(bars[k].pieces);
    }
  }

  /** Every piece the plan cuts is on one of its bars. */
  lemma {:induction false} CutSource(bars: seq<PlanBar>, x: int) returns (k: nat, i: nat)
    requires x in Cut(bars)
    ensures k < |bars| && i < |bars[k].pieces| && bars[k].pieces[i] == x
  {
    var n := |bars| - 1;
    if x in Cut(bars[..n]) {
      k, i := CutSource(bars[..n], x);
      assert bars[..n][k] == bars[k];
    } else {
      assert x in multiset(bars[n].pieces);
      k := n;
      i :| 0 <= i < |bars[n].pieces| && bars[n].pieces[i] == x;
    }
  }

  /** Each piece together with its kerf fits in the footprint, when no piece with its kerf is negative. */
  lemma {:induction false} FootprintCovers(pieces: seq<int>, kerf: int, i: nat)
    requires i < |pieces| && forall t :: 0 <= t < |pieces| ==> pieces[t] + kerf >= 0
    ensures pieces[i] + kerf <= Footprint(pieces, kerf)
  {
    var n := |pieces| - 1;
    FootprintNonnegative(pieces[..n], kerf);
    if i < n {
      assert pieces[..n][i] == pieces[i];
      FootprintCovers(pieces[..n], kerf, i);
    }
  }

  /** A sound bar is at least as long as each piece on it, when no piece with its kerf is negative. */
  lemma SoundFits(bar: PlanBar, catalog: seq<int>, kerf: int, i: nat)
    requires Sound(bar, catalog, kerf) && i < |bar.pieces|
    requires forall t :: 0 <= t < |bar.pieces| ==> bar.pieces[t] + kerf >= 0
    ensures bar.pieces[i] <= bar.length
  {
    FootprintCovers(bar.pieces, kerf, i);
  }

  /** A plan under construction: the bars hold exactly the pieces at the used positions. */
  ghost predicate Partial(pieces: seq<int>, catalog: seq<int>, kerf: int, bars: seq<PlanBar>, used: set<nat>)
  {
    (forall j :: j in used ==> j < |pieces|) &&
    Cut(bars) == Picked(pieces, used) &&
    forall k :: 0 <= k < |bars| ==> Sound(bars[k], catalog, kerf)
  }

  /** A finished plan: every requested piece is cut exactly once, from a sound bar. */
  ghost predicate Complete(pieces: seq<int>, catalog: seq<int>, kerf: int, bars: seq<PlanBar>)
  {
    Cut(bars) == multiset(pieces) &&
    forall k :: 0 <= k < |bars| ==> Sound(bars[k], catalog, kerf)
  }

  /** Replacing one bar changes the pieces on the plan by what that bar gains and loses. */
  lemma {:induction false} CutUpdate(bars: seq<PlanBar>, k: nat, b: PlanBar)
    requires k < |bars|
    ensures Cut(bars[k := b]) + multiset(bars[k].pieces) == Cut(bars) + multiset(b.pieces)
  {
    var n, bars' := |bars| - 1, bars[k := b];
    if k == n {
      assert bars'[..n] == bars[..n];
      assert Cut(bars') == Cut(bars[..n]) + multiset(b.pieces);
    } else {
      CutUpdate(bars[..n], k, b);
      assert bars[..n][k] == bars[k];
      assert Cut(bars) == Cut(bars[..n]) + multiset(bars[n].pieces);
      assert bars'[..n] == bars[..n][k := b];
      var a, a', c := Cut(bars[..n]), Cut(bars[..n][k := b]), multiset(bars[n].pieces);
      assert Cut(bars') == a' + c;
      MultisetShift(a', a, multiset(bars[k].pieces), multiset(b.pieces), c);
    }
  }

  /**
   * Lines 896-899 (and 981-984, 1032-1035, 1095-1098): the piece is appended
   * to an open bar and its remaining space shrinks by the piece and one kerf.
   */
  function Put(bars: seq<PlanBar>, k: nat, piece: int, kerf: int): (r: seq<PlanBar>)
    requires k < |bars|
    ensures |r| == |bars| && forall q :: 0 <= q < |bars| && q != k ==> r[q] == bars[q]
    ensures r[k].length == bars[k].length && r[k].pieces == bars[k].pieces + [piece]
    ensures r[k].remaining == bars[k].remaining - (piece + kerf)
  {
    bars[k := PlanBar(bars[k].length, bars[k].pieces + [piece], bars[k].remaining - (piece + kerf))]
  }

  /** Putting the first unused piece on an open bar it fits keeps the plan sound. */
  lemma PutKeeps(pieces: seq<int>, catalog: seq<int>, kerf: int, bars: seq<PlanBar>, used: set<nat>,
                 k: nat, first: nat)
    requires Partial(pieces, catalog, kerf, bars, used)
    requires k < |bars| && first < |pieces| && first !in used && pieces[first] <= bars[k].remaining
    ensures Partial(pieces, catalog, kerf, Put(bars, k, pieces[first], kerf), used + {first})
  {
    PutSound(catalog, kerf, bars, k, pieces[first]);
    PutCut(pieces, bars, used, k, first, kerf);
  }

  /** A piece that fits an open sound bar keeps every bar sound. */
  lemma PutSound(catalog: seq<int>, kerf: int, bars: seq<PlanBar>, k: nat, piece: int)
    requires forall q :: 0 <= q < |bars| ==> Sound(bars[q], catalog, kerf)
    requires k < |bars| && piece <= bars[k].remaining
    ensures forall q :: 0 <= q < |bars| ==> Sound(Put(bars, k, piece, kerf)[q], catalog, kerf)
  {
    var bars', b := Put(bars, k, piece, kerf), bars[k];
    assert Sound(bars'[k], catalog, kerf) by {
      assert (b.pieces + [piece])[..|b.pieces|] == b.pieces;
    }
  }

  /** Putting the piece at `first` on an open bar adds exactly that piece to the plan's cuts. */
  lemma PutCut(pieces: seq<int>, bars: seq<PlanBar>, used: set<nat>, k: nat, first: nat, kerf: int)
    requires Cut(bars) == Picked(pieces, used)
    requires k < |bars| && first < |pieces| && first !in used
    ensures Cut(Put(bars, k, pieces[first], kerf)) == Picked(pieces, used + {first})
  {
    var piece, bars' := pieces[first], Put(bars, k, pieces[first], kerf);
    var b := bars[k];
    CutUpdate(bars, k, bars'[k]);
    PickedBelowUnion(pieces, used, {first}, |pieces|);
    PickedBelowSingle(pieces, first, |pieces|);
    var a, a', c := Cut(bars), Cut(bars'), multiset(b.pieces);
    assert multiset(bars'[k].pieces) == c + multiset{piece};
    assert a' + c == (a + multiset{piece}) + c;
    MultisetCancel(a', a + multiset{piece}, c);
  }

  /** Marking the first piece and the pieces the pass took as used picks exactly those pieces more. */
  lemma PickedOpen(pieces: seq<int>, used: set<nat>, first: nat, taken: seq<nat>)
    requires first < |pieces| && first !in used
    requires forall t :: 0 <= t < |taken| ==> taken[t] < |pieces| && taken[t] !in used && taken[t] != first
    requires forall t, u :: 0 <= t < u < |taken| ==> taken[t] < taken[u]
    ensures Picked(pieces, used + {first} + Members(taken))
         == Picked(pieces, used) + multiset([pieces[first]] + At(pieces, taken))
  {
    assert Distinct(taken);
    PickedSeq(pieces, taken);
    assert {first} !! Members(taken);
    assert used !! ({first} + Members(taken));
    PickedBelowUnion(pieces, {first}, Members(taken), |pieces|);
    PickedBelowUnion(pieces, used, {first} + Members(taken), |pieces|);
    PickedBelowSingle(pieces, first, |pieces|);
    assert used + {first} + Members(taken) == used + ({first} + Members(taken));
    assert multiset([pieces[first]] + At(pieces, taken)) == multiset{pieces[first]} + multiset(At(pieces, taken));
  }

  /**
   * Lines 943-948 (and 1002-1007, 1056-1061, 1137-1142): the bar opened for a piece, with
   * the positions the first-fit pass took after it and the room that pass left.
   */
  function Opened(pieces: seq<int>, first: nat, length: int, taken: seq<nat>, kerf: int): (b: PlanBar)
    requires first < |pieces| && forall t :: 0 <= t < |taken| ==> taken[t] < |pieces|
    ensures b.length == length && b.pieces == [pieces[first]] + At(pieces, taken)
    ensures b.remaining == Left(pieces, taken, length - (pieces[first] + kerf), kerf)
  {
    PlanBar(length, [pieces[first]] + At(pieces, taken), Left(pieces, taken, length - (pieces[first] + kerf), kerf))
  }

  /** The opened bar is sound when the first piece fits the catalog length and the pass filled it. */
  lemma OpenedSound(pieces: seq<int>, catalog: seq<int>, kerf: int, used: set<nat>,
                    first: nat, length: int, limit: Option<nat>, taken: seq<nat>)
    requires first < |pieces| && length in catalog && pieces[first] <= length
    requires taken == Taken(pieces, used, first, limit, kerf, 0, length - (pieces[first] + kerf), 0)
    ensures Sound(Opened(pieces, first, length, taken, kerf), catalog, kerf)
  {
    var room := length - (pieces[first] + kerf);
    TakenRoom(pieces, used, first, limit, kerf, 0, room, 0);
    FootprintCons(pieces[first], At(pieces, taken), kerf);
  }

  lemma CutAppend(bars: seq<PlanBar>, bar: PlanBar)
    ensures Cut(bars + [bar]) == Cut(bars) + multiset(bar.pieces)
  {
    assert (bars + [bar])[..|bars|] == bars;
  }

  lemma SoundAppend(bars: seq<PlanBar>, bar: PlanBar, catalog: seq<int>, kerf: int)
    requires forall k :: 0 <= k < |bars| ==> Sound(bars[k], catalog, kerf)
    requires Sound(bar, catalog, kerf)
    ensures forall k :: 0 <= k < |bars + [bar]| ==> Sound((bars + [bar])[k], catalog, kerf)
  {
  }

  /** Adding the first piece and the positions the pass took keeps every used position a position of a piece. */
  lemma MembersBelow(used: set<nat>, first: nat, taken: seq<nat>, n: nat)
    requires forall j :: j in used ==> j < n
    requires first < n && forall t :: 0 <= t < |taken| ==> taken[t] < n
    ensures forall j :: j in used + {first} + Members(taken) ==> j < n
  {
    forall j | j in Members(taken) ensures j < n {
      var t :| 0 <= t < |taken| && taken[t] == j;
    }
  }

  /**
   * Opening a catalog bar for the first unused piece and filling it by the
   * first-fit pass keeps the plan sound.
   */
  lemma OpenKeeps(pieces: seq<int>, catalog: seq<int>, kerf: int, bars: seq<PlanBar>, used: set<nat>,
                  first: nat, length: int, limit: Option<nat>, taken: seq<nat>)
    requires Partial(pieces, catalog, kerf, bars, used)
    requires first < |pieces| && first !in used && length in catalog && pieces[first] <= length
    requires taken == Taken(pieces, used, first, limit, kerf, 0, length - (pieces[first] + kerf), 0)
    ensures Partial(pieces, catalog, kerf, bars + [Opened(pieces, first, length, taken, kerf)],
                    used + {first} + Members(taken))
  {
    var bar := Opened(pieces, first, length, taken, kerf);
    OpenedCut(pieces, bars, used, first, length, limit, kerf, taken);
    MembersBelow(used, first, taken, |pieces|);
    OpenedSound(pieces, catalog, kerf, used, first, length, limit, taken);
    SoundAppend(bars, bar, catalog, kerf);
  }

  lemma OpenedCut(pieces: seq<int>, bars: seq<PlanBar>, used: set<nat>, first: nat, length: int, limit: Option<nat>,
                  kerf: int, taken: seq<nat>)
    requires Cut(bars) == Picked(pieces, used)
    requires first < |pieces| && first !in used
    requires taken == Taken(pieces, used, first, limit, kerf, 0, length - (pieces[first] + kerf), 0)
    ensures Cut(bars + [Opened(pieces, first, length, taken, kerf)]) == Picked(pieces, used + {first} + Members(taken))
  {
    var t := TakenPositions(pieces, used, first, limit, kerf, 0, length - (pieces[first] + kerf), 0);
    PickedOpen(pieces, used, first, taken);
    CutAppend(bars, Opened(pieces, first, length, taken, kerf));
  }
}
