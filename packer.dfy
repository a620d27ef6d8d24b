/**
 * The fixed-stock packer, `OttimizzatoreTaglio.ottimizza`: pieces are put,
 * one by one in a shuffled longest-first order, on a randomly chosen open bar
 * that still has room, or else on the shortest bar of a finite pool that is
 * long enough.
 *
 * Python's global random generator is replaced by an explicit stream of
 * draws: `Below(draws, pos, n)` plays the part of `random._randbelow(n)`, so
 * that every choice the program can make is made by some stream, and every
 * property below holds for all streams.
 */
module Packer {
  import opened Wrappers
  import opened Seqs
  import opened Cutting

  /** One bar in use: the dict with keys lunghezza, tagli, spazio_rimanente, num_tagli, sfrido. */
  datatype Bar = Bar(length: int, cuts: seq<int>, remaining: int, numCuts: nat, waste: int)

  /** The two `ValueError`s raised when a piece fits nowhere. */
  datatype PackError =
    | StockExhausted(piece: int)                 // the pool is empty
    | NoBarLongEnough(piece: int, longest: int)  // the pool holds only shorter bars

  /** The packing state between two pieces: bars in use, unused pool, position in the draws. */
  datatype Pack = Pack(bars: seq<Bar>, pool: seq<int>, pos: nat)

  /** `random._randbelow(n)` read off the draw stream (0 once the stream is spent). */
  function Below(draws: seq<nat>, pos: nat, n: nat): (k: nat)
    requires n > 0
    ensures k < n
  {
    if pos < |draws| then draws[pos] % n else 0
  }

  /** `random.shuffle(a)` as CPython runs it: Fisher-Yates from the back, in place. */
  method Shuffle(a: array<int>, draws: seq<nat>, pos: nat) returns (next: nat)
    modifies a
    ensures multiset(a[..]) == old(multiset(a[..]))
    ensures next == pos + (if a.Length > 0 then a.Length - 1 else 0)
  {
    next := pos;
    var i := a.Length - 1;
    while i > 0
      invariant -1 <= i < a.Length
      invariant a.Length > 0 ==> 0 <= i
      invariant next == pos + (a.Length - 1 - i)
      invariant multiset(a[..]) == old(multiset(a[..]))
    {
      var j := Below(draws, next, i + 1);
      next := next + 1;
      a[i], a[j] := a[j], a[i];
      i := i - 1;
    }
  }

  /**
   * `pezzi_per_lunghezza`: the pieces grouped by length, and its keys in
   * insertion order.
   */
  method GroupByLength(pieces: seq<int>) returns (groups: map<int, seq<int>>, keys: seq<int>)
    ensures forall l :: l in groups <==> l in pieces
    ensures forall l :: l in groups ==> groups[l] == Repeat(l, multiset(pieces)[l])
    ensures Distinct(keys)
    ensures forall l :: l in keys <==> l in groups
  {
    groups, keys := map[], [];
    for t := 0 to |pieces|
      invariant forall l :: l in groups <==> l in pieces[..t]
      invariant forall l :: l in groups ==> groups[l] == Repeat(l, multiset(pieces[..t])[l])
      invariant Distinct(keys)
      invariant forall l :: l in keys <==> l in groups
    {
      var p := pieces[t];
      PrefixStep(pieces, t);
      if p !in groups {
        groups := groups[p := []];
        keys := keys + [p];
      }
      groups := groups[p := groups[p] + [p]];
    }
    assert pieces[..|pieces|] == pieces;
  }

  /** Distinct lengths, longest first. */
  ghost predicate StrictlyDescending(s: seq<int>)
  {
    forall u, w :: 0 <= u < w < |s| ==> s[u] > s[w]
  }

  /**
   * The shape of the processing order: `cluster[p]` numbers the cluster that
   * the piece at position p belongs to, and `anchors[c]` is the longest length
   * of cluster c, against which membership was tested.
   */
  ghost predicate ClusterShape(order: seq<int>, cluster: seq<nat>, anchors: seq<int>)
  {
    && |cluster| == |order|
    && WithinAnchors(order, cluster, anchors)
    && Consecutive(cluster)
    && Separated(order, cluster)
    && Maximal(anchors)
    && Witnessed(order, cluster, anchors)
  }

  /** Every piece is its cluster's anchor, or shorter and at least 90% of it. */
  ghost predicate WithinAnchors(order: seq<int>, cluster: seq<nat>, anchors: seq<int>)
    requires |cluster| == |order|
  {
    forall p :: 0 <= p < |order| ==>
      && cluster[p] < |anchors|
      && order[p] <= anchors[cluster[p]]
      && (order[p] == anchors[cluster[p]] || 9 * anchors[cluster[p]] <= 10 * order[p])
  }

  /** The clusters come one after the other. */
  ghost predicate Consecutive(cluster: seq<nat>)
  {
    forall p, q :: 0 <= p < q < |cluster| ==> cluster[p] <= cluster[q]
  }

  /** Any piece of an earlier cluster is longer than any piece of a later one. */
  ghost predicate Separated(order: seq<int>, cluster: seq<nat>)
    requires |cluster| == |order|
  {
    forall p, q :: 0 <= p < q < |order| && cluster[p] < cluster[q] ==> order[p] > order[q]
  }

  /** Clusters are as large as the test allows: each anchor is below 90% of the previous one. */
  ghost predicate Maximal(anchors: seq<int>)
  {
    forall c, d :: 0 <= c < d < |anchors| && d == c + 1 ==> 10 * anchors[d] < 9 * anchors[c]
  }

  /** Every anchor is a piece of its own cluster. */
  ghost predicate Witnessed(order: seq<int>, cluster: seq<nat>, anchors: seq<int>)
    requires |cluster| == |order|
  {
    forall c :: 0 <= c < |anchors| ==> HasPiece(order, cluster, c, anchors[c])
  }

  /** Some piece of cluster c has length a. */
  ghost predicate HasPiece(order: seq<int>, cluster: seq<nat>, c: nat, a: int)
    requires |cluster| == |order|
  {
    exists p :: 0 <= p < |order| && cluster[p] == c && order[p] == a
  }

  lemma WithinAnchorsExtend(order: seq<int>, cluster: seq<nat>, anchors: seq<int>, seg: seq<int>, a: int)
    requires |cluster| == |order| && WithinAnchors(order, cluster, anchors)
    requires forall p :: 0 <= p < |seg| ==> seg[p] <= a && (seg[p] == a || 9 * a <= 10 * seg[p])
    ensures WithinAnchors(order + seg, cluster + Repeat(|anchors|, |seg|), anchors + [a])
  {
    var order', cluster', anchors' := order + seg, cluster + Repeat(|anchors|, |seg|), anchors + [a];
    forall p | 0 <= p < |order'|
      ensures cluster'[p] < |anchors'| && order'[p] <= anchors'[cluster'[p]]
      ensures order'[p] == anchors'[cluster'[p]] || 9 * anchors'[cluster'[p]] <= 10 * order'[p]
    {
      if p < |order| {
        assert order'[p] == order[p] && cluster'[p] == cluster[p];
        assert anchors'[cluster[p]] == anchors[cluster[p]];
      } else {
        assert order'[p] == seg[p - |order|] && cluster'[p] == |anchors|;
      }
    }
  }

  lemma ConsecutiveExtend(cluster: seq<nat>, c: nat, n: nat)
    requires Consecutive(cluster)
    requires forall p :: 0 <= p < |cluster| ==> cluster[p] < c
    ensures Consecutive(cluster + Repeat(c, n))
  {
    var cluster' := cluster + Repeat(c, n);
    forall p, q | 0 <= p < q < |cluster'| ensures cluster'[p] <= cluster'[q] {
      if q < |cluster| {
        assert cluster'[p] == cluster[p] && cluster'[q] == cluster[q];
      } else if p < |cluster| {
        assert cluster'[p] == cluster[p];
      }
    }
  }

  lemma SeparatedExtend(order: seq<int>, cluster: seq<nat>, seg: seq<int>, c: nat, a: int)
    requires |cluster| == |order| && Separated(order, cluster)
    requires forall p :: 0 <= p < |cluster| ==> cluster[p] < c
    requires forall p :: 0 <= p < |order| ==> order[p] > a
    requires forall p :: 0 <= p < |seg| ==> seg[p] <= a
    ensures Separated(order + seg, cluster + Repeat(c, |seg|))
  {
    var order', cluster' := order + seg, cluster + Repeat(c, |seg|);
    forall p, q | 0 <= p < q < |order'| && cluster'[p] < cluster'[q] ensures order'[p] > order'[q] {
      if q < |order| {
        assert order'[p] == order[p] && cluster'[p] == cluster[p];
        assert order'[q] == order[q] && cluster'[q] == cluster[q];
      } else if p < |order| {
        assert order'[p] == order[p] && order'[q] == seg[q - |order|];
      }
    }
  }

  lemma MaximalExtend(anchors: seq<int>, a: int)
    requires Maximal(anchors)
    requires |anchors| > 0 ==> 10 * a < 9 * anchors[|anchors| - 1]
    ensures Maximal(anchors + [a])
  {
    var anchors' := anchors + [a];
    forall c, d | 0 <= c < d < |anchors'| && d == c + 1 ensures 10 * anchors'[d] < 9 * anchors'[c] {
      assert anchors'[c] == anchors[c];
      if d < |anchors| {
        assert anchors'[d] == anchors[d];
      }
    }
  }

  lemma WitnessedExtend(order: seq<int>, cluster: seq<nat>, anchors: seq<int>, seg: seq<int>, a: int, w: nat)
    requires |cluster| == |order| && Witnessed(order, cluster, anchors)
    requires w < |seg| && seg[w] == a
    ensures Witnessed(order + seg, cluster + Repeat(|anchors|, |seg|), anchors + [a])
  {
    var more := Repeat(|anchors|, |seg|);
    WitnessedKeep(order, cluster, anchors, seg, more);
    HasPieceNew(order, cluster, seg, more, |anchors|, w);
    var anchors' := anchors + [a];
    forall k | 0 <= k < |anchors'| ensures HasPiece(order + seg, cluster + more, k, anchors'[k]) {
      if k < |anchors| {
        assert anchors'[k] == anchors[k];
      }
    }
  }

  /** The clusters already witnessed stay witnessed when more pieces are appended. */
  lemma WitnessedKeep(order: seq<int>, cluster: seq<nat>, anchors: seq<int>, seg: seq<int>, more: seq<nat>)
    requires |cluster| == |order| && |more| == |seg| && Witnessed(order, cluster, anchors)
    ensures forall k :: 0 <= k < |anchors| ==> HasPiece(order + seg, cluster + more, k, anchors[k])
  {
    forall k | 0 <= k < |anchors| ensures HasPiece(order + seg, cluster + more, k, anchors[k]) {
      HasPieceExtend(order, cluster, seg, more, k, anchors[k]);
    }
  }

  /** The appended cluster is witnessed by its piece at w. */
  lemma HasPieceNew(order: seq<int>, cluster: seq<nat>, seg: seq<int>, more: seq<nat>, c: nat, w: nat)
    requires |cluster| == |order| && |more| == |seg| && w < |seg| && more[w] == c
    ensures HasPiece(order + seg, cluster + more, c, seg[w])
  {
    var p := |order| + w;
    assert (cluster + more)[p] == more[w] && (order + seg)[p] == seg[w];
  }

  /** A piece of a cluster stays one when more pieces are appended. */
  lemma HasPieceExtend(order: seq<int>, cluster: seq<nat>, seg: seq<int>, more: seq<nat>, c: nat, a: int)
    requires |cluster| == |order| && |more| == |seg| && HasPiece(order, cluster, c, a)
    ensures HasPiece(order + seg, cluster + more, c, a)
  {
    var p :| 0 <= p < |order| && cluster[p] == c && order[p] == a;
    assert (cluster + more)[p] == c && (order + seg)[p] == a;
  }

  /** Appending one more cluster, all of whose pieces are shorter than what came before. */
  lemma ClusterShapeExtend(order: seq<int>, cluster: seq<nat>, anchors: seq<int>, seg: seq<int>, a: int)
    requires ClusterShape(order, cluster, anchors)
    requires forall p :: 0 <= p < |order| ==> order[p] > a
    requires |anchors| > 0 ==> 10 * a < 9 * anchors[|anchors| - 1]
    requires forall p :: 0 <= p < |seg| ==> seg[p] <= a && (seg[p] == a || 9 * a <= 10 * seg[p])
    requires a in seg
    ensures ClusterShape(order + seg, cluster + Repeat(|anchors|, |seg|), anchors + [a])
  {
    WithinAnchorsExtend(order, cluster, anchors, seg, a);
    ConsecutiveExtend(cluster, |anchors|, |seg|);
    SeparatedExtend(order, cluster, seg, |anchors|, a);
    MaximalExtend(anchors, a);
    var w :| 0 <= w < |seg| && seg[w] == a;
    WitnessedExtend(order, cluster, anchors, seg, a, w);
  }

  /**
   * Lines 60-64: the cluster that starts at lengths[i] runs up to the first
   * length below 90% of lengths[i], tested against the anchor only.
   */
  method ClusterExtent(lengths: seq<int>, i: nat) returns (j: nat)
    requires i < |lengths|
    ensures i < j <= |lengths|
    ensures forall k :: i < k < j ==> 9 * lengths[i] <= 10 * lengths[k]
    ensures j < |lengths| ==> 10 * lengths[j] < 9 * lengths[i]
  {
    j := i + 1;
    while j < |lengths| && 10 * lengths[j] >= 9 * lengths[i]
      invariant i < j <= |lengths|
      invariant forall k :: i < k < j ==> 9 * lengths[i] <= 10 * lengths[k]
    {
      j := j + 1;
    }
  }

  /** Lines 70-71: every piece of each length of the shuffled cluster, in the cluster's new order. */
  method EmitCluster(groups: map<int, seq<int>>, a: array<int>, ghost count: multiset<int>)
    returns (seg: seq<int>)
    requires forall v :: v in a[..] ==> v in groups && groups[v] == Repeat(v, count[v])
    requires Distinct(a[..])
    ensures forall x :: multiset(seg)[x] == if x in a[..] then count[x] else 0
    ensures forall p :: 0 <= p < |seg| ==> seg[p] in a[..]
    ensures forall v :: v in a[..] && count[v] > 0 ==> v in seg
    ensures Contiguous(seg)
  {
    seg := [];
    for t := 0 to a.Length
      invariant forall x :: multiset(seg)[x] == if x in a[..t] then count[x] else 0
      invariant forall p :: 0 <= p < |seg| ==> seg[p] in a[..t]
      invariant forall v :: v in a[..t] && count[v] > 0 ==> v in seg
      invariant Contiguous(seg)
    {
      assert a[..][t] == a[t];
      EmitStep(groups, a[..], t, count, seg);
      EmitRuns(groups, a[..], t, count, seg);
      seg := seg + groups[a[t]];
    }
    assert a[..a.Length] == a[..];
  }

  /** Appending the group of the next anchor-cluster length keeps EmitCluster's invariants. */
  lemma EmitStep(groups: map<int, seq<int>>, s: seq<int>, t: nat, count: multiset<int>, seg: seq<int>)
    requires t < |s| && Distinct(s)
    requires s[t] in groups && groups[s[t]] == Repeat(s[t], count[s[t]])
    requires forall x :: multiset(seg)[x] == if x in s[..t] then count[x] else 0
    requires forall p :: 0 <= p < |seg| ==> seg[p] in s[..t]
    requires forall v :: v in s[..t] && count[v] > 0 ==> v in seg
    ensures forall x :: multiset(seg + groups[s[t]])[x] == if x in s[..t + 1] then count[x] else 0
    ensures forall p :: 0 <= p < |seg + groups[s[t]]| ==> (seg + groups[s[t]])[p] in s[..t + 1]
    ensures forall v :: v in s[..t + 1] && count[v] > 0 ==> v in seg + groups[s[t]]
  {
    var l := s[t];
    PrefixStep(s, t);
    assert forall u :: 0 <= u < t ==> s[..t][u] == s[u] != l;
    forall x ensures multiset(seg + groups[l])[x] == if x in s[..t + 1] then count[x] else 0 {
      RepeatCount(l, count[l], x);
    }
    assert count[l] > 0 ==> l == groups[l][0];
  }

  /** The group appended next holds a length not emitted yet, so the copies of each length stay together. */
  lemma EmitRuns(groups: map<int, seq<int>>, s: seq<int>, t: nat, count: multiset<int>, seg: seq<int>)
    requires t < |s| && Distinct(s)
    requires s[t] in groups && groups[s[t]] == Repeat(s[t], count[s[t]])
    requires forall p :: 0 <= p < |seg| ==> seg[p] in s[..t]
    requires Contiguous(seg)
    ensures Contiguous(seg + groups[s[t]])
  {
    var l := s[t];
    assert forall u :: 0 <= u < t ==> s[..t][u] == s[u] != l;
    ContiguousAppend(seg, groups[l]);
  }

  /** What a member of the cluster lengths[i..j] is, given that lengths strictly decrease. */
  lemma ClusterMember(lengths: seq<int>, i: nat, j: nat, v: int)
    requires i < j <= |lengths|
    requires StrictlyDescending(lengths)
    requires forall k :: i < k < j ==> 9 * lengths[i] <= 10 * lengths[k]
    requires v in lengths[i..j]
    ensures v !in lengths[..i] && v <= lengths[i] && (v == lengths[i] || 9 * lengths[i] <= 10 * v)
    ensures j < |lengths| ==> v > lengths[j]
  {
    var k :| 0 <= k < j - i && lengths[i..j][k] == v;
    assert lengths[i + k] == v;
  }

  /**
   * seg holds every piece whose length is in the cluster lengths[i..j], which
   * is as long as the 90% test allows, and nothing else.
   */
  ghost predicate ClusterEmitted(lengths: seq<int>, i: nat, j: nat, count: multiset<int>, seg: seq<int>)
  {
    && i < j <= |lengths|
    && (j < |lengths| ==> 10 * lengths[j] < 9 * lengths[i])
    && (forall x :: multiset(seg)[x] == if x in lengths[i..j] then count[x] else 0)
    && (forall p :: 0 <= p < |seg| ==>
          && seg[p] <= lengths[i]
          && (seg[p] == lengths[i] || 9 * lengths[i] <= 10 * seg[p])
          && (j < |lengths| ==> seg[p] > lengths[j]))
    && lengths[i] in seg
  }

  /** Lines 59-71: one cluster, from its anchor lengths[i], shuffled and emitted. */
  method NextCluster(lengths: seq<int>, i: nat, groups: map<int, seq<int>>, ghost count: multiset<int>,
                     draws: seq<nat>, pos: nat)
    returns (seg: seq<int>, j: nat, next: nat)
    requires i < |lengths| && StrictlyDescending(lengths)
    requires forall v :: v in lengths ==> v in groups && groups[v] == Repeat(v, count[v]) && count[v] > 0
    ensures ClusterEmitted(lengths, i, j, count, seg)
    ensures forall k :: i < k < j ==> 9 * lengths[i] <= 10 * lengths[k]
    ensures Contiguous(seg)
    ensures next >= pos
  {
    j := ClusterExtent(lengths, i);
    var group := lengths[i..j];
    var a := new int[|group|](k requires 0 <= k < |group| => group[k]);
    assert a[..] == group;
    next := Shuffle(a, draws, pos);
    ShuffledCluster(lengths, i, j, groups, count, a[..]);
    seg := EmitCluster(groups, a, count);
    EmittedCluster(lengths, i, j, count, a[..], seg);
  }

  /** A rearrangement of the cluster lengths[i..j] is duplicate-free and has its groups. */
  lemma ShuffledCluster(lengths: seq<int>, i: nat, j: nat, groups: map<int, seq<int>>, count: multiset<int>,
                        s: seq<int>)
    requires i < j <= |lengths| && StrictlyDescending(lengths)
    requires forall v :: v in lengths ==> v in groups && groups[v] == Repeat(v, count[v]) && count[v] > 0
    requires multiset(s) == multiset(lengths[i..j])
    ensures Distinct(s)
    ensures forall v :: v in s ==> v in groups && groups[v] == Repeat(v, count[v])
  {
    var group := lengths[i..j];
    assert Distinct(s) by {
      DistinctMultiplicity(group);
      DistinctMultiplicity(s);
      assert Distinct(group);
    }
    forall v | v in s ensures v in groups && groups[v] == Repeat(v, count[v]) {
      assert v in multiset(s);
      assert v in group;
    }
  }

  /** What EmitCluster returns for a rearrangement of lengths[i..j] is the emitted cluster. */
  lemma EmittedCluster(lengths: seq<int>, i: nat, j: nat, count: multiset<int>, s: seq<int>, seg: seq<int>)
    requires i < j <= |lengths| && StrictlyDescending(lengths)
    requires forall k :: i < k < j ==> 9 * lengths[i] <= 10 * lengths[k]
    requires j < |lengths| ==> 10 * lengths[j] < 9 * lengths[i]
    requires forall v :: v in lengths ==> count[v] > 0
    requires multiset(s) == multiset(lengths[i..j])
    requires forall x :: multiset(seg)[x] == if x in s then count[x] else 0
    requires forall p :: 0 <= p < |seg| ==> seg[p] in s
    requires forall v :: v in s && count[v] > 0 ==> v in seg
    ensures ClusterEmitted(lengths, i, j, count, seg)
  {
    var group := lengths[i..j];
    forall x ensures x in s <==> x in group {
      assert x in s <==> x in multiset(s);
      assert x in group <==> x in multiset(group);
    }
    forall p | 0 <= p < |seg|
      ensures seg[p] <= lengths[i] && (seg[p] == lengths[i] || 9 * lengths[i] <= 10 * seg[p])
      ensures j < |lengths| ==> seg[p] > lengths[j]
    {
      ClusterMember(lengths, i, j, seg[p]);
    }
    assert lengths[i] == group[0];
  }

  /** What the placement order built so far is, once the clusters before lengths[i] are emitted. */
  ghost predicate OrderSoFar(order: seq<int>, cluster: seq<nat>, anchors: seq<int>, lengths: seq<int>, i: nat,
                             count: multiset<int>)
  {
    && i <= |lengths|
    && (forall x :: multiset(order)[x] == if x in lengths[..i] then count[x] else 0)
    && ClusterShape(order, cluster, anchors)
    && (forall p :: 0 <= p < |cluster| ==> cluster[p] < |anchors|)
    && (i < |lengths| ==> forall p :: 0 <= p < |order| ==> order[p] > lengths[i])
    && (i < |lengths| && |anchors| > 0 ==> 10 * lengths[i] < 9 * anchors[|anchors| - 1])
  }

  /** OrderSoFar apart from the cluster shape: which pieces are in, and what bounds the rest. */
  ghost predicate OrderFacts(order: seq<int>, cluster: seq<nat>, anchors: seq<int>, lengths: seq<int>, i: nat,
                             count: multiset<int>)
  {
    && i <= |lengths|
    && (forall x :: multiset(order)[x] == if x in lengths[..i] then count[x] else 0)
    && (forall p :: 0 <= p < |cluster| ==> cluster[p] < |anchors|)
    && (i < |lengths| ==> forall p :: 0 <= p < |order| ==> order[p] > lengths[i])
    && (i < |lengths| && |anchors| > 0 ==> 10 * lengths[i] < 9 * anchors[|anchors| - 1])
  }

  /** Emitting the cluster lengths[i..j] keeps OrderSoFar and the cluster shape. */
  lemma OrderStep(order: seq<int>, cluster: seq<nat>, anchors: seq<int>, lengths: seq<int>,
                  i: nat, j: nat, count: multiset<int>, seg: seq<int>)
    returns (cluster': seq<nat>, anchors': seq<int>)
    requires StrictlyDescending(lengths)
    requires OrderSoFar(order, cluster, anchors, lengths, i, count)
    requires ClusterEmitted(lengths, i, j, count, seg)
    requires forall k :: i < k < j ==> 9 * lengths[i] <= 10 * lengths[k]
    ensures OrderSoFar(order + seg, cluster', anchors', lengths, j, count)
  {
    OrderKept(order, cluster, anchors, lengths, i, j, count, seg);
    ShapeStep(order, cluster, anchors, lengths, i, j, count, seg);
    cluster', anchors' := cluster + Repeat(|anchors|, |seg|), anchors + [lengths[i]];
  }

  /** Emitting the cluster lengths[i..j] keeps OrderFacts. */
  lemma OrderKept(order: seq<int>, cluster: seq<nat>, anchors: seq<int>, lengths: seq<int>,
                  i: nat, j: nat, count: multiset<int>, seg: seq<int>)
    requires StrictlyDescending(lengths)
    requires OrderFacts(order, cluster, anchors, lengths, i, count)
    requires ClusterEmitted(lengths, i, j, count, seg)
    requires forall k :: i < k < j ==> 9 * lengths[i] <= 10 * lengths[k]
    ensures OrderFacts(order + seg, cluster + Repeat(|anchors|, |seg|), anchors + [lengths[i]], lengths, j, count)
  {
    OrderKeptFrom(order, cluster, anchors, lengths, i, j, count, seg);
  }

  /** OrderKept, from the facts it uses. */
  lemma OrderKeptFrom(order: seq<int>, cluster: seq<nat>, anchors: seq<int>, lengths: seq<int>,
                      i: nat, j: nat, count: multiset<int>, seg: seq<int>)
    requires StrictlyDescending(lengths) && i < j <= |lengths|
    requires forall x :: multiset(order)[x] == if x in lengths[..i] then count[x] else 0
    requires forall x :: multiset(seg)[x] == if x in lengths[i..j] then count[x] else 0
    requires forall p :: 0 <= p < |cluster| ==> cluster[p] < |anchors|
    requires forall p :: 0 <= p < |order| ==> order[p] > lengths[i]
    requires j < |lengths| ==> 10 * lengths[j] < 9 * lengths[i]
    requires j < |lengths| ==> forall p :: 0 <= p < |seg| ==> seg[p] > lengths[j]
    requires forall k :: i < k < j ==> 9 * lengths[i] <= 10 * lengths[k]
    ensures OrderFacts(order + seg, cluster + Repeat(|anchors|, |seg|), anchors + [lengths[i]], lengths, j, count)
  {
    OrderStepCounts(order, lengths, i, j, count, seg);
    IndicesBelow(cluster, |anchors|, |seg|);
    if j < |lengths| {
      assert lengths[i] > lengths[j];
      AllAbove(order, seg, lengths[j]);
    }
  }

  /** Emitting the cluster lengths[i..j] keeps the cluster shape. */
  lemma ShapeStep(order: seq<int>, cluster: seq<nat>, anchors: seq<int>, lengths: seq<int>,
                  i: nat, j: nat, count: multiset<int>, seg: seq<int>)
    requires OrderFacts(order, cluster, anchors, lengths, i, count)
    requires ClusterShape(order, cluster, anchors)
    requires ClusterEmitted(lengths, i, j, count, seg)
    ensures ClusterShape(order + seg, cluster + Repeat(|anchors|, |seg|), anchors + [lengths[i]])
  {
    ClusterShapeExtend(order, cluster, anchors, seg, lengths[i]);
  }

  /** Appending cluster indices |anchors| keeps every index below the new anchor count. */
  lemma IndicesBelow(cluster: seq<nat>, n: nat, m: nat)
    requires forall p :: 0 <= p < |cluster| ==> cluster[p] < n
    ensures forall p :: 0 <= p < |cluster + Repeat(n, m)| ==> (cluster + Repeat(n, m))[p] < n + 1
  {
    var c := cluster + Repeat(n, m);
    forall p | 0 <= p < |c| ensures c[p] < n + 1 {
      if p < |cluster| {
        assert c[p] == cluster[p];
      }
    }
  }

  /** Two sequences above a bound concatenate to one above it. */
  lemma AllAbove(order: seq<int>, seg: seq<int>, b: int)
    requires forall p :: 0 <= p < |order| ==> order[p] > b
    requires forall p :: 0 <= p < |seg| ==> seg[p] > b
    ensures forall p :: 0 <= p < |order + seg| ==> (order + seg)[p] > b
  {
    forall p | 0 <= p < |order + seg| ensures (order + seg)[p] > b {
      if p >= |order| {
        assert (order + seg)[p] == seg[p - |order|];
      }
    }
  }

  lemma OrderStepCounts(order: seq<int>, lengths: seq<int>, i: nat, j: nat, count: multiset<int>, seg: seq<int>)
    requires StrictlyDescending(lengths)
    requires i < j <= |lengths|
    requires forall k :: i < k < j ==> 9 * lengths[i] <= 10 * lengths[k]
    requires forall x :: multiset(order)[x] == if x in lengths[..i] then count[x] else 0
    requires forall x :: multiset(seg)[x] == if x in lengths[i..j] then count[x] else 0
    ensures forall x :: multiset(order + seg)[x] == if x in lengths[..j] then count[x] else 0
  {
    assert lengths[..j] == lengths[..i] + lengths[i..j];
    forall x ensures multiset(order + seg)[x] == if x in lengths[..j] then count[x] else 0 {
      if x in lengths[i..j] {
        ClusterMember(lengths, i, j, x);
      }
    }
  }

  /** Once every length is emitted, the order holds exactly the pieces. */
  lemma OrderDone(order: seq<int>, lengths: seq<int>, count: multiset<int>)
    requires forall x :: multiset(order)[x] == if x in lengths[..|lengths|] then count[x] else 0
    requires forall x :: x in lengths <==> x in count
    ensures multiset(order) == count
  {
    assert lengths[..|lengths|] == lengths;
    forall x ensures multiset(order)[x] == count[x] {
      if x !in lengths {
        assert x !in count;
      }
    }
  }

  /** Lines 46-56: the pieces grouped by length, and their distinct lengths, longest first. */
  method DistinctLengths(pieces: seq<int>) returns (groups: map<int, seq<int>>, lengths: seq<int>)
    ensures StrictlyDescending(lengths)
    ensures forall x :: x in lengths <==> x in multiset(pieces)
    ensures forall x :: x in lengths ==>
              x in groups && groups[x] == Repeat(x, multiset(pieces)[x]) && multiset(pieces)[x] > 0
  {
    var keys;
    groups, keys := GroupByLength(pieces);
    lengths := SortDesc(keys);
    assert StrictlyDescending(lengths) by {
      DistinctMultiplicity(keys);
      DistinctMultiplicity(lengths);
    }
    forall x ensures x in lengths <==> x in multiset(pieces) {
      assert x in lengths <==> x in multiset(lengths);
      assert x in keys <==> x in multiset(keys);
    }
  }

  /**
   * Lines 46-73: the order in which pieces are placed. Distinct lengths are
   * taken longest first and cut into clusters (an anchor and every following
   * length of at least 90% of it); each cluster is shuffled and emitted with all
   * pieces of each of its lengths.
   */
  method ProcessingOrder(pieces: seq<int>, draws: seq<nat>, pos: nat)
    returns (order: seq<int>, next: nat, ghost cluster: seq<nat>, ghost anchors: seq<int>)
    ensures multiset(order) == multiset(pieces)
    ensures ClusterShape(order, cluster, anchors)
    // all pieces of one length are placed one after another
    ensures Contiguous(order)
    ensures next >= pos
  {
    var groups, lengths := DistinctLengths(pieces);
    order, next, cluster, anchors := [], pos, [], [];
    var i := 0;
    while i < |lengths|
      invariant next >= pos
      invariant OrderSoFar(order, cluster, anchors, lengths, i, multiset(pieces))
      invariant Contiguous(order)
      decreases |lengths| - i
    {
      var seg, j;
      seg, j, next := NextCluster(lengths, i, groups, multiset(pieces), draws, next);
      OrderRuns(order, seg, lengths, i, j, multiset(pieces));
      cluster, anchors := OrderStep(order, cluster, anchors, lengths, i, j, multiset(pieces), seg);
      order := order + seg;
      i := j;
    }
    OrderDone(order, lengths, multiset(pieces));
  }

  /** The lengths of the next cluster are all shorter than those already emitted, so runs stay together. */
  lemma OrderRuns(order: seq<int>, seg: seq<int>, lengths: seq<int>, i: nat, j: nat, count: multiset<int>)
    requires StrictlyDescending(lengths) && i < j <= |lengths|
    requires forall x :: multiset(order)[x] == if x in lengths[..i] then count[x] else 0
    requires forall x :: multiset(seg)[x] == if x in lengths[i..j] then count[x] else 0
    requires Contiguous(order) && Contiguous(seg)
    ensures Contiguous(order + seg)
  {
    forall p, q | 0 <= p < |order| && 0 <= q < |seg| ensures order[p] != seg[q] {
      assert order[p] in multiset(order) && seg[q] in multiset(seg);
      var u :| 0 <= u < i && lengths[..i][u] == order[p];
      var w :| 0 <= w < j - i && lengths[i..j][w] == seg[q];
      assert lengths[u] > lengths[i + w];
    }
    ContiguousAppend(order, seg);
  }

  /** A bar still being filled: kerf-balanced, overrun by at most one kerf, never empty. */
  ghost predicate Open(b: Bar, kerf: int)
  {
    && Balanced(b.length, b.cuts, b.remaining, kerf)
    && b.remaining >= -kerf
    && b.numCuts == |b.cuts|
    && b.cuts != []
    && b.waste == 0
  }

  /** A returned bar: as Open, with its waste set to what remains (lines 142-143). */
  ghost predicate Finished(b: Bar, kerf: int)
  {
    && Balanced(b.length, b.cuts, b.remaining, kerf)
    && b.remaining >= -kerf
    && b.numCuts == |b.cuts|
    && b.cuts != []
    && b.waste == b.remaining
  }

  /** Every piece on every bar, as a multiset. */
  ghost function AllCuts(bars: seq<Bar>): multiset<int>
  {
    if bars == [] then multiset{} else AllCuts(bars[..|bars| - 1]) + multiset(bars[|bars| - 1].cuts)
  }

  /** Replacing one bar changes the pieces on the bars by what that bar gains and loses. */
  lemma {:induction false} AllCutsUpdate(bars: seq<Bar>, k: nat, b: Bar)
    requires k < |bars|
    ensures AllCuts(bars[k := b]) + multiset(bars[k].cuts) == AllCuts(bars) + multiset(b.cuts)
  {
    var n, bars' := |bars| - 1, bars[k := b];
    if k == n {
      assert bars'[..n] == bars[..n];
      assert AllCuts(bars') == AllCuts(bars[..n]) + multiset(b.cuts);
    } else {
      AllCutsUpdate(bars[..n], k, b);
      assert bars[..n][k] == bars[k];
      assert AllCuts(bars) == AllCuts(bars[..n]) + multiset(bars[n].cuts);
      assert bars'[..n] == bars[..n][k := b];
      var a, a', c := AllCuts(bars[..n]), AllCuts(bars[..n][k := b]), multiset(bars[n].cuts);
      assert AllCuts(bars') == a' + c;
      MultisetShift(a', a, multiset(bars[k].cuts), multiset(b.cuts), c);
    }
  }

  /** Bars whose cut lists agree carry the same pieces. */
  lemma {:induction false} AllCutsSameCuts(bars: seq<Bar>, bars': seq<Bar>)
    requires |bars| == |bars'|
    requires forall k :: 0 <= k < |bars| ==> bars[k].cuts == bars'[k].cuts
    ensures AllCuts(bars) == AllCuts(bars')
  {
    if bars != [] {
      AllCutsSameCuts(bars[..|bars| - 1], bars'[..|bars| - 1]);
    }
  }

  /** The lengths of the bars in use, one per bar. */
  function Lengths(bars: seq<Bar>): (r: seq<int>)
    ensures |r| == |bars| && forall k :: 0 <= k < |bars| ==> r[k] == bars[k].length
  {
    seq(|bars|, k requires 0 <= k < |bars| => bars[k].length)
  }

  /** Lines 87-88: the indices of the bars in use with room for the piece, in order. */
  function Fitting(bars: seq<Bar>, piece: int): (r: seq<nat>)
    ensures forall t :: 0 <= t < |r| ==> r[t] < |bars| && piece <= bars[r[t]].remaining
    ensures forall k :: 0 <= k < |bars| && piece <= bars[k].remaining ==> k in r
  {
    if bars == [] then []
    else
      var n := |bars| - 1;
      var r0 := Fitting(bars[..n], piece);
      assert forall k :: 0 <= k < n ==> bars[..n][k] == bars[k];
      r0 + (if piece <= bars[n].remaining then [n] else [])
  }

  /** Lines 94-97: the piece cut from a bar in use, at the cost of the piece and one kerf. */
  function AddCut(b: Bar, piece: int, kerf: int): (b': Bar)
    ensures b'.length == b.length && b'.cuts == b.cuts + [piece] && b'.waste == b.waste
    ensures Balanced(b.length, b.cuts, b.remaining, kerf) ==> Balanced(b'.length, b'.cuts, b'.remaining, kerf)
  {
    assert (b.cuts + [piece])[..|b.cuts|] == b.cuts;
    Bar(b.length, b.cuts + [piece], b.remaining - (piece + kerf), b.numCuts + 1, b.waste)
  }

  /** Lines 129-136: a bar of the given length opened with its first piece. */
  function NewBar(length: int, piece: int, kerf: int): (b: Bar)
    ensures b.length == length && b.cuts == [piece] && b.numCuts == 1 && b.waste == 0
    ensures Balanced(length, b.cuts, b.remaining, kerf)
  {
    assert [piece][..0] == [];
    assert Footprint([piece], kerf) == piece + kerf;
    Bar(length, [piece], length - piece - kerf, 1, 0)
  }

  /** Cutting the piece from a bar in use with room for it keeps every bar open. */
  lemma CutKeepsOpen(bars: seq<Bar>, k: nat, piece: int, kerf: int, bars': seq<Bar>)
    requires k < |bars| && piece <= bars[k].remaining
    requires bars' == bars[k := AddCut(bars[k], piece, kerf)]
    requires forall q :: 0 <= q < |bars| ==> Open(bars[q], kerf)
    ensures forall q :: 0 <= q < |bars'| ==> Open(bars'[q], kerf)
  {
    assert Open(bars'[k], kerf);
  }

  /** Cutting the piece from a bar in use adds exactly that piece to the bars. */
  lemma CutAddsPiece(bars: seq<Bar>, k: nat, piece: int, kerf: int, bars': seq<Bar>)
    requires k < |bars|
    requires bars' == bars[k := AddCut(bars[k], piece, kerf)]
    ensures AllCuts(bars') == AllCuts(bars) + multiset{piece}
    ensures Lengths(bars') == Lengths(bars)
  {
    AllCutsUpdate(bars, k, bars'[k]);
    var a, a', c := AllCuts(bars), AllCuts(bars'), multiset(bars[k].cuts);
    assert multiset(bars'[k].cuts) == c + multiset{piece};
    assert a' + c == (a + multiset{piece}) + c;
    MultisetCancel(a', a + multiset{piece}, c);
  }

  /** Opening a pool bar for the piece keeps what the packing loop needs. */
  lemma OpenKeeps(bars: seq<Bar>, pool: seq<int>, m: int, piece: int, kerf: int)
    requires m in pool && piece <= m
    ensures (forall q :: 0 <= q < |bars| ==> Open(bars[q], kerf)) ==>
      forall q :: 0 <= q < |bars| + 1 ==> Open((bars + [NewBar(m, piece, kerf)])[q], kerf)
    ensures AllCuts(bars + [NewBar(m, piece, kerf)]) == AllCuts(bars) + multiset{piece}
    ensures multiset(Lengths(bars + [NewBar(m, piece, kerf)])) + multiset(RemoveFirst(pool, m))
      == multiset(Lengths(bars)) + multiset(pool)
  {
    var b := NewBar(m, piece, kerf);
    assert (bars + [b])[..|bars|] == bars;
    assert Lengths(bars + [b]) == Lengths(bars) + [m];
  }

  /**
   * Lines 81-136, one piece: onto a bar in use with room for it, drawn at
   * random among those; or else onto a new bar, the shortest pool bar that is
   * long enough; or else one of the two errors.
   */
  method PlacePiece(bars: seq<Bar>, pool: seq<int>, piece: int, kerf: int, draws: seq<nat>, pos: nat)
    returns (r: Result<Pack, PackError>)
    // the errors, exactly when the piece fits nowhere
    ensures r.Err? <==>
      (forall k :: 0 <= k < |bars| ==> bars[k].remaining < piece) && (forall t :: 0 <= t < |pool| ==> pool[t] < piece)
    ensures r.Err? ==> r.error.piece == piece && (r.error.StockExhausted? <==> pool == [])
    ensures r.Err? && r.error.NoBarLongEnough? ==>
      r.error.longest in pool && r.error.longest < piece && forall t :: 0 <= t < |pool| ==> pool[t] <= r.error.longest
    // a bar in use with room for the piece takes it; the pool is untouched
    ensures r.Ok? && (exists k :: 0 <= k < |bars| && piece <= bars[k].remaining) ==>
      exists k :: 0 <= k < |bars| && piece <= bars[k].remaining &&
        r.value == Pack(bars[k := AddCut(bars[k], piece, kerf)], pool, pos + 1)
    // otherwise the shortest long-enough pool bar is opened for it
    ensures r.Ok? && (forall k :: 0 <= k < |bars| ==> bars[k].remaining < piece) ==>
      exists m :: m in pool && piece <= m && (forall t :: 0 <= t < |pool| && piece <= pool[t] ==> m <= pool[t]) &&
        r.value == Pack(bars + [NewBar(m, piece, kerf)], RemoveFirst(pool, m), pos)
    // what the packing loop keeps: open bars, the pieces placed, the bars taken
    ensures r.Ok? && (forall k :: 0 <= k < |bars| ==> Open(bars[k], kerf)) ==>
      forall k :: 0 <= k < |r.value.bars| ==> Open(r.value.bars[k], kerf)
    ensures r.Ok? ==> AllCuts(r.value.bars) == AllCuts(bars) + multiset{piece}
    ensures r.Ok? ==> multiset(Lengths(r.value.bars)) + multiset(r.value.pool) == multiset(Lengths(bars)) + multiset(pool)
    ensures r.Ok? ==> r.value.pos >= pos
  {
    var fit := Fitting(bars, piece);
    if fit != [] {
      var k := DrawBar(bars, piece, fit, draws, pos);
      var bars' := bars[k := AddCut(bars[k], piece, kerf)];
      if forall q :: 0 <= q < |bars| ==> Open(bars[q], kerf) {
        CutKeepsOpen(bars, k, piece, kerf, bars');
      }
      CutAddsPiece(bars, k, piece, kerf, bars');
      return Ok(Pack(bars', pool, pos + 1));
    }
    NoneFitting(bars, piece);
    var shortest := ShortestLongEnough(pool, piece);
    if shortest.Err? {
      return Err(shortest.error);
    }
    var m := shortest.value;
    OpenKeeps(bars, pool, m, piece, kerf);
    return Ok(Pack(bars + [NewBar(m, piece, kerf)], RemoveFirst(pool, m), pos));
  }

  /** Line 94: `random.choice` among the bars in use with room for the piece. */
  method DrawBar(bars: seq<Bar>, piece: int, fit: seq<nat>, draws: seq<nat>, pos: nat) returns (k: nat)
    requires fit == Fitting(bars, piece) && fit != []
    ensures k < |bars| && piece <= bars[k].remaining
  {
    k := fit[Below(draws, pos, |fit|)];
  }

  /** No candidate bar in use means no bar in use has room for the piece. */
  lemma NoneFitting(bars: seq<Bar>, piece: int)
    requires Fitting(bars, piece) == []
    ensures forall k :: 0 <= k < |bars| ==> bars[k].remaining < piece
  {
  }

  /**
   * Lines 103-125: the shortest pool bar that is long enough for the piece, or
   * the error naming the piece (and the longest pool bar when there is one).
   */
  method ShortestLongEnough(pool: seq<int>, piece: int) returns (r: Result<int, PackError>)
    ensures r.Err? <==> forall t :: 0 <= t < |pool| ==> pool[t] < piece
    ensures r.Err? ==> r.error.piece == piece && (r.error.StockExhausted? <==> pool == [])
    ensures r.Err? && r.error.NoBarLongEnough? ==>
      r.error.longest in pool && r.error.longest < piece && forall t :: 0 <= t < |pool| ==> pool[t] <= r.error.longest
    ensures r.Ok? ==> r.value in pool && piece <= r.value && forall t :: 0 <= t < |pool| && piece <= pool[t] ==> r.value <= pool[t]
  {
    var candidates := AtLeast(pool, piece);
    if candidates == [] {
      AtLeastNone(pool, piece);
      if pool == [] {
        return Err(StockExhausted(piece));
      }
      return Err(NoBarLongEnough(piece, Max(pool)));
    }
    AtLeastMin(pool, piece);
    return Ok(Min(candidates));
  }

  /** Lines 142-143: each bar's waste becomes what remains of it. */
  method Finalize(bars: seq<Bar>) returns (done: seq<Bar>)
    ensures |done| == |bars|
    ensures forall k :: 0 <= k < |bars| ==> done[k] == bars[k].(waste := bars[k].remaining)
    ensures Lengths(done) == Lengths(bars)
  {
    done := bars;
    for k := 0 to |done|
      invariant |done| == |bars|
      invariant forall q :: 0 <= q < k ==> done[q] == bars[q].(waste := bars[q].remaining)
      invariant forall q :: k <= q < |done| ==> done[q] == bars[q]
    {
      done := done[k := done[k].(waste := done[k].remaining)];
    }
  }

  /**
   * Lines 101-125: the error raised for a piece that fits neither a bar in use
   * nor a pool bar; StockExhausted when the pool is empty, otherwise
   * NoBarLongEnough naming the longest pool bar.
   */
  ghost predicate FailsAt(e: PackError, bars: seq<Bar>, pool: seq<int>, piece: int)
  {
    && e.piece == piece
    && (forall k :: 0 <= k < |bars| ==> bars[k].remaining < piece)
    && (forall q :: 0 <= q < |pool| ==> pool[q] < piece)
    && (e.StockExhausted? <==> pool == [])
    && (e.NoBarLongEnough? ==> e.longest in pool && forall q :: 0 <= q < |pool| ==> pool[q] <= e.longest)
  }

  /**
   * Lines 81-136: every piece of the order placed in turn, from the given pool.
   * On an error, t is the piece that failed and barsAt, leftAt are the bars in
   * use and the pool just before it: every earlier piece is placed, and the
   * failing piece fits nowhere.
   */
  method PlaceAll(order: seq<int>, pool: seq<int>, kerf: int, draws: seq<nat>, pos: nat)
    returns (r: Result<seq<Bar>, PackError>, ghost t: nat, ghost barsAt: seq<Bar>, ghost leftAt: seq<int>)
    ensures r.Ok? ==> forall k :: 0 <= k < |r.value| ==> Open(r.value[k], kerf)
    ensures r.Ok? ==> AllCuts(r.value) == multiset(order)
    ensures r.Ok? ==> multiset(Lengths(r.value)) <= multiset(pool)
    ensures r.Err? ==> t < |order| && FailsAt(r.error, barsAt, leftAt, order[t])
    ensures r.Err? ==> forall k :: 0 <= k < |barsAt| ==> Open(barsAt[k], kerf)
    ensures r.Err? ==> AllCuts(barsAt) == multiset(order[..t])
    ensures r.Err? ==> multiset(Lengths(barsAt)) + multiset(leftAt) == multiset(pool)
  {
    var bars: seq<Bar> := [];
    var left, next := pool, pos;
    t, barsAt, leftAt := 0, [], [];
    for i := 0 to |order|
      invariant forall k :: 0 <= k < |bars| ==> Open(bars[k], kerf)
      invariant AllCuts(bars) == multiset(order[..i])
      invariant multiset(Lengths(bars)) + multiset(left) == multiset(pool)
    {
      var step := PlacePiece(bars, left, order[i], kerf, draws, next);
      if step.Err? {
        t, barsAt, leftAt := i, bars, left;
        return Err(step.error), t, barsAt, leftAt;
      }
      PrefixStep(order, i);
      bars, left, next := step.value.bars, step.value.pool, step.value.pos;
    }
    assert order[..|order|] == order;
    return Ok(bars), t, barsAt, leftAt;
  }

  /** Each bar in use carries at least one piece, so there are no more bars than pieces on them. */
  lemma {:induction false} AtMostOneBarPerPiece(bars: seq<Bar>, kerf: int)
    requires forall k :: 0 <= k < |bars| ==> Open(bars[k], kerf)
    ensures |bars| <= |AllCuts(bars)|
  {
    if bars != [] {
      var n := |bars| - 1;
      assert forall k :: 0 <= k < n ==> bars[..n][k] == bars[k];
      AtMostOneBarPerPiece(bars[..n], kerf);
      assert |multiset(bars[n].cuts)| == |bars[n].cuts| >= 1;
    }
  }

  /**
   * The stock runs out only when there are more pieces than stock bars: every
   * stock bar has been opened, and each carries an earlier piece.
   */
  lemma StockExhaustedCount(pieces: seq<int>, order: seq<int>, t: nat, bars: seq<Bar>, left: seq<int>, kerf: int,
                            pool: seq<int>)
    requires multiset(order) == multiset(pieces) && t < |order| && left == []
    requires forall k :: 0 <= k < |bars| ==> Open(bars[k], kerf)
    requires AllCuts(bars) == multiset(order[..t])
    requires multiset(Lengths(bars)) + multiset(left) == multiset(pool)
    ensures |pool| < |pieces|
  {
    AtMostOneBarPerPiece(bars, kerf);
    assert |pool| == |multiset(pool)| == |multiset(Lengths(bars))| == |Lengths(bars)|;
    assert |multiset(order[..t])| == t;
    assert |order| == |multiset(order)| == |multiset(pieces)| == |pieces|;
  }

  /** What an error at order[t] says about the requested pieces and the stock. */
  lemma GenuineError(pieces: seq<int>, pool: seq<int>, order: seq<int>, t: nat, bars: seq<Bar>, left: seq<int>,
                     kerf: int, e: PackError)
    requires multiset(order) == multiset(pieces)
    requires t < |order| && FailsAt(e, bars, left, order[t])
    requires forall k :: 0 <= k < |bars| ==> Open(bars[k], kerf)
    requires AllCuts(bars) == multiset(order[..t])
    requires multiset(Lengths(bars)) + multiset(left) == multiset(pool)
    ensures e.piece in pieces
    ensures e.NoBarLongEnough? ==> e.longest < e.piece && e.longest in pool
    ensures e.StockExhausted? ==> |pool| < |pieces|
  {
    assert order[t] in multiset(order);
    if e.NoBarLongEnough? {
      LeftInPool(Lengths(bars), left, pool, e.longest);
    }
    if e.StockExhausted? {
      StockExhaustedCount(pieces, order, t, bars, left, kerf, pool);
    }
  }

  /** A bar left in the pool is a stock bar. */
  lemma LeftInPool(lengths: seq<int>, left: seq<int>, pool: seq<int>, x: int)
    requires multiset(lengths) + multiset(left) == multiset(pool)
    requires x in left
    ensures x in pool
  {
    assert x in multiset(left);
    assert x in multiset(pool);
  }

  /**
   * `ottimizza` (lines 30-145): expand the demand, fix the processing order,
   * build the pool, place every piece, then set each bar's waste to what
   * remains of it.
   */
  method Optimize(stock: seq<(int, int)>, kerf: int, demand: seq<(int, int)>, draws: seq<nat>)
    returns (r: Result<seq<Bar>, PackError>, ghost order: seq<int>, ghost t: nat, ghost barsAt: seq<Bar>, ghost leftAt: seq<int>)
    // every requested piece is on exactly one bar, and nothing else is
    ensures r.Ok? ==> AllCuts(r.value) == multiset(Expand(demand))
    // every bar is kerf-balanced, carries pieces, and its waste is what remains of it
    ensures r.Ok? ==> forall k :: 0 <= k < |r.value| ==> Finished(r.value[k], kerf)
    // no length is used more often than the stock holds it
    ensures r.Ok? ==> multiset(Lengths(r.value)) <= multiset(Expand(stock))
    ensures r.Ok? ==> forall l :: multiset(Lengths(r.value))[l] <= Requested(stock, l)
    // an error is genuine: in the processing order of the requested pieces, the
    // pieces before order[t] are on the bars barsAt, drawn from the stock that
    // leftAt completes, and order[t] fits on none of them nor on a bar of leftAt
    ensures multiset(order) == multiset(Expand(demand))
    ensures r.Err? ==> t < |order| && FailsAt(r.error, barsAt, leftAt, order[t])
    ensures r.Err? ==> forall k :: 0 <= k < |barsAt| ==> Open(barsAt[k], kerf)
    ensures r.Err? ==> AllCuts(barsAt) == multiset(order[..t])
    ensures r.Err? ==> multiset(Lengths(barsAt)) + multiset(leftAt) == multiset(Expand(stock))
    // so an error names a requested piece, and the longest stock bar left when there is one
    ensures r.Err? ==> r.error.piece in Expand(demand)
    ensures r.Err? && r.error.NoBarLongEnough? ==>
      r.error.longest < r.error.piece && r.error.longest in Expand(stock)
    // and the stock runs out only when fewer bars are in stock than pieces are requested
    ensures r.Err? && r.error.StockExhausted? ==> |Expand(stock)| < |Expand(demand)|
  {
    var pieces := ExpandDemand(demand);
    var sequence, next, cluster, anchors := ProcessingOrder(pieces, draws, 0);
    order := sequence;
    var pool := ExpandDemand(stock);
    var placed;
    placed, t, barsAt, leftAt := PlaceAll(sequence, pool, kerf, draws, next);
    if placed.Err? {
      GenuineError(pieces, pool, order, t, barsAt, leftAt, kerf, placed.error);
      return Err(placed.error), order, t, barsAt, leftAt;
    }
    var done := Finalize(placed.value);
    AllCutsSameCuts(placed.value, done);
    forall l ensures multiset(Lengths(done))[l] <= Requested(stock, l) {
      ExpandCount(stock, l);
    }
    return Ok(done), order, t, barsAt, leftAt;
  }
}
