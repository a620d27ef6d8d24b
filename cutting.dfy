/**
 * What both engines share: the expansion of a (quantity, length) list into one
 * entry per physical piece or bar, and the kerf rule that every placement
 * charges the piece plus one blade width to the bar it goes on.
 */
module Cutting {
  import opened Seqs

  /** `for qty, l in d: out.extend([l] * qty)`: one entry per unit, in list order. */
  function Expand(d: seq<(int, int)>): seq<int>
  {
    if d == [] then [] else Expand(d[..|d| - 1]) + Repeat(d[|d| - 1].1, d[|d| - 1].0)
  }

  /** How many units of length x the list asks for, entry by entry. */
  function Requested(d: seq<(int, int)>, x: int): nat
  {
    if d == [] then 0
    else Requested(d[..|d| - 1], x) + (if d[|d| - 1].1 == x && d[|d| - 1].0 > 0 then d[|d| - 1].0 else 0)
  }

  /** The expansion holds each length exactly as often as the list requests it. */
  lemma {:induction false} ExpandCount(d: seq<(int, int)>, x: int)
    ensures multiset(Expand(d))[x] == Requested(d, x)
  {
    if d != [] {
      ExpandCount(d[..|d| - 1], x);
      RepeatCount(d[|d| - 1].1, d[|d| - 1].0, x);
    }
  }

  /** The expansion loop (lines 42-44 and 825-826; the pool at 76-79 is built the same way). */
  method ExpandDemand(d: seq<(int, int)>) returns (units: seq<int>)
    ensures units == Expand(d)
  {
    units := [];
    for k := 0 to |d|
      invariant units == Expand(d[..k])
    {
      assert d[..k + 1][..k] == d[..k];
      units := units + Repeat(d[k].1, d[k].0);
    }
    assert d[..|d|] == d;
  }

  /**
   * The length a list of pieces takes from a bar: each piece together with the
   * kerf of the cut that frees it.
   */
  function Footprint(pieces: seq<int>, kerf: int): int
  {
    if pieces == [] then 0 else Footprint(pieces[..|pieces| - 1], kerf) + pieces[|pieces| - 1] + kerf
  }

  /** The footprint is the pieces' total plus one kerf per piece, the last one included. */
  lemma {:induction false} FootprintIs(pieces: seq<int>, kerf: int)
    ensures Footprint(pieces, kerf) == Sum(pieces) + kerf * |pieces|
  {
    if pieces != [] {
      FootprintIs(pieces[..|pieces| - 1], kerf);
    }
  }

  /** Kerf accounting of one bar: what is left is the bar's length less the pieces' footprint. */
  ghost predicate Balanced(length: int, pieces: seq<int>, remaining: int, kerf: int)
  {
    remaining == length - Footprint(pieces, kerf)
  }
}
