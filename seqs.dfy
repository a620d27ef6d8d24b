/**
 * The Python built-ins the engine leans on, over lists of integer lengths:
 * `sum`, `[x] * n`, `sorted` (ascending and `reverse=True`), `min`, `max`
 * and the filtering comprehension `[b for b in xs if x <= b]`.
 */
module Seqs {

  /** `sum(s)`. */
  function Sum(s: seq<int>): int
  {
    if s == [] then 0 else Sum(s[..|s| - 1]) + s[|s| - 1]
  }

  lemma {:induction false} SumConcat(s: seq<int>, t: seq<int>)
    ensures Sum(s + t) == Sum(s) + Sum(t)
  {
    if t == [] {
      assert s + t == s;
    } else {
      assert (s + t)[..|s + t| - 1] == s + t[..|t| - 1];
      SumConcat(s, t[..|t| - 1]);
    }
  }

  /** `[x] * n`: n copies of x, and none at all when n <= 0. */
  function Repeat<T>(x: T, n: int): (r: seq<T>)
    ensures |r| == if n > 0 then n else 0
    ensures forall i :: 0 <= i < |r| ==> r[i] == x
  {
    if n <= 0 then [] else Repeat(x, n - 1) + [x]
  }

  /** The multiset view of `[x] * n`: x occurs n times, nothing else occurs. */
  lemma {:induction false} RepeatCount<T>(x: T, n: int, y: T)
    ensures multiset(Repeat(x, n))[y] == if y == x && n > 0 then n else 0
  {
    if n > 0 {
      RepeatCount(x, n - 1, y);
      assert Repeat(x, n) == Repeat(x, n - 1) + [x];
    }
  }

  /** A prefix one longer is the prefix with one more element. */
  lemma PrefixStep<T>(s: seq<T>, t: nat)
    requires t < |s|
    ensures s[..t + 1] == s[..t] + [s[t]]
    ensures multiset(s[..t + 1]) == multiset(s[..t]) + multiset{s[t]}
  {
    assert s[..t + 1] == s[..t] + [s[t]];
  }

  ghost predicate Ascending(s: seq<int>)
  {
    forall i, j :: 0 <= i < j < |s| ==> s[i] <= s[j]
  }

  ghost predicate Descending(s: seq<int>)
  {
    forall i, j :: 0 <= i < j < |s| ==> s[i] >= s[j]
  }

  ghost predicate Distinct<T>(s: seq<T>)
  {
    forall i, j :: 0 <= i < j < |s| ==> s[i] != s[j]
  }

  /** Equal elements stand together: between two copies of a value there is nothing else. */
  ghost predicate Contiguous<T>(s: seq<T>)
  {
    forall p, q, r :: 0 <= p < q < r < |s| && s[p] == s[r] ==> s[q] == s[p]
  }

  /** Two sequences in which equal elements stand together, with no element in common, concatenate to one. */
  lemma ContiguousAppend<T>(s: seq<T>, b: seq<T>)
    requires Contiguous(s) && Contiguous(b)
    requires forall p, q :: 0 <= p < |s| && 0 <= q < |b| ==> s[p] != b[q]
    ensures Contiguous(s + b)
  {
    var n := |s|;
    forall p, q, r | 0 <= p < q < r < |s + b| && (s + b)[p] == (s + b)[r] ensures (s + b)[q] == (s + b)[p] {
      if r < n {
        assert (s + b)[p] == s[p] && (s + b)[q] == s[q] && (s + b)[r] == s[r];
      } else if p >= n {
        assert (s + b)[p] == b[p - n] && (s + b)[q] == b[q - n] && (s + b)[r] == b[r - n];
      } else {
        assert false;
      }
    }
  }

  /** A sequence has no repeated element exactly when no value occurs twice in its multiset. */
  lemma {:induction false} DistinctMultiplicity<T>(s: seq<T>)
    ensures Distinct(s) <==> forall y :: multiset(s)[y] <= 1
  {
    if s != [] {
      var init, last := s[..|s| - 1], s[|s| - 1];
      assert s == init + [last];
      DistinctMultiplicity(init);
      if Distinct(s) {
        forall k | 0 <= k < |init| ensures init[k] != last {
          assert s[k] == init[k];
        }
        assert last !in init;
      }
      if forall y :: multiset(s)[y] <= 1 {
        forall y ensures multiset(init)[y] <= 1 {
          assert multiset(s)[y] == multiset(init)[y] + (if y == last then 1 else 0);
        }
        assert multiset(s)[last] <= 1;
        assert last !in multiset(init);
        forall i, j | 0 <= i < j < |s| ensures s[i] != s[j] {
          if j == |s| - 1 {
            assert s[i] in init;
          } else {
            assert s[i] == init[i] && s[j] == init[j];
          }
        }
      }
    }
  }

  /** Insertion of x into an ascending list, the step of the sort below. */
  function Insert(x: int, s: seq<int>): (r: seq<int>)
    requires Ascending(s)
    ensures Ascending(r)
    ensures multiset(r) == multiset(s) + multiset{x}
  {
    if s == [] then [x]
    else if x <= s[0] then [x] + s
    else
      var rest := Insert(x, s[1..]);
      assert s == [s[0]] + s[1..];
      InsertBelow(s[0], s[1..], x, rest);
      [s[0]] + rest
  }

  /** A head no larger than anything in s or than x stays ascending before any rearrangement of s + [x]. */
  lemma InsertBelow(h: int, s: seq<int>, x: int, rest: seq<int>)
    requires Ascending([h] + s) && h <= x
    requires Ascending(rest) && multiset(rest) == multiset(s) + multiset{x}
    ensures Ascending([h] + rest)
  {
    forall k | 0 <= k < |rest| ensures h <= rest[k] {
      assert rest[k] in multiset(rest);
      if rest[k] != x {
        assert multiset(s)[rest[k]] == multiset(rest)[rest[k]] > 0;
        var u :| 0 <= u < |s| && s[u] == rest[k];
        assert ([h] + s)[0] == h && ([h] + s)[u + 1] == s[u];
      }
    }
    forall i, j | 0 <= i < j < |[h] + rest| ensures ([h] + rest)[i] <= ([h] + rest)[j] {
      if i > 0 {
        assert ([h] + rest)[i] == rest[i - 1];
      }
      assert ([h] + rest)[j] == rest[j - 1];
    }
  }

  /** `sorted(s)`: an ascending rearrangement of s. */
  function SortAsc(s: seq<int>): (r: seq<int>)
    ensures Ascending(r)
    ensures multiset(r) == multiset(s)
  {
    if s == [] then []
    else
      assert s == s[..|s| - 1] + [s[|s| - 1]];
      Insert(s[|s| - 1], SortAsc(s[..|s| - 1]))
  }

  function Reverse(s: seq<int>): (r: seq<int>)
    ensures |r| == |s|
    ensures forall i :: 0 <= i < |s| ==> r[i] == s[|s| - 1 - i]
  {
    if s == [] then [] else [s[|s| - 1]] + Reverse(s[..|s| - 1])
  }

  lemma {:induction false} ReversePermutes(s: seq<int>)
    ensures multiset(Reverse(s)) == multiset(s)
  {
    if s != [] {
      ReversePermutes(s[..|s| - 1]);
      assert s == s[..|s| - 1] + [s[|s| - 1]];
    }
  }

  /**
   * `sorted(s, reverse=True)`. On integers, where equal elements cannot be
   * told apart, this is the ascending sort read backwards.
   */
  function SortDesc(s: seq<int>): (r: seq<int>)
    ensures Descending(r)
    ensures multiset(r) == multiset(s)
  {
    ReversePermutes(SortAsc(s));
    Reverse(SortAsc(s))
  }

  /** `[b for b in s if x <= b]`: the elements of s that are at least x, in their order. */
  function AtLeast(s: seq<int>, x: int): (r: seq<int>)
    ensures forall y :: multiset(r)[y] == if x <= y then multiset(s)[y] else 0
  {
    if s == [] then []
    else
      assert s == s[..|s| - 1] + [s[|s| - 1]];
      AtLeast(s[..|s| - 1], x) + (if x <= s[|s| - 1] then [s[|s| - 1]] else [])
  }

  /** Filtering keeps the order of what it keeps: an ascending list stays ascending. */
  lemma {:induction false} AtLeastAscending(s: seq<int>, x: int)
    requires Ascending(s)
    ensures Ascending(AtLeast(s, x))
  {
    if s != [] {
      var init, last := s[..|s| - 1], s[|s| - 1];
      assert s == init + [last];
      AtLeastAscending(init, x);
      var r0 := AtLeast(init, x);
      forall k | 0 <= k < |r0| ensures r0[k] <= last {
        assert r0[k] in multiset(r0);
        assert r0[k] in init;
      }
    }
  }

  /** Filtering keeps the order of what it keeps: a descending list stays descending. */
  lemma {:induction false} AtLeastDescending(s: seq<int>, x: int)
    requires Descending(s)
    ensures Descending(AtLeast(s, x))
  {
    if s != [] {
      var init, last := s[..|s| - 1], s[|s| - 1];
      assert s == init + [last];
      AtLeastDescending(init, x);
      var r0 := AtLeast(init, x);
      forall k | 0 <= k < |r0| ensures r0[k] >= last {
        assert r0[k] in multiset(r0);
        assert r0[k] in init;
      }
    }
  }

  /** Nothing passes the filter exactly when every element is below x. */
  lemma AtLeastNone(s: seq<int>, x: int)
    requires AtLeast(s, x) == []
    ensures forall t :: 0 <= t < |s| ==> s[t] < x
  {
    forall t | 0 <= t < |s| ensures s[t] < x {
      assert s[t] in multiset(s);
    }
  }

  /** `min` of the filter: the smallest element of s that is at least x. */
  lemma AtLeastMin(s: seq<int>, x: int)
    requires AtLeast(s, x) != []
    ensures Min(AtLeast(s, x)) in s && x <= Min(AtLeast(s, x))
    ensures forall t :: 0 <= t < |s| && x <= s[t] ==> Min(AtLeast(s, x)) <= s[t]
  {
    var r := AtLeast(s, x);
    var m := Min(r);
    assert m in multiset(r);
    forall t | 0 <= t < |s| && x <= s[t] ensures m <= s[t] {
      assert s[t] in multiset(s);
      assert s[t] in multiset(r);
      var u :| 0 <= u < |r| && r[u] == s[t];
    }
  }

  /** `min(s)`. */
  function Min(s: seq<int>): (m: int)
    requires s != []
    ensures m in s
    ensures forall i :: 0 <= i < |s| ==> m <= s[i]
  {
    if |s| == 1 then s[0]
    else
      var m0 := Min(s[..|s| - 1]);
      assert s == s[..|s| - 1] + [s[|s| - 1]];
      if s[|s| - 1] < m0 then s[|s| - 1] else m0
  }

  /** `max(s)`. */
  function Max(s: seq<int>): (m: int)
    requires s != []
    ensures m in s
    ensures forall i :: 0 <= i < |s| ==> s[i] <= m
  {
    if |s| == 1 then s[0]
    else
      var m0 := Max(s[..|s| - 1]);
      assert s == s[..|s| - 1] + [s[|s| - 1]];
      if s[|s| - 1] > m0 then s[|s| - 1] else m0
  }

  /** `s.remove(x)`: drops the first occurrence of x. */
  function RemoveFirst(s: seq<int>, x: int): (r: seq<int>)
    requires x in s
    ensures multiset(r) == multiset(s) - multiset{x}
  {
    assert s == [s[0]] + s[1..];
    if s[0] == x then s[1..] else [s[0]] + RemoveFirst(s[1..], x)
  }

  /** Adding the same multiset to both sides can be undone. */
  lemma MultisetCancel<T>(x: multiset<T>, y: multiset<T>, c: multiset<T>)
    requires x + c == y + c
    ensures x == y
  {
    forall v ensures x[v] == y[v] {
      assert (x + c)[v] == (y + c)[v];
    }
  }

  /** Adding the same multiset to both sides keeps them equal, whatever was added before. */
  lemma MultisetShift<T>(x: multiset<T>, y: multiset<T>, p: multiset<T>, q: multiset<T>, c: multiset<T>)
    requires x + p == y + q
    ensures (x + c) + p == (y + c) + q
  {
    forall v ensures ((x + c) + p)[v] == ((y + c) + q)[v] {
      assert (x + p)[v] == (y + q)[v];
    }
  }

  /** An element other than the last is among the ones before it. */
  lemma InFront<T>(s: seq<T>, x: T)
    requires x in s && x != s[|s| - 1]
    ensures x in s[..|s| - 1]
  {
    var k :| 0 <= k < |s| && s[k] == x;
    assert s[..|s| - 1][k] == x;
  }
}
