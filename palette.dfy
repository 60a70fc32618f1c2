/**
 * Colour selection for one vertex: the three-way comparator handed to
 * qsort, the in-place sort of the neighbour-colour buffer, the smallest
 * positive colour missing from a sequence (the "mex"), and the scan over
 * the sorted buffer that the colouring code uses to find it.
 */
module Palette {

  /** The comparator `(a > b) - (a < b)`: -1, 0 or 1 by the order of a and b. */
  function Compare(a: int, b: int): (r: int)
    ensures r == -1 <==> a < b
    ensures r == 0 <==> a == b
    ensures r == 1 <==> a > b
  {
    (if a > b then 1 else 0) - (if a < b then 1 else 0)
  }

  /** Swapping the arguments negates the comparison. */
  lemma CompareAntisymmetric(a: int, b: int)
    ensures Compare(a, b) == -Compare(b, a)
  {
  }

  /** Ascending order as the comparator defines it. */
  predicate Sorted(s: seq<int>)
  {
    forall i, j :: 0 <= i < j < |s| ==> Compare(s[i], s[j]) <= 0
  }

  /** A strict upper bound on the values in `s`. */
  function Ceiling(s: seq<int>): (r: int)
    ensures forall x :: x in s ==> x < r
  {
    if s == [] then 0
    else
      var rest := Ceiling(s[1..]);
      assert forall x :: x in s ==> x == s[0] || x in s[1..];
      if s[0] < rest then rest else s[0] + 1
  }

  /** The smallest integer at least `c` that does not occur in `s`. */
  function MexFrom(s: seq<int>, c: int): (m: int)
    ensures c <= m && m !in s
    ensures forall d :: c <= d < m ==> d in s
    decreases Ceiling(s) - c
  {
    if c in s then MexFrom(s, c + 1) else c
  }

  /** The smallest positive colour that does not occur in `s`. */
  function Mex(s: seq<int>): (m: int)
    ensures 1 <= m && m !in s
    ensures forall d :: 1 <= d < m ==> d in s
  {
    MexFrom(s, 1)
  }

  /** The three properties of `Mex` determine it. */
  lemma MexIsUnique(s: seq<int>, m: int)
    requires 1 <= m && m !in s
    requires forall d :: 1 <= d < m ==> d in s
    ensures Mex(s) == m
  {
    var r := Mex(s);
    assert 1 <= r < m ==> r in s;
    assert 1 <= m < r ==> m in s;
  }

  /** The mex depends only on which values occur, not on their order. */
  lemma MexPermutation(a: seq<int>, b: seq<int>)
    requires multiset(a) == multiset(b)
    ensures Mex(a) == Mex(b)
  {
    var m := Mex(a);
    forall d | 1 <= d < m ensures d in b {
      assert d in a;
      assert d in multiset(a);
    }
    assert m !in multiset(a);
    MexIsUnique(b, m);
  }

  /** If every value 1..n occurs in `s`, then `s` has at least n elements. */
  lemma {:induction false} CoverNeedsLength(s: seq<int>, n: nat)
    requires forall d :: 1 <= d <= n ==> d in s
    ensures n <= |s|
  {
    if n > 0 {
      assert n in s;
      var i :| 0 <= i < |s| && s[i] == n;
      var t := s[..i] + s[i + 1..];
      forall d | 1 <= d <= n - 1 ensures d in t {
        assert d in s;
        var j :| 0 <= j < |s| && s[j] == d;
        if j < i {
          assert t[j] == d;
        } else {
          assert j != i;
          assert t[j - 1] == d;
        }
      }
      CoverNeedsLength(t, n - 1);
    }
  }

  /** The chosen colour never exceeds the number of coloured neighbours plus one. */
  lemma MexAtMostLengthPlusOne(s: seq<int>)
    ensures Mex(s) <= |s| + 1
  {
    CoverNeedsLength(s, Mex(s) - 1);
  }

  /** If no value in `s` exceeds `b`, the mex is at most `b + 1`. */
  lemma MexAtMostBoundPlusOne(s: seq<int>, b: nat)
    requires forall x :: x in s ==> x <= b
    ensures Mex(s) <= b + 1
  {
    assert 1 <= b + 1 < Mex(s) ==> b + 1 in s;
  }

  /**
   * The buffer handed to qsort: the first `n` cells end up in ascending
   * order holding the same values, and the cells past `n` are not touched.
   */
  method SortPrefix(a: array<int>, n: nat)
    requires n <= a.Length
    modifies a
    ensures Sorted(a[..n])
    ensures multiset(a[..n]) == multiset(old(a[..n]))
    ensures a[n..] == old(a[n..])
  {
    var i := 0;
    while i < n
      invariant i <= n
      invariant forall p, q :: 0 <= p < q < i ==> a[p] <= a[q]
      invariant multiset(a[..n]) == multiset(old(a[..n]))
      invariant a[n..] == old(a[n..])
    {
      InsertAt(a, i, n);
      i := i + 1;
    }
    forall p, q | 0 <= p < q < n ensures Compare(a[..n][p], a[..n][q]) <= 0 {
    }
  }

  /** One insertion step: a[i] sinks into the ascending run a[0..i). */
  method InsertAt(a: array<int>, i: nat, n: nat)
    requires i < n <= a.Length
    requires forall p, q :: 0 <= p < q < i ==> a[p] <= a[q]
    modifies a
    ensures forall p, q :: 0 <= p < q <= i ==> a[p] <= a[q]
    ensures multiset(a[..n]) == multiset(old(a[..n]))
    ensures a[n..] == old(a[n..])
  {
    var j := i;
    while 0 < j && a[j - 1] > a[j]
      invariant 0 <= j <= i
      invariant forall p, q :: 0 <= p < q <= i && p != j && q != j ==> a[p] <= a[q]
      invariant forall q :: j < q <= i ==> a[j] <= a[q]
      invariant multiset(a[..n]) == multiset(old(a[..n]))
      invariant a[n..] == old(a[n..])
    {
      SwapDown(a, j, n);
      j := j - 1;
    }
  }

  /** Exchanges a[j - 1] and a[j] inside the first `n` cells. */
  method SwapDown(a: array<int>, j: nat, n: nat)
    requires 0 < j < n <= a.Length
    modifies a
    ensures a[..] == old(a[..])[j - 1 := old(a[j])][j := old(a[j - 1])]
    ensures multiset(a[..n]) == multiset(old(a[..n]))
    ensures a[n..] == old(a[n..])
  {
    a[j - 1], a[j] := a[j], a[j - 1];
    assert a[..n] == old(a[..n])[j - 1 := old(a[j])][j := old(a[j - 1])];
  }

  /** Sorted sequences are ascending in the plain integer order. */
  lemma SortedAscending(s: seq<int>, i: int, j: int)
    requires Sorted(s) && 0 <= i <= j < |s|
    ensures s[i] <= s[j]
  {
    if i < j {
      assert Compare(s[i], s[j]) <= 0;
    }
  }

  /**
   * Neighbouring cells differ by at most one up to index k and the run
   * starts at 1, so every colour from 1 to s[k] occurs in s.
   */
  lemma {:induction false} RunCovers(s: seq<int>, k: nat)
    requires k < |s| && s[0] == 1
    requires forall m :: 0 <= m < k ==> s[m + 1] - s[m] <= 1
    ensures forall d :: 1 <= d <= s[k] ==> d in s
  {
    if k > 0 {
      RunCovers(s, k - 1);
      assert s[k] - s[k - 1] <= 1;
    }
  }

  /**
   * The smallest-colour search over the sorted buffer of neighbour colours.
   * The first `numColors` cells hold the sorted positive colours and the
   * rest of the buffer is zero. The scan runs over the whole buffer and so
   * also reads the zero padding; the result is still the mex of the colours.
   */
  method GapScan(neighborColors: array<int>, numColors: nat) returns (minColor: int)
    requires numColors <= neighborColors.Length
    requires Sorted(neighborColors[..numColors])
    requires forall i :: 0 <= i < numColors ==> neighborColors[i] > 0
    requires forall i :: numColors <= i < neighborColors.Length ==> neighborColors[i] == 0
    ensures minColor == Mex(neighborColors[..numColors])
  {
    ghost var s := neighborColors[..numColors];
    var n := neighborColors.Length;
    if numColors == 0 || neighborColors[0] > 1 {
      minColor := 1;
      forall i | 0 <= i < numColors ensures s[i] != 1 {
        SortedAscending(s, 0, i);
      }
      MexIsUnique(s, 1);
      return;
    }
    minColor := 0;
    var k := 0;
    while k < n
      invariant 0 <= k <= n
      invariant forall m :: 0 <= m < k && m < n - 1 ==> neighborColors[m + 1] - neighborColors[m] <= 1
      invariant 0 < k ==> minColor == neighborColors[numColors - 1] + 1
    {
      if k < n - 1 && neighborColors[k + 1] - neighborColors[k] > 1 {
        minColor := neighborColors[k] + 1;
        assert k + 1 < numColors;
        GapFound(s, k);
        return;
      } else {
        minColor := neighborColors[numColors - 1] + 1;
      }
      k := k + 1;
    }
    NoGap(s);
  }

  /** A gap after index k inside the run makes s[k] + 1 the mex. */
  lemma GapFound(s: seq<int>, k: nat)
    requires k + 1 < |s| && s[0] == 1 && Sorted(s)
    requires forall m :: 0 <= m < k ==> s[m + 1] - s[m] <= 1
    requires s[k + 1] - s[k] > 1
    ensures Mex(s) == s[k] + 1
  {
    RunCovers(s, k);
    forall i | 0 <= i < |s| ensures s[i] != s[k] + 1 {
      if i <= k {
        SortedAscending(s, i, k);
      } else {
        SortedAscending(s, k + 1, i);
      }
    }
    MexIsUnique(s, s[k] + 1);
  }

  /** Without a gap the mex is one more than the largest colour. */
  lemma NoGap(s: seq<int>)
    requires 0 < |s| && s[0] == 1 && Sorted(s)
    requires forall m :: 0 <= m < |s| - 1 ==> s[m + 1] - s[m] <= 1
    ensures Mex(s) == s[|s| - 1] + 1
  {
    var k := |s| - 1;
    RunCovers(s, k);
    forall i | 0 <= i < |s| ensures s[i] != s[k] + 1 {
      SortedAscending(s, i, k);
    }
    MexIsUnique(s, s[k] + 1);
  }
}
