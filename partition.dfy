/**
 * `cut_by_four`: the table sizes for `n` players. It starts from `n div 4`
 * tables of four plus a last slot holding the remainder, then moves the
 * remainder one player at a time onto the first tables, repeating while the
 * last slot is not empty, and finally drops the (empty) last slot.
 */
module Partition {
  import opened Wrappers

  /** The counts for which the source gives up before touching the list. */
  predicate Unsplittable(n: nat)
  {
    n in {0, 1, 2, 3, 7}
  }

  function Rep(x: int, c: nat): (r: seq<int>)
    ensures |r| == c && forall i :: 0 <= i < c ==> r[i] == x
  {
    seq(c, _ => x)
  }

  function Sum(s: seq<int>): int
  {
    if s == [] then 0 else s[0] + Sum(s[1..])
  }

  lemma {:induction false} SumAppend(a: seq<int>, b: seq<int>)
    ensures Sum(a + b) == Sum(a) + Sum(b)
  {
    if a == [] {
      assert a + b == b;
    } else {
      assert (a + b)[1..] == a[1..] + b;
      SumAppend(a[1..], b);
    }
  }

  lemma {:induction false} SumRep(x: int, c: nat)
    ensures Sum(Rep(x, c)) == x * c
  {
    if c > 0 {
      assert Rep(x, c)[1..] == Rep(x, c - 1);
      SumRep(x, c - 1);
    }
  }

  /**
   * The sizes `cut_by_four` returns: with `k = n div 4` tables and a
   * remainder `r`, the first `r` tables get a fifth player when `r <= k`;
   * otherwise (n = 6 or 11) the first table gets two extra and the others one.
   */
  function CutSizes(n: nat): (r: seq<int>)
    requires !Unsplittable(n)
    ensures |r| == n / 4
    ensures forall i :: 0 <= i < |r| ==> 4 <= r[i] <= 6
  {
    var k, rem := n / 4, n % 4;
    if rem <= k then Rep(5, rem) + Rep(4, k - rem) else [6] + Rep(5, k - 1)
  }

  /** The state of the list `L` after `s` passes of the outer loop. */
  function Stage(n: nat, s: nat): (v: seq<int>)
    requires !Unsplittable(n)
    ensures |v| == n / 4 + 1
  {
    var k, rem := n / 4, n % 4;
    if s == 0 then seq(k + 1, j => if j < k then 4 else rem)
    else if s == 1 then seq(k + 1, j => if j == k then (if rem <= k then 0 else 1) else if j < rem then 5 else 4)
    else seq(k + 1, j => if j == k then 0 else if j == 0 then 6 else 5)
  }

  /**
   * One run of the inner `for`: with `m = v[k]`, every index `i < m` gains
   * one and the last slot loses one; at `i == k` the two cancel.
   */
  function Pass(v: seq<int>, k: nat): (w: seq<int>)
    requires k < |v| && 0 <= v[k]
    ensures |w| == |v|
  {
    var m := v[k];
    seq(|v|, j requires 0 <= j < |v| =>
      if j == k then v[k] - (if m <= k then m else k) else if j < m then v[j] + 1 else v[j])
  }

  lemma PassStage(n: nat, s: nat)
    requires !Unsplittable(n) && s < 2
    requires Stage(n, s)[n / 4] != 0
    ensures Stage(n, s)[n / 4] > 0
    ensures Pass(Stage(n, s), n / 4) == Stage(n, s + 1)
    ensures s == 1 ==> n % 4 == n / 4 + 1
  {
  }

  lemma FinalStage(n: nat, s: nat)
    requires !Unsplittable(n) && s <= 2
    requires s == 2 ==> n % 4 == n / 4 + 1
    requires Stage(n, s)[n / 4] == 0
    ensures Stage(n, s)[..n / 4] == CutSizes(n)
  {
    var k, rem := n / 4, n % 4;
    var v := Stage(n, s)[..k];
    assert rem <= k || s == 2;
    forall j | 0 <= j < k ensures v[j] == CutSizes(n)[j] {
      if rem <= k {
        assert j < rem ==> (Rep(5, rem) + Rep(4, k - rem))[j] == 5;
        assert j >= rem ==> (Rep(5, rem) + Rep(4, k - rem))[j] == Rep(4, k - rem)[j - rem];
      } else {
        assert j > 0 ==> ([6] + Rep(5, k - 1))[j] == Rep(5, k - 1)[j - 1];
      }
    }
  }

  /**
   * The inner `for` of `cut_by_four`: `range(L[-1])` is fixed when the loop
   * starts, and `L[-1]` is the slot `k`.
   */
  method MoveRemainder(a: array<int>, k: nat)
    requires k < a.Length == k + 1 && 0 <= a[k] <= k + 1
    modifies a
    ensures a[..] == Pass(old(a[..]), k)
  {
    ghost var before := a[..];
    var m := a[k];
    for i := 0 to m
      invariant forall j :: 0 <= j < k ==> a[j] == before[j] + (if j < i then 1 else 0)
      invariant a[k] == before[k] - (if i <= k then i else k)
    {
      a[i] := a[i] + 1;
      a[k] := a[k] - 1;
    }
  }

  /** `cut_by_four(n)`; the list `L` is an array of `n div 4 + 1` slots. */
  method CutByFour(n: nat) returns (r: Option<seq<int>>)
    ensures r == if Unsplittable(n) then None else Some(CutSizes(n))
  {
    if n in {0, 1, 2, 3, 7} {
      return None;
    }
    var k := n / 4;
    var a := new int[k + 1](j => if j < k then 4 else n - k * 4);
    assert a[..] == Stage(n, 0);
    ghost var s := 0;
    while a[k] != 0
      invariant 0 <= s <= 2 && (s == 2 ==> n % 4 == k + 1)
      invariant a[..] == Stage(n, s)
      decreases 2 - s
    {
      PassStage(n, s);
      MoveRemainder(a, k);
      s := s + 1;
    }
    FinalStage(n, s);
    return Some(a[..k]);
  }

  /** The sizes seat all `n` players. */
  lemma CutSizesSum(n: nat)
    requires !Unsplittable(n)
    ensures Sum(CutSizes(n)) == n
  {
    var k, rem := n / 4, n % 4;
    if rem <= k {
      SumAppend(Rep(5, rem), Rep(4, k - rem));
      SumRep(5, rem);
      SumRep(4, k - rem);
    } else {
      SumAppend([6], Rep(5, k - 1));
      SumRep(5, k - 1);
    }
  }

  /** The sizes never increase from one table to the next. */
  lemma CutSizesNonIncreasing(n: nat)
    requires !Unsplittable(n)
    ensures forall i, j :: 0 <= i <= j < |CutSizes(n)| ==> CutSizes(n)[i] >= CutSizes(n)[j]
  {
    var k, rem := n / 4, n % 4;
    var c := CutSizes(n);
    if rem <= k {
      assert forall i :: 0 <= i < k ==> c[i] == (if i < rem then 5 else 4);
    } else {
      assert forall i :: 0 <= i < k ==> c[i] == (if i == 0 then 6 else 5);
    }
  }

  /** No way of seating players at tables of 4 to 6 covers 1, 2, 3 or 7 players. */
  lemma {:induction false} NoPartition(s: seq<int>)
    requires forall i :: 0 <= i < |s| ==> 4 <= s[i] <= 6
    ensures Sum(s) !in {1, 2, 3, 7}
    ensures s != [] ==> Sum(s) >= 4
    ensures |s| >= 2 ==> Sum(s) >= 8
  {
    if s != [] {
      NoPartition(s[1..]);
    }
  }

  /**
   * `cut_by_four` gives up exactly when no non-empty seating at tables of
   * 4 to 6 players exists.
   */
  lemma UnsplittableIffNoPartition(n: nat)
    ensures Unsplittable(n) <==>
      !exists s: seq<int> :: s != [] && (forall i :: 0 <= i < |s| ==> 4 <= s[i] <= 6) && Sum(s) == n
  {
    if Unsplittable(n) {
      forall s: seq<int> | s != [] && (forall i :: 0 <= i < |s| ==> 4 <= s[i] <= 6)
        ensures Sum(s) != n
      {
        NoPartition(s);
      }
    } else {
      CutSizesSum(n);
      assert CutSizes(n) != [];
    }
  }

  lemma CutEleven()
    ensures CutSizes(11) == [6, 5]
  {
    assert CutSizes(11) == [6] + Rep(5, 1);
  }

  lemma CutMultipleOfFour(n: nat)
    requires n > 0 && n % 4 == 0
    ensures !Unsplittable(n) && CutSizes(n) == Rep(4, n / 4)
  {
    assert Rep(5, 0) + Rep(4, n / 4) == Rep(4, n / 4);
  }
}
