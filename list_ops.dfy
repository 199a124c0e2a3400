/**
 * Sequence helpers of the matchmaking script: its own `remove_all`, and models
 * of the Python list built-ins the core relies on (`list.remove`,
 * `list.reverse`, the stable `list.sort` with `reverse=True`, and the
 * concatenation of a list of tables).
 */
module ListOps {

  /** `s.remove(x)`: drops the first occurrence of `x`. */
  function RemoveFirst<T(==)>(s: seq<T>, x: T): (r: seq<T>)
    requires x in s
    ensures |r| == |s| - 1
  {
    if s[0] == x then s[1..] else [s[0]] + RemoveFirst(s[1..], x)
  }

  /** `list.remove` takes away exactly one copy of `x`. */
  lemma {:induction false} RemoveFirstMultiset<T>(s: seq<T>, x: T)
    requires x in s
    ensures multiset(RemoveFirst(s, x)) == multiset(s) - multiset{x}
  {
    assert s == [s[0]] + s[1..];
    if s[0] != x {
      RemoveFirstMultiset(s[1..], x);
    }
  }

  /** When `s[i]` is the first `x`, `s.remove(x)` deletes position `i`. */
  lemma {:induction false} RemoveFirstAt<T>(s: seq<T>, i: nat)
    requires i < |s| && s[i] !in s[..i]
    ensures RemoveFirst(s, s[i]) == s[..i] + s[i + 1..]
  {
    if i > 0 {
      var t := s[1..];
      assert t[i - 1] == s[i];
      assert t[..i - 1] == s[1..i];
      RemoveFirstAt(t, i - 1);
      assert t[i..] == s[i + 1..];
      assert s[..i] == [s[0]] + t[..i - 1];
    }
  }

  /** Taking one more element of a list appends it. */
  lemma TakeSnoc<T>(s: seq<T>, i: nat)
    requires i < |s|
    ensures s[..i + 1] == s[..i] + [s[i]]
  {
  }

  lemma TakeTake<T>(s: seq<T>, i: nat)
    requires i < |s|
    ensures s[..i + 1][..i] == s[..i]
  {
  }

  lemma TakeAll<T>(s: seq<T>)
    ensures s[..|s|] == s
  {
  }

  lemma AppendAssoc<T>(a: seq<T>, b: seq<T>, c: seq<T>)
    ensures a + (b + c) == (a + b) + c
  {
  }

  /** Updating past the head updates the tail one place earlier. */
  lemma UpdateTail<T>(s: seq<T>, i: nat, x: T)
    requires 0 < i < |s|
    ensures s[i := x][1..] == s[1..][i - 1 := x]
  {
  }

  lemma UpdateHead<T>(s: seq<T>, x: T)
    requires s != []
    ensures s[0 := x][1..] == s[1..]
  {
  }

  lemma DropDrop<T>(s: seq<T>, i: nat)
    requires i < |s|
    ensures s[i..][1..] == s[i + 1..]
  {
  }

  lemma TakeTail<T>(s: seq<T>, i: nat)
    requires 0 < i <= |s|
    ensures s[..i][1..] == s[1..][..i - 1]
  {
  }

  lemma DropNone<T>(s: seq<T>)
    ensures s[0..] == s
  {
  }

  /** A non-empty list is its front followed by its last element. */
  lemma DropLast<T>(s: seq<T>)
    requires s != []
    ensures s == s[..|s| - 1] + [s[|s| - 1]]
  {
  }

  /** `s` with every element equal to `x` taken out, order kept. */
  function Without<T(==)>(s: seq<T>, x: T): (r: seq<T>)
    ensures x !in r
    ensures |r| <= |s|
  {
    if s == [] then []
    else (if s[0] == x then [] else [s[0]]) + Without(s[1..], x)
  }

  /** Taking out every `x` keeps every other element with its multiplicity. */
  lemma {:induction false} WithoutMultiset<T>(s: seq<T>, x: T)
    ensures multiset(Without(s, x)) == multiset(s)[x := 0]
  {
    if s != [] {
      assert s == [s[0]] + s[1..];
      WithoutMultiset(s[1..], x);
    }
  }

  lemma {:induction false} WithoutAppend<T>(a: seq<T>, b: seq<T>, x: T)
    ensures Without(a + b, x) == Without(a, x) + Without(b, x)
  {
    if a == [] {
      assert a + b == b;
    } else {
      var h := if a[0] == x then [] else [a[0]];
      assert (a + b)[0] == a[0];
      assert (a + b)[1..] == a[1..] + b;
      assert Without(a + b, x) == h + Without(a[1..] + b, x);
      WithoutAppend(a[1..], b, x);
      assert Without(a, x) == h + Without(a[1..], x);
    }
  }

  lemma {:induction false} WithoutAbsent<T>(s: seq<T>, x: T)
    requires x !in s
    ensures Without(s, x) == s
  {
    if s != [] {
      WithoutAbsent(s[1..], x);
    }
  }

  /** Deleting one `x` does not change what is left once every `x` is gone. */
  lemma WithoutDropsOne<T>(s: seq<T>, i: nat, x: T)
    requires i < |s| && s[i] == x
    ensures Without(s[..i] + s[i + 1..], x) == Without(s, x)
  {
    var u, v := s[..i], s[i + 1..];
    var w := [x] + v;
    assert s == u + w;
    assert w[0] == x && w[1..] == v;
    assert Without(w, x) == Without(v, x);
    WithoutAppend(u, w, x);
    WithoutAppend(u, v, x);
  }

  /**
   * remove_all: deletes every `x` from the list. The list is updated in place
   * in the source; here the updated list is the returned value.
   */
  method RemoveAll<T(==)>(s: seq<T>, x: T) returns (l: seq<T>)
    ensures l == Without(s, x)
  {
    l := s;
    var i := 0;
    while i < |l|
      invariant 0 <= i <= |l|
      invariant x !in l[..i]
      invariant Without(l, x) == Without(s, x)
      decreases |l| - i
    {
      if l[i] == x {
        RemoveStep(l, i, x);
        l := RemoveFirst(l, x);
        continue;
      }
      TakeSnoc(l, i);
      i := i + 1;
    }
    assert l[..i] == l;
    WithoutAbsent(l, x);
  }

  /** One `remove` inside `remove_all`: the prefix before the first `x` stays, and so does what `Without` gives. */
  lemma RemoveStep<T>(l: seq<T>, i: nat, x: T)
    requires i < |l| && l[i] == x && x !in l[..i]
    ensures RemoveFirst(l, x)[..i] == l[..i]
    ensures Without(RemoveFirst(l, x), x) == Without(l, x)
  {
    RemoveFirstAt(l, i);
    WithoutDropsOne(l, i, x);
    assert (l[..i] + l[i + 1..])[..i] == l[..i];
  }

  /** No element occurs twice. */
  predicate Distinct<T(==)>(s: seq<T>)
  {
    forall i, j :: 0 <= i < j < |s| ==> s[i] != s[j]
  }

  lemma {:induction false} DistinctMultiplicity<T>(s: seq<T>, x: T)
    requires Distinct(s)
    ensures multiset(s)[x] <= 1
  {
    if s != [] {
      assert s == [s[0]] + s[1..];
      assert Distinct(s[1..]);
      DistinctMultiplicity(s[1..], x);
      assert x == s[0] ==> x !in s[1..];
    }
  }

  /** A sequence holding no element twice has no repetitions. */
  lemma CountDistinct<T>(b: seq<T>)
    requires forall y :: multiset(b)[y] <= 1
    ensures Distinct(b)
  {
    forall i, j | 0 <= i < j < |b| ensures b[i] != b[j] {
      assert b == b[..j] + b[j..];
      assert multiset(b)[b[j]] == multiset(b[..j])[b[j]] + multiset(b[j..])[b[j]];
      assert b[j] in b[j..] && b[i] in b[..j];
    }
  }

  /** A rearrangement of a sequence without repetitions has none either. */
  lemma DistinctPermutation<T>(a: seq<T>, b: seq<T>)
    requires multiset(a) == multiset(b) && Distinct(a)
    ensures Distinct(b)
  {
    forall y ensures multiset(b)[y] <= 1 {
      DistinctMultiplicity(a, y);
    }
    CountDistinct(b);
  }

  /** `list.reverse()`. */
  function Reversed<T>(s: seq<T>): (r: seq<T>)
    ensures |r| == |s|
    ensures forall i :: 0 <= i < |s| ==> r[i] == s[|s| - 1 - i]
  {
    if s == [] then [] else Reversed(s[1..]) + [s[0]]
  }

  /** The elements of `s` in non-increasing order of `key`. */
  ghost predicate NonIncreasing<T>(s: seq<T>, key: T -> real)
  {
    forall i, j :: 0 <= i < j < |s| ==> key(s[i]) >= key(s[j])
  }

  /** Two sorted runs joined, every key of the first at least every key of the second. */
  lemma NonIncreasingAppend<T>(a: seq<T>, b: seq<T>, key: T -> real, k: real)
    requires NonIncreasing(a, key) && NonIncreasing(b, key)
    requires forall x :: x in a ==> key(x) >= k
    requires forall x :: x in b ==> key(x) <= k
    ensures NonIncreasing(a + b, key)
  {
    var c := a + b;
    forall i, j | 0 <= i < j < |c| ensures key(c[i]) >= key(c[j]) {
      if j < |a| {
        assert c[i] == a[i] && c[j] == a[j];
      } else if i >= |a| {
        assert c[i] == b[i - |a|] && c[j] == b[j - |a|];
      } else {
        assert c[i] == a[i] && c[j] == b[j - |a|];
      }
    }
  }

  /** Inserts `x` in front of the first element whose key is not above `key(x)`. */
  function InsertDesc<T(==)>(x: T, s: seq<T>, key: T -> real): (r: seq<T>)
    ensures multiset(r) == multiset(s) + multiset{x}
    ensures |r| == |s| + 1
  {
    assert s != [] ==> s == [s[0]] + s[1..];
    if s == [] || key(s[0]) <= key(x) then [x] + s
    else [s[0]] + InsertDesc(x, s[1..], key)
  }

  lemma {:induction false} InsertDescSorted<T>(x: T, s: seq<T>, key: T -> real)
    requires NonIncreasing(s, key)
    ensures NonIncreasing(InsertDesc(x, s, key), key)
  {
    if s == [] || key(s[0]) <= key(x) {
      forall y | y in s ensures key(y) <= key(x) {
        var k :| 0 <= k < |s| && s[k] == y;
        assert key(s[k]) <= key(s[0]);
      }
      assert InsertDesc(x, s, key) == [x] + s;
      NonIncreasingAppend([x], s, key, key(x));
    } else {
      var t := InsertDesc(x, s[1..], key);
      NonIncreasingTail(s, key);
      InsertDescSorted(x, s[1..], key);
      forall y | y in t ensures key(y) <= key(s[0]) {
        assert y in multiset(t);
        if y != x {
          assert y in multiset(s[1..]);
          var k :| 0 <= k < |s[1..]| && s[1..][k] == y;
          assert s[1..][k] == s[k + 1];
        }
      }
      assert InsertDesc(x, s, key) == [s[0]] + t;
      NonIncreasingAppend([s[0]], t, key, key(s[0]));
    }
  }

  /**
   * `list.sort(key=key, reverse=True)`: Python's sort is stable, and so is
   * this insertion sort, which places each element before the later
   * elements of equal key; the result is therefore the one Python gives.
   */
  function SortDesc<T(==)>(s: seq<T>, key: T -> real): (r: seq<T>)
    ensures multiset(r) == multiset(s)
    ensures |r| == |s|
    ensures NonIncreasing(r, key)
  {
    if s == [] then []
    else
      assert s == [s[0]] + s[1..];
      InsertDescSorted(s[0], SortDesc(s[1..], key), key);
      InsertDesc(s[0], SortDesc(s[1..], key), key)
  }

  /** The elements of `s` whose key is `k`, in their order in `s`. */
  function WithKey<T>(s: seq<T>, key: T -> real, k: real): (r: seq<T>)
    ensures forall i :: 0 <= i < |r| ==> key(r[i]) == k
    ensures |r| <= |s|
  {
    if s == [] then [] else (if key(s[0]) == k then [s[0]] else []) + WithKey(s[1..], key, k)
  }

  /** Inserting `x` passes over elements of higher key only, so it lands in front of all elements of its own key. */
  lemma {:induction false} InsertDescWithKey<T>(x: T, s: seq<T>, key: T -> real, k: real)
    ensures WithKey(InsertDesc(x, s, key), key, k) == (if key(x) == k then [x] else []) + WithKey(s, key, k)
  {
    if s == [] || key(s[0]) <= key(x) {
      assert ([x] + s)[1..] == s;
    } else {
      var t := InsertDesc(x, s[1..], key);
      assert ([s[0]] + t)[1..] == t;
      InsertDescWithKey(x, s[1..], key, k);
    }
  }

  /**
   * The sort is stable: for every key, the elements of that key keep their
   * relative order.
   */
  lemma {:induction false} SortDescStable<T>(s: seq<T>, key: T -> real, k: real)
    ensures WithKey(SortDesc(s, key), key, k) == WithKey(s, key, k)
  {
    if s != [] {
      SortDescStable(s[1..], key, k);
      InsertDescWithKey(s[0], SortDesc(s[1..], key), key, k);
    }
  }

  lemma {:induction false} SortDescOfSorted<T>(s: seq<T>, key: T -> real)
    requires NonIncreasing(s, key)
    ensures SortDesc(s, key) == s
  {
    if s != [] {
      var t := s[1..];
      NonIncreasingTail(s, key);
      SortDescOfSorted(t, key);
      assert t != [] ==> key(t[0]) <= key(s[0]) by {
        if t != [] {
          assert t[0] == s[1];
        }
      }
      assert SortDesc(s, key) == InsertDesc(s[0], t, key);
      assert InsertDesc(s[0], t, key) == [s[0]] + t;
      DropFirst(s);
    }
  }

  lemma NonIncreasingTail<T>(s: seq<T>, key: T -> real)
    requires s != [] && NonIncreasing(s, key)
    ensures NonIncreasing(s[1..], key)
  {
    forall i, j | 0 <= i < j < |s| - 1 ensures key(s[1..][i]) >= key(s[1..][j]) {
      assert s[1..][i] == s[i + 1] && s[1..][j] == s[j + 1];
    }
  }

  /** A non-empty list is its first element followed by the rest. */
  lemma DropFirst<T>(s: seq<T>)
    requires s != []
    ensures [s[0]] + s[1..] == s
  {
  }

  /** The players of all tables, table after table. */
  function Flatten<T>(t: seq<seq<T>>): (r: seq<T>)
  {
    if t == [] then [] else t[0] + Flatten(t[1..])
  }

  lemma {:induction false} FlattenAppend<T>(a: seq<seq<T>>, b: seq<seq<T>>)
    ensures Flatten(a + b) == Flatten(a) + Flatten(b)
  {
    if a == [] {
      assert a + b == b;
    } else {
      assert (a + b)[0] == a[0];
      assert (a + b)[1..] == a[1..] + b;
      FlattenAppend(a[1..], b);
    }
  }

  lemma {:induction false} FlattenMember<T>(t: seq<seq<T>>, i: nat, x: T)
    requires i < |t| && x in t[i]
    ensures x in Flatten(t)
  {
    if i > 0 {
      FlattenMember(t[1..], i - 1, x);
    }
  }

  lemma {:induction false} FlattenUpdate<T>(t: seq<seq<T>>, i: nat, x: seq<T>)
    requires i < |t|
    ensures multiset(Flatten(t[i := x])) + multiset(t[i]) == multiset(Flatten(t)) + multiset(x)
  {
    if i > 0 {
      assert t[i := x][0] == t[0];
      assert t[i := x][1..] == t[1..][i - 1 := x];
      assert t[1..][i - 1] == t[i];
      FlattenUpdate(t[1..], i - 1, x);
      calc {
        multiset(Flatten(t[i := x])) + multiset(t[i]);
        multiset(t[0]) + multiset(Flatten(t[1..][i - 1 := x])) + multiset(t[1..][i - 1]);
        multiset(t[0]) + (multiset(Flatten(t[1..][i - 1 := x])) + multiset(t[1..][i - 1]));
        multiset(t[0]) + (multiset(Flatten(t[1..])) + multiset(x));
        multiset(Flatten(t)) + multiset(x);
      }
    } else {
      assert t[i := x][1..] == t[1..];
    }
  }

  /** Rearranging one table keeps the multiset of all players. */
  lemma {:induction false} FlattenPermuteOne<T>(t: seq<seq<T>>, i: nat, x: seq<T>)
    requires i < |t| && multiset(x) == multiset(t[i])
    ensures multiset(Flatten(t[i := x])) == multiset(Flatten(t))
  {
    if i > 0 {
      assert t[i := x][0] == t[0];
      assert t[i := x][1..] == t[1..][i - 1 := x];
      FlattenPermuteOne(t[1..], i - 1, x);
    } else {
      assert t[i := x][1..] == t[1..];
    }
  }

  /** Rearranging every table keeps the multiset of all players. */
  lemma {:induction false} FlattenPermuteEach<T>(a: seq<seq<T>>, b: seq<seq<T>>)
    requires |a| == |b| && forall t :: 0 <= t < |a| ==> multiset(a[t]) == multiset(b[t])
    ensures multiset(Flatten(a)) == multiset(Flatten(b))
  {
    if a != [] {
      FlattenPermuteEach(a[1..], b[1..]);
    }
  }

  lemma {:induction false} FlattenMemberInv<T>(t: seq<seq<T>>, x: T)
    requires x in Flatten(t)
    ensures exists i :: 0 <= i < |t| && x in t[i]
  {
    if x !in t[0] {
      FlattenMemberInv(t[1..], x);
      var i :| 0 <= i < |t[1..]| && x in t[1..][i];
      assert x in t[i + 1];
    }
  }

  /** `t[u]` sits between the tables before it and the tables after it. */
  lemma {:induction false} FlattenSplit<T>(t: seq<seq<T>>, u: nat)
    requires u < |t|
    ensures Flatten(t) == Flatten(t[..u]) + t[u] + Flatten(t[u + 1..])
  {
    if u == 0 {
      assert t[..u] == [];
    } else {
      FlattenSplit(t[1..], u - 1);
      assert t[..u][0] == t[0] && t[..u][1..] == t[1..][..u - 1];
      assert t[1..][u..] == t[u + 1..];
    }
  }

  /** Both halves of a sequence without repetitions have none, and share nothing. */
  lemma DistinctSplit<T>(a: seq<T>, b: seq<T>)
    requires Distinct(a + b)
    ensures Distinct(a) && Distinct(b)
    ensures forall x :: x in a ==> x !in b
  {
    forall i, j | 0 <= i < j < |a| ensures a[i] != a[j] {
      assert (a + b)[i] == a[i] && (a + b)[j] == a[j];
    }
    forall i, j | 0 <= i < j < |b| ensures b[i] != b[j] {
      assert (a + b)[|a| + i] == b[i] && (a + b)[|a| + j] == b[j];
    }
    forall i, j | 0 <= i < |a| && 0 <= j < |b| ensures a[i] != b[j] {
      assert (a + b)[i] == a[i] && (a + b)[|a| + j] == b[j];
    }
  }

  /** A sequence without repetitions has as many distinct elements as positions. */
  lemma {:induction false} DistinctCard<T>(s: seq<T>)
    requires Distinct(s)
    ensures |set x | x in s| == |s|
  {
    if s != [] {
      assert Distinct(s[1..]);
      DistinctCard(s[1..]);
      assert (set x | x in s) == {s[0]} + (set x | x in s[1..]);
      assert s[0] !in s[1..];
    }
  }
}
