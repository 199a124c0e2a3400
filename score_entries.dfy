/**
 * The entries of a score table and their ordering: `sort_entries` sorts a
 * table's entries by gain, best first, in place.
 */
module ScoreEntries {
  import opened ListOps

  /** A `ScoreEntry`; the four numeric columns are parsed with `float`. */
  datatype ScoreEntry = ScoreEntry(
    player: string, faction: string, character: string,
    score: real, gain: real, bonus: real, newScore: real)

  function Gain(e: ScoreEntry): real
  {
    e.gain
  }

  /**
   * `sort_entries`: a stable sort by gain, best first, which is what Python's
   * `list.sort(key=..., reverse=True)` gives.
   */
  function SortEntries(entries: seq<ScoreEntry>): (r: seq<ScoreEntry>)
    ensures multiset(r) == multiset(entries)
    ensures forall i, j :: 0 <= i < j < |r| ==> r[i].gain >= r[j].gain
  {
    var r := SortDesc(entries, Gain);
    assert NonIncreasing(r, Gain);
    r
  }

  /** `sort_entries` is stable: for every gain, the entries with that gain keep their order. */
  lemma SortEntriesStable(entries: seq<ScoreEntry>, g: real)
    ensures WithKey(SortEntries(entries), Gain, g) == WithKey(entries, Gain, g)
  {
    SortDescStable(entries, Gain, g);
  }

  /** One step of the insertion: an element with a higher gain stays in front. */
  lemma InsertAbove(x: ScoreEntry, t: seq<ScoreEntry>)
    requires t != [] && t[0].gain > x.gain
    ensures InsertDesc(x, t, Gain) == [t[0]] + InsertDesc(x, t[1..], Gain)
  {
  }

  /**
   * Inserting `x` into `s` puts it after the first `m` elements when those
   * all have a higher gain and the next one, if any, does not.
   */
  lemma {:induction false} InsertPlace(x: ScoreEntry, s: seq<ScoreEntry>, m: nat)
    requires m <= |s| && (m == |s| || s[m].gain <= x.gain)
    requires forall k :: 0 <= k < m ==> s[k].gain > x.gain
    ensures InsertDesc(x, s, Gain) == s[..m] + [x] + s[m..]
  {
    if m > 0 {
      var t := s[1..];
      forall k | 0 <= k < m - 1 ensures t[k].gain > x.gain {
        assert t[k] == s[k + 1];
      }
      InsertPlace(x, t, m - 1);
      InsertStep(x, s, m);
    }
  }

  /** The recursive step of `InsertPlace`. */
  lemma InsertStep(x: ScoreEntry, s: seq<ScoreEntry>, m: nat)
    requires 0 < m <= |s| && s[0].gain > x.gain
    requires InsertDesc(x, s[1..], Gain) == s[1..][..m - 1] + [x] + s[1..][m - 1..]
    ensures InsertDesc(x, s, Gain) == s[..m] + [x] + s[m..]
  {
    InsertAbove(x, s);
    ConsSlices(s, m, x);
  }

  lemma ConsSlices<T>(s: seq<T>, m: nat, x: T)
    requires 0 < m <= |s|
    ensures [s[0]] + (s[1..][..m - 1] + [x] + s[1..][m - 1..]) == s[..m] + [x] + s[m..]
  {
    assert s[1..][..m - 1] == s[1..m] && s[1..][m - 1..] == s[m..];
    assert [s[0]] + s[1..m] == s[..m];
  }

  /** After the shift, `a[i..]` is `s` with `x` placed at offset `j - i`. */
  lemma Placed<T>(a: seq<T>, i: nat, j: nat, s: seq<T>, x: T)
    requires i <= j < |a| && |s| == |a| - i - 1
    requires forall k :: i <= k < j ==> a[k] == s[k - i]
    requires a[j] == x
    requires forall k :: j < k < |a| ==> a[k] == s[k - i - 1]
    ensures a[i..] == s[..j - i] + [x] + s[j - i..]
  {
    var r := s[..j - i] + [x] + s[j - i..];
    forall k | i <= k < |a| ensures a[k] == r[k - i] {
      if k < j {
        assert r[k - i] == s[k - i];
      } else if k > j {
        assert r[k - i] == s[k - i - 1];
      }
    }
  }

  /**
   * Shifts the entries after `i` whose gain is above `x.gain` one place to
   * the left, then writes `x` into the place `j` left free.
   */
  method ShiftHigher(entries: array<ScoreEntry>, i: nat, x: ScoreEntry) returns (j: nat)
    requires i < entries.Length
    modifies entries
    ensures i <= j < entries.Length
    ensures entries[..i] == old(entries[..i])
    ensures forall k :: i <= k < j ==> entries[k] == old(entries[k + 1]) && entries[k].gain > x.gain
    ensures entries[j] == x
    ensures forall k :: j < k < entries.Length ==> entries[k] == old(entries[k])
    ensures j + 1 == entries.Length || old(entries[j + 1]).gain <= x.gain
  {
    j := i;
    while j + 1 < entries.Length && entries[j + 1].gain > x.gain
      invariant i <= j < entries.Length
      invariant forall k :: 0 <= k < i ==> entries[k] == old(entries[k])
      invariant forall k :: i <= k < j ==> entries[k] == old(entries[k + 1]) && entries[k].gain > x.gain
      invariant forall k :: j < k < entries.Length ==> entries[k] == old(entries[k])
      decreases entries.Length - j
    {
      entries[j] := entries[j + 1];
      j := j + 1;
    }
    entries[j] := x;
  }

  /**
   * Inserts `entries[i]` into the sorted part `entries[i + 1..]`, shifting
   * the entries with a higher gain one place to the left.
   */
  method InsertEntry(entries: array<ScoreEntry>, i: nat)
    requires i < entries.Length
    modifies entries
    ensures entries[..i] == old(entries[..i])
    ensures entries[i..] == InsertDesc(old(entries[i]), old(entries[i + 1..]), Gain)
  {
    var x := entries[i];
    ghost var before := entries[..];
    var j := ShiftHigher(entries, i, x);
    ghost var s := before[i + 1..];
    TailPlaced(entries, before, s, i, j, x);
    InsertPlace(x, s, j - i);
    assert old(entries[i + 1..]) == s;
  }

  /**
   * After the shift, the tail from `i` is the old tail `s` after `i` with `x`
   * placed after its first `j - i` entries, which all have a higher gain,
   * while the next one, if any, does not.
   */
  lemma TailPlaced(entries: array<ScoreEntry>, before: seq<ScoreEntry>, s: seq<ScoreEntry>, i: nat, j: nat, x: ScoreEntry)
    requires i <= j < entries.Length == |before| && s == before[i + 1..]
    requires forall k :: i <= k < j ==> entries[k] == before[k + 1] && entries[k].gain > x.gain
    requires entries[j] == x
    requires forall k :: j < k < entries.Length ==> entries[k] == before[k]
    requires j + 1 == |before| || before[j + 1].gain <= x.gain
    ensures entries[i..] == s[..j - i] + [x] + s[j - i..]
    ensures forall k :: 0 <= k < j - i ==> s[k].gain > x.gain
    ensures j - i == |s| || s[j - i].gain <= x.gain
  {
    var after := entries[..];
    forall k | 0 <= k < j - i ensures s[k].gain > x.gain && after[k + i] == s[k] {
      assert after[k + i] == before[k + i + 1];
    }
    assert j + 1 < |before| ==> s[j - i] == before[j + 1];
    Placed(after, i, j, s, x);
  }

  /**
   * `sort_entries` sorts the list in place; here the list is an array and the
   * new contents are the stable sort by gain of the old ones.
   */
  method SortEntriesInPlace(entries: array<ScoreEntry>)
    modifies entries
    ensures entries[..] == SortEntries(old(entries[..]))
  {
    ghost var s := entries[..];
    var i := entries.Length;
    while i > 0
      invariant 0 <= i <= entries.Length
      invariant entries[..i] == s[..i]
      invariant entries[i..] == SortDesc(s[i..], Gain)
    {
      i := i - 1;
      DropDrop(s, i);
      InsertEntry(entries, i);
    }
    DropNone(s);
  }

  /** The list of a table's entries, sorted in place by `sort_entries`. */
  method SortList(entries: seq<ScoreEntry>) returns (sorted: seq<ScoreEntry>)
    ensures sorted == SortEntries(entries)
  {
    var list := new ScoreEntry[|entries|](k requires 0 <= k < |entries| => entries[k]);
    assert list[..] == entries;
    SortEntriesInPlace(list);
    sorted := list[..];
  }
}
