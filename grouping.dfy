/**
 * `partial_sort_score` and `group_players`: the players sorted by
 * decreasing score, players of equal score in random order, then cut into
 * consecutive tables of the sizes `cut_by_four` gives. The random order of
 * each group of equal score is the `shuffle` parameter, a function that may
 * rearrange a list in any way.
 */
module Grouping {
  import opened Wrappers
  import opened ListOps
  import opened Players
  import opened Partition
  import opened DayDeduction

  /** A player's score (names off the roster never reach it). */
  function ScoreOf(info: PlayersInfo, p: Name): Score
  {
    if p in info then info[p].score else 0.0
  }

  /** The sort key `lambda name: playersInfo[name].score`. */
  function ScoreKey(info: PlayersInfo): Name -> real
  {
    p => ScoreOf(info, p)
  }

  /** Scores sort by themselves. */
  function Id(x: real): real
  {
    x
  }

  /** Table sizes sort by their value. */
  function IntKey(x: int): real
  {
    x as real
  }

  /** `rng.shuffle`: whatever it returns is a rearrangement of its input. */
  ghost predicate IsShuffle(shuffle: seq<Name> -> seq<Name>)
  {
    forall s :: multiset(shuffle(s)) == multiset(s)
  }

  /** The distinct scores of `names` in order of first occurrence: the keys of `playersOfScore`. */
  function Scores(info: PlayersInfo, names: seq<Name>): (r: seq<Score>)
    ensures Distinct(r)
    ensures forall i :: 0 <= i < |names| ==> ScoreOf(info, names[i]) in r
  {
    if names == [] then []
    else
      var init := names[..|names| - 1];
      var prev := Scores(info, init);
      var x := ScoreOf(info, names[|names| - 1]);
      assert forall i :: 0 <= i < |names| - 1 ==> names[i] == init[i];
      if x in prev then prev else prev + [x]
  }

  /** The players of `names` whose score is `x`, in order: `playersOfScore[x]` before shuffling. */
  function Bucket(info: PlayersInfo, names: seq<Name>, x: Score): seq<Name>
  {
    if names == [] then []
    else
      var p := names[|names| - 1];
      Bucket(info, names[..|names| - 1], x) + (if ScoreOf(info, p) == x then [p] else [])
  }

  lemma {:induction false} BucketScores(info: PlayersInfo, names: seq<Name>, x: Score, p: Name)
    requires p in Bucket(info, names, x)
    ensures ScoreOf(info, p) == x
  {
    if names != [] && p in Bucket(info, names[..|names| - 1], x) {
      BucketScores(info, names[..|names| - 1], x, p);
    }
  }

  /** The shuffled buckets of the scores `ks`, one after the other. */
  function Blocks(info: PlayersInfo, names: seq<Name>, shuffle: seq<Name> -> seq<Name>, ks: seq<Score>): seq<Name>
  {
    if ks == [] then []
    else Blocks(info, names, shuffle, ks[..|ks| - 1]) + shuffle(Bucket(info, names, ks[|ks| - 1]))
  }

  /** What `partial_sort_score` returns: the shuffled buckets by decreasing score. */
  ghost function ScoreOrder(info: PlayersInfo, names: seq<Name>, shuffle: seq<Name> -> seq<Name>): seq<Name>
  {
    Blocks(info, names, shuffle, SortDesc(Scores(info, names), Id))
  }

  /**
   * The first loop of `partial_sort_score`: `playersOfScore[x]` lists the
   * players of score `x` in order; `scores` is the key order of that dict.
   */
  method CollectBuckets(info: PlayersInfo, names: seq<Name>)
    returns (playersOfScore: map<Score, seq<Name>>, scores: seq<Score>)
    requires Known(info, names)
    ensures scores == Scores(info, names)
    ensures forall x :: x in playersOfScore <==> x in scores
    ensures forall x :: x in playersOfScore ==> playersOfScore[x] == Bucket(info, names, x)
  {
    playersOfScore := map[];
    scores := [];
    for i := 0 to |names|
      invariant BucketsUpTo(info, names[..i], playersOfScore, scores)
    {
      var m, ks := playersOfScore, scores;
      var score := info[names[i]].score;
      if score !in playersOfScore {
        playersOfScore := playersOfScore[score := []];
        scores := scores + [score];
      }
      playersOfScore := playersOfScore[score := playersOfScore[score] + [names[i]]];
      CollectStep(info, names[..i], names[i], m, ks, playersOfScore, scores);
      TakeSnoc(names, i);
    }
    TakeAll(names);
  }

  /** The dict and its key list after the first loop has seen `names`. */
  ghost predicate BucketsUpTo(info: PlayersInfo, names: seq<Name>, m: map<Score, seq<Name>>, ks: seq<Score>)
  {
    && ks == Scores(info, names)
    && (forall x :: x in m <==> x in ks)
    && (forall x :: x in m ==> m[x] == Bucket(info, names, x))
    && (forall x :: x !in m ==> Bucket(info, names, x) == [])
  }

  /** One more player appends its score to the keys if new, and itself to its bucket. */
  lemma CollectStep(info: PlayersInfo, s: seq<Name>, p: Name,
                    m: map<Score, seq<Name>>, ks: seq<Score>, m': map<Score, seq<Name>>, ks': seq<Score>)
    requires BucketsUpTo(info, s, m, ks)
    requires var x := ScoreOf(info, p);
      && ks' == (if x in m then ks else ks + [x])
      && m' == m[x := (if x in m then m[x] else []) + [p]]
    ensures BucketsUpTo(info, s + [p], m', ks')
  {
    var x := ScoreOf(info, p);
    ScoresSnoc(info, s, p);
    assert x in m <==> x in ks;
    forall y | y in m' ensures m'[y] == Bucket(info, s + [p], y) {
      BucketSnoc(info, s, p, y);
      if y != x {
        assert m'[y] == m[y];
      }
    }
    forall y | y !in m' ensures Bucket(info, s + [p], y) == [] {
      BucketSnoc(info, s, p, y);
    }
  }

  lemma ScoresSnoc(info: PlayersInfo, s: seq<Name>, p: Name)
    ensures var x := ScoreOf(info, p);
      Scores(info, s + [p]) == if x in Scores(info, s) then Scores(info, s) else Scores(info, s) + [x]
  {
    assert (s + [p])[..|s|] == s;
  }

  lemma BucketSnoc(info: PlayersInfo, s: seq<Name>, p: Name, y: Score)
    ensures Bucket(info, s + [p], y) == Bucket(info, s, y) + (if ScoreOf(info, p) == y then [p] else [])
  {
    assert (s + [p])[..|s|] == s;
  }

  /** The second loop: every list of the dict is shuffled, once. */
  method ShuffleEach(playersOfScore: map<Score, seq<Name>>, scores: seq<Score>, shuffle: seq<Name> -> seq<Name>)
    returns (shuffled: map<Score, seq<Name>>)
    requires Distinct(scores)
    requires forall x :: x in playersOfScore <==> x in scores
    ensures forall x :: x in shuffled <==> x in scores
    ensures forall x :: x in shuffled ==> shuffled[x] == shuffle(playersOfScore[x])
  {
    shuffled := playersOfScore;
    assert forall k :: 0 <= k < |scores| ==> scores[k] in scores;
    for j := 0 to |scores|
      invariant forall x :: x in shuffled <==> x in scores
      invariant forall k :: 0 <= k < |scores| ==> scores[k] in shuffled && scores[k] in playersOfScore
      invariant forall k :: 0 <= k < j ==> shuffled[scores[k]] == shuffle(playersOfScore[scores[k]])
      invariant forall k :: j <= k < |scores| ==> shuffled[scores[k]] == playersOfScore[scores[k]]
    {
      assert forall k :: 0 <= k < |scores| && k != j ==> scores[k] != scores[j];
      shuffled := shuffled[scores[j] := shuffle(shuffled[scores[j]])];
    }
    forall x | x in shuffled ensures shuffled[x] == shuffle(playersOfScore[x]) {
      var k :| 0 <= k < |scores| && scores[k] == x;
    }
  }

  /** The last loop of `partial_sort_score`: the shuffled lists, by decreasing score. */
  method JoinBlocks(info: PlayersInfo, names: seq<Name>, shuffle: seq<Name> -> seq<Name>,
                    shuffled: map<Score, seq<Name>>, order: seq<Score>)
    returns (players: seq<Name>)
    requires forall k :: 0 <= k < |order| ==> order[k] in shuffled
    requires forall k :: 0 <= k < |order| ==> shuffled[order[k]] == shuffle(Bucket(info, names, order[k]))
    ensures players == Blocks(info, names, shuffle, order)
  {
    players := [];
    for j := 0 to |order|
      invariant players == Blocks(info, names, shuffle, order[..j])
    {
      TakeTake(order, j);
      players := players + shuffled[order[j]];
    }
    TakeAll(order);
  }

  /** `partial_sort_score`; `names` is the iteration order of `playersInfo`. */
  method PartialSortScore(info: PlayersInfo, names: seq<Name>, shuffle: seq<Name> -> seq<Name>)
    returns (players: seq<Name>)
    requires Known(info, names)
    ensures players == ScoreOrder(info, names, shuffle)
  {
    var playersOfScore, scores := CollectBuckets(info, names);
    var shuffled := ShuffleEach(playersOfScore, scores, shuffle);
    var order := SortDesc(scores, Id);
    forall k | 0 <= k < |order| ensures order[k] in shuffled {
      assert order[k] in multiset(scores);
    }
    players := JoinBlocks(info, names, shuffle, shuffled, order);
  }

  /** `playersOfScore[k]` holds every player of score `k`, as often as `names` does, and nobody else. */
  lemma {:induction false} BucketCount(info: PlayersInfo, names: seq<Name>, k: Score, y: Name)
    ensures multiset(Bucket(info, names, k))[y] == if ScoreOf(info, y) == k then multiset(names)[y] else 0
  {
    if names != [] {
      var init, p := names[..|names| - 1], names[|names| - 1];
      BucketCount(info, init, k, y);
      var extra: seq<Name> := if ScoreOf(info, p) == k then [p] else [];
      DropLast(names);
      assert multiset(names) == multiset(init) + multiset{p};
      assert Bucket(info, names, k) == Bucket(info, init, k) + extra;
      assert multiset(Bucket(info, names, k)) == multiset(Bucket(info, init, k)) + multiset(extra);
      if ScoreOf(info, y) != k {
        assert multiset(extra)[y] == 0;
      }
    }
  }

  /** The blocks of the distinct scores `ks` hold exactly the players whose score is among them. */
  lemma {:induction false} BlocksCount(info: PlayersInfo, names: seq<Name>, shuffle: seq<Name> -> seq<Name>, ks: seq<Score>, y: Name)
    requires IsShuffle(shuffle) && Distinct(ks)
    ensures multiset(Blocks(info, names, shuffle, ks))[y] == if ScoreOf(info, y) in ks then multiset(names)[y] else 0
  {
    if ks != [] {
      var init, k := ks[..|ks| - 1], ks[|ks| - 1];
      assert ks == init + [k];
      assert Distinct(init) && k !in init;
      BlocksCount(info, names, shuffle, init, y);
      BucketCount(info, names, k, y);
      var b := shuffle(Bucket(info, names, k));
      assert multiset(b) == multiset(Bucket(info, names, k));
      assert multiset(Blocks(info, names, shuffle, ks)) == multiset(Blocks(info, names, shuffle, init)) + multiset(b);
      assert ScoreOf(info, y) in ks <==> ScoreOf(info, y) in init || ScoreOf(info, y) == k;
    }
  }

  /** `partial_sort_score` returns every player exactly once. */
  lemma ScoreOrderPermutation(info: PlayersInfo, names: seq<Name>, shuffle: seq<Name> -> seq<Name>)
    requires IsShuffle(shuffle)
    ensures multiset(ScoreOrder(info, names, shuffle)) == multiset(names)
  {
    var scores := Scores(info, names);
    var order := SortDesc(scores, Id);
    DistinctPermutation(scores, order);
    forall y ensures multiset(ScoreOrder(info, names, shuffle))[y] == multiset(names)[y] {
      BlocksCount(info, names, shuffle, order, y);
      if y in names {
        var i :| 0 <= i < |names| && names[i] == y;
        assert ScoreOf(info, y) in multiset(scores);
      }
    }
  }

  lemma {:induction false} BlocksScores(info: PlayersInfo, names: seq<Name>, shuffle: seq<Name> -> seq<Name>, ks: seq<Score>)
    requires IsShuffle(shuffle)
    ensures forall p :: p in Blocks(info, names, shuffle, ks) ==> ScoreOf(info, p) in ks
  {
    if ks != [] {
      var init, k := ks[..|ks| - 1], ks[|ks| - 1];
      BlocksScores(info, names, shuffle, init);
      forall p | p in Blocks(info, names, shuffle, ks) ensures ScoreOf(info, p) in ks {
        if p in shuffle(Bucket(info, names, k)) {
          assert p in multiset(shuffle(Bucket(info, names, k)));
          BucketScores(info, names, k, p);
        } else {
          assert ScoreOf(info, p) in init;
        }
      }
    }
  }

  lemma {:induction false} BlocksSorted(info: PlayersInfo, names: seq<Name>, shuffle: seq<Name> -> seq<Name>, ks: seq<Score>)
    requires IsShuffle(shuffle) && Distinct(ks) && NonIncreasing(ks, Id)
    ensures NonIncreasing(Blocks(info, names, shuffle, ks), ScoreKey(info))
  {
    if ks != [] {
      var init, k := ks[..|ks| - 1], ks[|ks| - 1];
      assert Distinct(init) && NonIncreasing(init, Id);
      BlocksSorted(info, names, shuffle, init);
      BlocksScores(info, names, shuffle, init);
      var a, b := Blocks(info, names, shuffle, init), shuffle(Bucket(info, names, k));
      forall q | q in b ensures ScoreOf(info, q) == k {
        assert q in multiset(b);
        BucketScores(info, names, k, q);
      }
      forall p | p in a ensures ScoreOf(info, p) > k {
        var i :| 0 <= i < |init| && init[i] == ScoreOf(info, p);
        assert ks[i] >= ks[|ks| - 1] && ks[i] != ks[|ks| - 1];
      }
      forall i, j | 0 <= i < j < |b| ensures ScoreKey(info)(b[i]) >= ScoreKey(info)(b[j]) {
        assert b[i] in b && b[j] in b;
      }
      NonIncreasingAppend(a, b, ScoreKey(info), k);
    }
  }

  /** `partial_sort_score` orders the players by non-increasing score. */
  lemma ScoreOrderSorted(info: PlayersInfo, names: seq<Name>, shuffle: seq<Name> -> seq<Name>)
    requires IsShuffle(shuffle)
    ensures NonIncreasing(ScoreOrder(info, names, shuffle), ScoreKey(info))
  {
    var scores := Scores(info, names);
    var order := SortDesc(scores, Id);
    DistinctPermutation(scores, order);
    BlocksSorted(info, names, shuffle, order);
  }

  /** The Python slice `s[a:b]` for `0 <= a`, which stops at the end of `s`. */
  function PySlice(s: seq<Name>, a: nat, b: int): (r: seq<Name>)
    ensures b <= |s| && a <= b ==> r == s[a..b]
  {
    if a >= |s| || b <= a then [] else s[a..if b < |s| then b else |s|]
  }

  /** The tables cut from `order` from index `start` on, one per size. */
  function SlicesFrom(order: seq<Name>, sizes: seq<int>, start: nat): seq<seq<Name>>
    requires forall i :: 0 <= i < |sizes| ==> sizes[i] >= 0
  {
    if sizes == [] then []
    else [PySlice(order, start, start + sizes[0])] + SlicesFrom(order, sizes[1..], start + sizes[0])
  }

  lemma {:induction false} SlicesShape(order: seq<Name>, sizes: seq<int>, start: nat)
    requires forall i :: 0 <= i < |sizes| ==> sizes[i] >= 0
    requires start + Sum(sizes) == |order| && start <= |order|
    ensures |SlicesFrom(order, sizes, start)| == |sizes|
    ensures forall i :: 0 <= i < |sizes| ==> |SlicesFrom(order, sizes, start)[i]| == sizes[i]
    ensures Flatten(SlicesFrom(order, sizes, start)) == order[start..]
  {
    if sizes != [] {
      SumNonNegative(sizes[1..]);
      var next := start + sizes[0];
      SlicesShape(order, sizes[1..], next);
      var t := SlicesFrom(order, sizes, start);
      assert t[0] == order[start..next];
      assert t[1..] == SlicesFrom(order, sizes[1..], next);
      assert order[start..] == order[start..next] + order[next..];
    }
  }

  lemma {:induction false} SumNonNegative(sizes: seq<int>)
    requires forall i :: 0 <= i < |sizes| ==> sizes[i] >= 0
    ensures Sum(sizes) >= 0
  {
    if sizes != [] {
      SumNonNegative(sizes[1..]);
    }
  }

  /** The loop of `group_players` that slices the ordered players into tables. */
  method CutTables(players: seq<Name>, groupSizes: seq<int>) returns (tables: seq<seq<Name>>)
    requires forall i :: 0 <= i < |groupSizes| ==> groupSizes[i] >= 0
    ensures tables == SlicesFrom(players, groupSizes, 0)
  {
    tables := [];
    var playerIndex: nat := 0;
    assert groupSizes[0..] == groupSizes;
    for j := 0 to |groupSizes|
      invariant tables + SlicesFrom(players, groupSizes[j..], playerIndex) == SlicesFrom(players, groupSizes, 0)
    {
      SlicesStep(players, groupSizes, j, playerIndex, tables);
      tables := tables + [PySlice(players, playerIndex, playerIndex + groupSizes[j])];
      playerIndex := playerIndex + groupSizes[j];
    }
    assert groupSizes[|groupSizes|..] == [];
  }

  /** Cutting one more table moves it from the slices still to come to the tables made. */
  lemma SlicesStep(players: seq<Name>, sizes: seq<int>, j: nat, start: nat, tables: seq<seq<Name>>)
    requires forall i :: 0 <= i < |sizes| ==> sizes[i] >= 0
    requires j < |sizes|
    ensures start + sizes[j] >= 0
    ensures tables + SlicesFrom(players, sizes[j..], start) ==
      (tables + [PySlice(players, start, start + sizes[j])]) + SlicesFrom(players, sizes[j + 1..], start + sizes[j])
  {
    assert sizes[j..][0] == sizes[j];
    assert sizes[j..][1..] == sizes[j + 1..];
  }

  /** `group_players`: `None` when the players cannot be seated, else consecutive tables. */
  method GroupPlayers(info: PlayersInfo, names: seq<Name>, shuffle: seq<Name> -> seq<Name>)
    returns (r: Option<seq<seq<Name>>>)
    requires KeyOrder(names, info)
    ensures r.None? <==> Unsplittable(|names|)
    ensures r.Some? ==>
      !Unsplittable(|names|) && r.value == SlicesFrom(ScoreOrder(info, names, shuffle), CutSizes(|names|), 0)
  {
    var cutByFour := CutByFour(|names|);
    if cutByFour.None? {
      return None;
    }
    CutSizesNonIncreasing(|names|);
    assert NonIncreasing(cutByFour.value, IntKey);
    SortDescOfSorted(cutByFour.value, IntKey);
    var groupSizes := SortDesc(cutByFour.value, IntKey);
    var players := PartialSortScore(info, names, shuffle);
    var tables := CutTables(players, groupSizes);
    return Some(tables);
  }

  /**
   * When the players can be seated, the tables hold the score order table
   * after table, with the `cut_by_four` sizes (each 4 to 6), largest first.
   */
  lemma GroupPlayersShape(info: PlayersInfo, names: seq<Name>, shuffle: seq<Name> -> seq<Name>)
    requires IsShuffle(shuffle) && !Unsplittable(|names|)
    ensures var tables := SlicesFrom(ScoreOrder(info, names, shuffle), CutSizes(|names|), 0);
      && Flatten(tables) == ScoreOrder(info, names, shuffle)
      && |tables| == |names| / 4
      && (forall i :: 0 <= i < |tables| ==> |tables[i]| == CutSizes(|names|)[i] && 4 <= |tables[i]| <= 6)
      && (forall i, j :: 0 <= i <= j < |tables| ==> |tables[i]| >= |tables[j]|)
  {
    var order := ScoreOrder(info, names, shuffle);
    ScoreOrderPermutation(info, names, shuffle);
    assert |order| == |multiset(order)| == |names|;
    CutSizesSum(|names|);
    CutSizesNonIncreasing(|names|);
    SlicesShape(order, CutSizes(|names|), 0);
  }
}
