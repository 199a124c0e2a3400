/**
 * `exhaustive_search` and its helpers: every way of sending the players who
 * can play on both days to one of the two days is tried (the bits of a
 * counter say which), the players of each day are grouped into tables, and
 * among the groupings whose score is the best one found, one is chosen at
 * random. The score (`get_tables_score`) is a parameter, compared
 * lexicographically as the source compares its `(score, subscore)` tuple; the
 * random choice is the index `pick`.
 */
module Exhaustive {
  import opened Wrappers
  import opened ListOps
  import opened Players
  import opened Partition
  import opened DayDeduction
  import opened Grouping
  import opened Validator
  import opened SwapRepair

  // ---------------------------------------------------------------------
  // to_bool_list

  /** The binary digits of `n`, least significant first: what the first loop of `to_bool_list` appends. */
  function Digits(n: nat): seq<bool>
  {
    if n == 0 then [] else [n % 2 == 1] + Digits(n / 2)
  }

  function Pow2(k: nat): (r: nat)
    ensures r >= 1
  {
    if k == 0 then 1 else 2 * Pow2(k - 1)
  }

  /** Bits read least significant first. */
  function LsbValue(bs: seq<bool>): nat
  {
    if bs == [] then 0 else (if bs[0] then 1 else 0) + 2 * LsbValue(bs[1..])
  }

  /** Bits read most significant first. */
  function MsbValue(bs: seq<bool>): nat
  {
    if bs == [] then 0 else 2 * MsbValue(bs[..|bs| - 1]) + (if bs[|bs| - 1] then 1 else 0)
  }

  function Falses(k: nat): (r: seq<bool>)
    ensures |r| == k && forall i :: 0 <= i < k ==> !r[i]
  {
    seq(k, _ => false)
  }

  /** What `to_bool_list(n, size)` returns: the digits, padded with `False` up to `size`, reversed. */
  function BoolList(n: nat, size: int): (r: seq<bool>)
    ensures |r| >= size
  {
    var d := Digits(n);
    Reversed(d + Falses(if size > |d| then size - |d| else 0))
  }

  lemma {:induction false} LsbDigits(n: nat)
    ensures LsbValue(Digits(n)) == n
  {
    if n > 0 {
      LsbDigits(n / 2);
      assert Digits(n)[1..] == Digits(n / 2);
    }
  }

  lemma {:induction false} LsbPadded(bs: seq<bool>, k: nat)
    ensures LsbValue(bs + Falses(k)) == LsbValue(bs)
  {
    if bs == [] {
      assert bs + Falses(k) == Falses(k);
      if k > 0 {
        assert Falses(k)[1..] == [] + Falses(k - 1);
        LsbPadded([], k - 1);
      }
    } else {
      assert (bs + Falses(k))[1..] == bs[1..] + Falses(k);
      LsbPadded(bs[1..], k);
    }
  }

  lemma {:induction false} MsbReversed(bs: seq<bool>)
    ensures MsbValue(Reversed(bs)) == LsbValue(bs)
  {
    if bs != [] {
      var r := Reversed(bs);
      assert r == Reversed(bs[1..]) + [bs[0]];
      assert r[..|r| - 1] == Reversed(bs[1..]);
      MsbReversed(bs[1..]);
    }
  }

  lemma {:induction false} DigitsFit(n: nat, k: nat)
    requires n < Pow2(k)
    ensures |Digits(n)| <= k
  {
    if n > 0 {
      DigitsFit(n / 2, k - 1);
    }
  }

  /** `to_bool_list(n, size)` reads back as `n`, most significant bit first. */
  lemma BoolListValue(n: nat, size: int)
    ensures MsbValue(BoolList(n, size)) == n
  {
    var d := Digits(n);
    var k := if size > |d| then size - |d| else 0;
    MsbReversed(d + Falses(k));
    LsbPadded(d, k);
    LsbDigits(n);
  }

  /** It has `size` entries when `n` fits in `size` bits, and only leading `False`s are padding. */
  lemma BoolListShape(n: nat, size: nat)
    ensures |BoolList(n, size)| == if size > |Digits(n)| then size else |Digits(n)|
    ensures n < Pow2(size) ==> |BoolList(n, size)| == size
    ensures forall i :: 0 <= i < size - |Digits(n)| ==> !BoolList(n, size)[i]
  {
    if n < Pow2(size) {
      DigitsFit(n, size);
    }
  }

  lemma DigitStep(acc: seq<bool>, m: nat)
    requires m > 0
    ensures acc + Digits(m) == (acc + [m % 2 == 1]) + Digits(m / 2)
  {
  }

  lemma PadStep(d: seq<bool>, k: nat)
    ensures d + Falses(k) + [false] == d + Falses(k + 1)
  {
    assert Falses(k + 1) == Falses(k) + [false];
  }

  /** The padded digits, once reversed, are `to_bool_list`'s result. */
  lemma PaddedDigits(n: nat, size: int, padded: seq<bool>)
    requires |Digits(n)| <= |padded| && padded == Digits(n) + Falses(|padded| - |Digits(n)|)
    requires |padded| >= size && (|padded| > |Digits(n)| ==> |padded| == size)
    ensures Reversed(padded) == BoolList(n, size)
    ensures MsbValue(Reversed(padded)) == n
  {
    BoolListValue(n, size);
  }

  /** `to_bool_list`; the source asserts `n >= 0`. */
  method ToBoolList(n: nat, size: int) returns (bools: seq<bool>)
    ensures bools == BoolList(n, size)
    ensures MsbValue(bools) == n
  {
    ghost var d := Digits(n);
    bools := [];
    var m := n;
    while m > 0
      invariant bools + Digits(m) == d
    {
      DigitStep(bools, m);
      bools := bools + [m % 2 == 1];
      m := m / 2;
    }
    assert bools == d;
    while |bools| < size
      invariant |d| <= |bools|
      invariant bools == d + Falses(|bools| - |d|)
      invariant |bools| > |d| ==> |bools| <= size
      decreases size - |bools|
    {
      PadStep(d, |bools| - |d|);
      bools := bools + [false];
    }
    PaddedDigits(n, size, bools);
    bools := Reversed(bools);
  }

  // ---------------------------------------------------------------------
  // The day lists

  /** The days of a player on the roster. */
  function DaysOf(info: PlayersInfo, p: Name): DaysOk
  {
    if p in info then info[p].daysOk else (false, false)
  }

  /** `[player for player in playersInfo if playersInfo[player].daysOk == d]`. */
  function WithDays(info: PlayersInfo, names: seq<Name>, d: DaysOk): (r: seq<Name>)
  {
    if names == [] then []
    else
      var init, p := names[..|names| - 1], names[|names| - 1];
      WithDays(info, init, d) + (if DaysOf(info, p) == d then [p] else [])
  }

  /** The list keeps each player whose days are `d`, as often as `names` holds them, and nobody else. */
  lemma {:induction false} WithDaysCount(info: PlayersInfo, names: seq<Name>, d: DaysOk, y: Name)
    ensures multiset(WithDays(info, names, d))[y] == if DaysOf(info, y) == d then multiset(names)[y] else 0
  {
    if names != [] {
      var init, p := names[..|names| - 1], names[|names| - 1];
      WithDaysCount(info, init, d, y);
      var extra: seq<Name> := if DaysOf(info, p) == d then [p] else [];
      DropLast(names);
      assert multiset(names) == multiset(init) + multiset{p};
      assert WithDays(info, names, d) == WithDays(info, init, d) + extra;
      assert multiset(WithDays(info, names, d)) == multiset(WithDays(info, init, d)) + multiset(extra);
      if DaysOf(info, y) != d {
        assert multiset(extra)[y] == 0;
      }
    }
  }

  /** Membership in a day list, read off the counts. */
  lemma WithDaysMember(info: PlayersInfo, names: seq<Name>, d: DaysOk, p: Name)
    ensures p in WithDays(info, names, d) <==> p in names && DaysOf(info, p) == d
  {
    WithDaysCount(info, names, d, p);
  }

  /** A list whose players all have the days `d` keeps all of them for `d` and none for any other. */
  lemma {:induction false} WithDaysAll(info: PlayersInfo, names: seq<Name>, d: DaysOk, other: DaysOk)
    requires forall i :: 0 <= i < |names| ==> DaysOf(info, names[i]) == d
    ensures WithDays(info, names, d) == names
    ensures other != d ==> WithDays(info, names, other) == []
  {
    if names != [] {
      var init := names[..|names| - 1];
      WithDaysAll(info, init, d, other);
      assert names == init + [names[|names| - 1]];
    }
  }

  /** The flexible players the decisions send to the second day (index 1, `second`) or to the first day (index 0), in order. */
  function SentTo(day12: seq<Name>, decisions: seq<bool>, second: bool): seq<Name>
    requires |decisions| >= |day12|
  {
    if day12 == [] then []
    else
      var n := |day12| - 1;
      SentTo(day12[..n], decisions, second) + (if decisions[n] == second then [day12[n]] else [])
  }

  /** Each flexible player goes to exactly one of the two days. */
  lemma {:induction false} SentToPartition(day12: seq<Name>, decisions: seq<bool>)
    requires |decisions| >= |day12|
    ensures multiset(SentTo(day12, decisions, false)) + multiset(SentTo(day12, decisions, true)) == multiset(day12)
  {
    if day12 != [] {
      var n := |day12| - 1;
      SentToPartition(day12[..n], decisions);
      assert day12 == day12[..n] + [day12[n]];
      assert multiset(day12) == multiset(day12[..n]) + multiset{day12[n]};
    }
  }

  /** The player at position `i` goes to the second day (index 1) exactly when bit `i` of the decisions is set. */
  lemma {:induction false} SentToDecision(day12: seq<Name>, decisions: seq<bool>, i: nat)
    requires |decisions| >= |day12| && i < |day12| && Distinct(day12)
    ensures day12[i] in SentTo(day12, decisions, decisions[i])
    ensures day12[i] !in SentTo(day12, decisions, !decisions[i])
  {
    var n := |day12| - 1;
    var init := day12[..n];
    assert Distinct(init);
    if i < n {
      assert init[i] == day12[i];
      SentToDecision(init, decisions, i);
    } else {
      assert day12[i] !in init;
      SentToAmong(init, decisions, !decisions[i], day12[i]);
    }
  }

  lemma {:induction false} SentToAmong(day12: seq<Name>, decisions: seq<bool>, second: bool, p: Name)
    requires |decisions| >= |day12|
    ensures p in SentTo(day12, decisions, second) ==> p in day12
  {
    if day12 != [] {
      var n := |day12| - 1;
      SentToAmong(day12[..n], decisions, second, p);
      assert p in day12[..n] ==> p in day12;
    }
  }

  /** The `for i, player in enumerate(day12)` loop: each flexible player joins the day its bit says. */
  method SplitFlexible(day1Only: seq<Name>, day2Only: seq<Name>, day12: seq<Name>, decisions: seq<bool>)
    returns (day1Players: seq<Name>, day2Players: seq<Name>)
    requires |decisions| >= |day12|
    ensures day1Players == day1Only + SentTo(day12, decisions, false)
    ensures day2Players == day2Only + SentTo(day12, decisions, true)
  {
    day1Players, day2Players := day1Only, day2Only;
    for i := 0 to |day12|
      invariant day1Players == day1Only + SentTo(day12[..i], decisions, false)
      invariant day2Players == day2Only + SentTo(day12[..i], decisions, true)
    {
      TakeTake(day12, i);
      if decisions[i] {
        day2Players := day2Players + [day12[i]];
      } else {
        day1Players := day1Players + [day12[i]];
      }
    }
    TakeAll(day12);
  }

  // ---------------------------------------------------------------------
  // create_tables_fixed_days

  /** The sub-dict `{player: playersInfo[player] for player in players}`. */
  function Restrict(info: PlayersInfo, players: seq<Name>): (sub: PlayersInfo)
    ensures forall p :: p in sub <==> p in players && p in info
    ensures forall p :: p in sub ==> sub[p] == info[p]
  {
    map p | p in players && p in info :: info[p]
  }

  /** The tables `group_players` makes of `names`, if it can seat them. */
  ghost function Grouped(info: PlayersInfo, names: seq<Name>, shuffle: seq<Name> -> seq<Name>): Option<seq<seq<Name>>>
  {
    if Unsplittable(|names|) then None else Some(SlicesFrom(ScoreOrder(info, names, shuffle), CutSizes(|names|), 0))
  }

  /** The tables of one day: none for nobody, else `group_players` on that day's players. */
  ghost function DayTables(info: PlayersInfo, day: seq<Name>, shuffle: seq<Name> -> seq<Name>): Option<seq<seq<Name>>>
  {
    if day == [] then Some([]) else Grouped(Restrict(info, day), day, shuffle)
  }

  /** What `create_tables_fixed_days` returns: the tables of the first day (index 0) followed by those of the second day (index 1). */
  ghost function FixedDayTables(info: PlayersInfo, day1: seq<Name>, day2: seq<Name>, shuffle: seq<Name> -> seq<Name>): Option<seq<seq<Name>>>
  {
    var t1, t2 := DayTables(info, day1, shuffle), DayTables(info, day2, shuffle);
    if t1.None? || t2.None? then None else Some(t1.value + t2.value)
  }

  /** `create_tables_fixed_days`. */
  method CreateTablesFixedDays(info: PlayersInfo, day1Players: seq<Name>, day2Players: seq<Name>, shuffle: seq<Name> -> seq<Name>)
    returns (r: Option<seq<seq<Name>>>)
    requires Known(info, day1Players) && Known(info, day2Players)
    requires Distinct(day1Players) && Distinct(day2Players)
    ensures r == FixedDayTables(info, day1Players, day2Players, shuffle)
  {
    var tables1: Option<seq<seq<Name>>> := Some([]);
    if |day1Players| > 0 {
      tables1 := GroupPlayers(Restrict(info, day1Players), day1Players, shuffle);
      if tables1.None? {
        return None;
      }
    }
    var tables2: Option<seq<seq<Name>>> := Some([]);
    if |day2Players| > 0 {
      tables2 := GroupPlayers(Restrict(info, day2Players), day2Players, shuffle);
      if tables2.None? {
        return None;
      }
    }
    return Some(tables1.value + tables2.value);
  }

  /** One day's tables hold that day's players exactly once each, four to six a table. */
  lemma DayTablesShape(info: PlayersInfo, day: seq<Name>, shuffle: seq<Name> -> seq<Name>)
    requires Known(info, day) && Distinct(day) && IsShuffle(shuffle)
    requires DayTables(info, day, shuffle).Some?
    ensures var ts := DayTables(info, day, shuffle).value;
      && multiset(Flatten(ts)) == multiset(day)
      && (forall t :: 0 <= t < |ts| ==> 4 <= |ts[t]| <= 6)
      && (forall t, i :: 0 <= t < |ts| && 0 <= i < |ts[t]| ==> ts[t][i] in day)
  {
    var ts := DayTables(info, day, shuffle).value;
    if day != [] {
      var sub := Restrict(info, day);
      GroupPlayersShape(sub, day, shuffle);
      ScoreOrderPermutation(sub, day, shuffle);
      forall t, i | 0 <= t < |ts| && 0 <= i < |ts[t]| ensures ts[t][i] in day {
        FlattenMember(ts, t, ts[t][i]);
        assert ts[t][i] in multiset(day);
      }
    }
  }

  /** Every player of a list that can play on day `d`. */
  predicate AllOn(info: PlayersInfo, s: seq<Name>, d: Day)
    requires Known(info, s)
  {
    forall i :: 0 <= i < |s| ==> DayOk(info[s[i]].daysOk, d)
  }

  /** A table of players who can all play on the same day can be given a day. */
  lemma AllOnConsistent(info: PlayersInfo, s: seq<Name>, d: Day)
    requires Known(info, s) && AllOn(info, s, d)
    ensures DayConsistent(info, s)
  {
    Agreement(info, s, Some(d));
  }

  /** One day's tables, when its players can all play on that day, can each be given a day. */
  lemma DayTablesFit(info: PlayersInfo, day: seq<Name>, d: Day, shuffle: seq<Name> -> seq<Name>)
    requires Known(info, day) && Distinct(day) && IsShuffle(shuffle) && AllOn(info, day, d)
    requires DayTables(info, day, shuffle).Some?
    ensures var ts := DayTables(info, day, shuffle).value;
      && AllKnown(info, ts)
      && (forall t :: 0 <= t < |ts| ==> DayConsistent(info, ts[t]) && 4 <= |ts[t]| <= 6)
  {
    var ts := DayTables(info, day, shuffle).value;
    DayTablesShape(info, day, shuffle);
    forall t | 0 <= t < |ts| ensures Known(info, ts[t]) && DayConsistent(info, ts[t]) {
      assert forall i :: 0 <= i < |ts[t]| ==> ts[t][i] in day;
      AllOnConsistent(info, ts[t], d);
    }
  }

  /** Putting two lists of playable tables one after the other. */
  lemma JoinTables(info: PlayersInfo, a: seq<seq<Name>>, b: seq<seq<Name>>)
    requires AllKnown(info, a) && AllKnown(info, b)
    requires forall t :: 0 <= t < |a| ==> DayConsistent(info, a[t]) && 4 <= |a[t]| <= 6
    requires forall t :: 0 <= t < |b| ==> DayConsistent(info, b[t]) && 4 <= |b[t]| <= 6
    ensures AllKnown(info, a + b)
    ensures forall t :: 0 <= t < |a + b| ==> DayConsistent(info, (a + b)[t]) && 4 <= |(a + b)[t]| <= 6
  {
    forall t | 0 <= t < |a + b| ensures Known(info, (a + b)[t]) && DayConsistent(info, (a + b)[t]) && 4 <= |(a + b)[t]| <= 6 {
      if t >= |a| {
        assert (a + b)[t] == b[t - |a|];
      }
    }
  }

  /**
   * When each day's players can play on that day and no player is listed
   * twice, the tables seat each of them once, at a table that can be given a day.
   */
  lemma FixedDayTablesShape(info: PlayersInfo, day1: seq<Name>, day2: seq<Name>, shuffle: seq<Name> -> seq<Name>)
    requires Known(info, day1) && Known(info, day2) && Distinct(day1 + day2) && IsShuffle(shuffle)
    requires AllOn(info, day1, 0) && AllOn(info, day2, 1)
    requires FixedDayTables(info, day1, day2, shuffle).Some?
    ensures var ts := FixedDayTables(info, day1, day2, shuffle).value;
      && AllKnown(info, ts) && Distinct(Flatten(ts))
      && multiset(Flatten(ts)) == multiset(day1 + day2)
      && (forall t :: 0 <= t < |ts| ==> DayConsistent(info, ts[t]) && 4 <= |ts[t]| <= 6)
  {
    var t1, t2 := DayTables(info, day1, shuffle).value, DayTables(info, day2, shuffle).value;
    DistinctSplit(day1, day2);
    DayTablesShape(info, day1, shuffle);
    DayTablesShape(info, day2, shuffle);
    FlattenAppend(t1, t2);
    assert multiset(Flatten(t1 + t2)) == multiset(day1 + day2);
    DistinctPermutation(day1 + day2, Flatten(t1 + t2));
    DayTablesFit(info, day1, 0, shuffle);
    DayTablesFit(info, day2, 1, shuffle);
    JoinTables(info, t1, t2);
  }

  // ---------------------------------------------------------------------
  // exhaustive_search

  /** The players of one day for the given decisions: the fixed ones, then the flexible ones sent there. */
  function Side(info: PlayersInfo, names: seq<Name>, decisions: seq<bool>, second: bool): seq<Name>
    requires |decisions| >= |WithDays(info, names, (true, true))|
  {
    WithDays(info, names, if second then (false, true) else (true, false))
      + SentTo(WithDays(info, names, (true, true)), decisions, second)
  }

  /** A day's players are on the roster and can all play on that day. */
  lemma SideOn(info: PlayersInfo, names: seq<Name>, decisions: seq<bool>, second: bool)
    requires Known(info, names)
    requires |decisions| >= |WithDays(info, names, (true, true))|
    ensures Known(info, Side(info, names, decisions, second))
    ensures AllOn(info, Side(info, names, decisions, second), if second then 1 else 0)
  {
    var fixed := WithDays(info, names, if second then (false, true) else (true, false));
    var day12 := WithDays(info, names, (true, true));
    var sent := SentTo(day12, decisions, second);
    var side := Side(info, names, decisions, second);
    forall i | 0 <= i < |side|
      ensures side[i] in info && DayOk(info[side[i]].daysOk, if second then 1 else 0)
    {
      var p := side[i];
      if i < |fixed| {
        assert p == fixed[i];
        WithDaysMember(info, names, if second then (false, true) else (true, false), p);
      } else {
        assert p == sent[i - |fixed|];
        SentToAmong(day12, decisions, second, p);
        WithDaysMember(info, names, (true, true), p);
      }
    }
  }

  /** No player lands on both days, nor twice on one. */
  lemma SidesDistinct(info: PlayersInfo, names: seq<Name>, decisions: seq<bool>)
    requires KeyOrder(names, info)
    requires |decisions| >= |WithDays(info, names, (true, true))|
    ensures Distinct(Side(info, names, decisions, false) + Side(info, names, decisions, true))
  {
    var day12 := WithDays(info, names, (true, true));
    var both := Side(info, names, decisions, false) + Side(info, names, decisions, true);
    SentToPartition(day12, decisions);
    forall y ensures multiset(both)[y] <= 1 {
      WithDaysCount(info, names, (true, false), y);
      WithDaysCount(info, names, (false, true), y);
      WithDaysCount(info, names, (true, true), y);
      DistinctMultiplicity(names, y);
    }
    CountDistinct(both);
  }

  /** What `create_tables_fixed_days` needs of the two day lists. */
  lemma SidesReady(info: PlayersInfo, names: seq<Name>, decisions: seq<bool>)
    requires KeyOrder(names, info)
    requires |decisions| >= |WithDays(info, names, (true, true))|
    ensures Known(info, Side(info, names, decisions, false)) && Known(info, Side(info, names, decisions, true))
    ensures Distinct(Side(info, names, decisions, false)) && Distinct(Side(info, names, decisions, true))
  {
    SideOn(info, names, decisions, false);
    SideOn(info, names, decisions, true);
    SidesDistinct(info, names, decisions);
    DistinctSplit(Side(info, names, decisions, false), Side(info, names, decisions, true));
  }

  /** Every player who can play on some day lands on one of them. */
  lemma SidesCover(info: PlayersInfo, names: seq<Name>, decisions: seq<bool>, p: Name)
    requires KeyOrder(names, info)
    requires |decisions| >= |WithDays(info, names, (true, true))|
    requires p in info && Available(info, p)
    ensures p in Side(info, names, decisions, false) + Side(info, names, decisions, true)
  {
    var day12 := WithDays(info, names, (true, true));
    var day1, day2 := Side(info, names, decisions, false), Side(info, names, decisions, true);
    var d := info[p].daysOk;
    WithDaysMember(info, names, d, p);
    if d == (true, false) {
      assert p in day1;
    } else if d == (false, true) {
      assert p in day2;
    } else {
      assert d.0 && d.1;
      SentToPartition(day12, decisions);
      assert p in multiset(day12);
      if p in SentTo(day12, decisions, false) {
        assert p in day1;
      } else {
        assert p in SentTo(day12, decisions, true);
        assert p in day2;
      }
    }
  }

  /** The tables tried at counter value `it`: `create_tables_fixed_days` on the split that `to_bool_list(it, len(day12))` gives. */
  ghost function Attempt(info: PlayersInfo, names: seq<Name>, shuffle: seq<Name> -> seq<Name>, it: nat): Option<seq<seq<Name>>>
  {
    var decisions := BoolList(it, |WithDays(info, names, (true, true))|);
    FixedDayTables(info, Side(info, names, decisions, false), Side(info, names, decisions, true), shuffle)
  }

  /** The values of `attempt` below `n` that are present, in order. */
  ghost function Successes<T>(attempt: nat -> Option<T>, n: nat): seq<T>
  {
    if n == 0 then []
    else Successes(attempt, n - 1) + (if attempt(n - 1).Some? then [attempt(n - 1).value] else [])
  }

  lemma SuccessesSnoc<T>(attempt: nat -> Option<T>, n: nat)
    ensures attempt(n).None? ==> Successes(attempt, n + 1) == Successes(attempt, n)
    ensures attempt(n).Some? ==> Successes(attempt, n + 1) == Successes(attempt, n) + [attempt(n).value]
  {
    assert Successes(attempt, n) + [] == Successes(attempt, n);
  }

  /** The argument at which a present value was found. */
  lemma {:induction false} SuccessesMember<T>(attempt: nat -> Option<T>, n: nat, c: T) returns (it: nat)
    requires c in Successes(attempt, n)
    ensures it < n && attempt(it) == Some(c)
  {
    SuccessesSnoc(attempt, n - 1);
    if c in Successes(attempt, n - 1) {
      it := SuccessesMember(attempt, n - 1, c);
    } else {
      it := n - 1;
    }
  }

  /** The groupings found for the counter values below `n`, in order. */
  ghost function Attempts(info: PlayersInfo, names: seq<Name>, shuffle: seq<Name> -> seq<Name>, n: nat): seq<seq<seq<Name>>>
  {
    Successes(it => Attempt(info, names, shuffle, it), n)
  }

  /** Every tried grouping is a valid seating of the players who can play. */
  lemma AttemptValid(info: PlayersInfo, names: seq<Name>, shuffle: seq<Name> -> seq<Name>, it: nat)
    requires KeyOrder(names, info) && IsShuffle(shuffle)
    requires Attempt(info, names, shuffle, it).Some?
    ensures var ts := Attempt(info, names, shuffle, it).value;
      && AllKnown(info, ts) && Distinct(Flatten(ts))
      && (forall t :: 0 <= t < |ts| ==> DayConsistent(info, ts[t]) && 4 <= |ts[t]| <= 6)
      && (forall p :: p in info && Available(info, p) ==> p in Flatten(ts))
  {
    var decisions := BoolList(it, |WithDays(info, names, (true, true))|);
    var day1, day2 := Side(info, names, decisions, false), Side(info, names, decisions, true);
    var ts := Attempt(info, names, shuffle, it).value;
    SideOn(info, names, decisions, false);
    SideOn(info, names, decisions, true);
    SidesDistinct(info, names, decisions);
    FixedDayTablesShape(info, day1, day2, shuffle);
    forall p | p in info && Available(info, p) ensures p in Flatten(ts) {
      SidesCover(info, names, decisions, p);
      assert p in multiset(day1 + day2);
    }
  }

  /** Python's `>` on `(score, subscore)` tuples. */
  predicate Above(a: (real, real), b: (real, real))
  {
    a.0 > b.0 || (a.0 == b.0 && a.1 > b.1)
  }

  /** The candidates, in order, whose score is `s`. */
  ghost function Ties(cands: seq<seq<seq<Name>>>, score: seq<seq<Name>> -> (real, real), s: (real, real)): seq<seq<seq<Name>>>
  {
    if cands == [] then []
    else
      var last := cands[|cands| - 1];
      Ties(cands[..|cands| - 1], score, s) + (if score(last) == s then [last] else [])
  }

  lemma {:induction false} TiesMember(cands: seq<seq<seq<Name>>>, score: seq<seq<Name>> -> (real, real), s: (real, real), c: seq<seq<Name>>)
    ensures c in Ties(cands, score, s) <==> c in cands && score(c) == s
  {
    if cands != [] {
      var init := cands[..|cands| - 1];
      TiesMember(init, score, s, c);
      assert cands == init + [cands[|cands| - 1]];
    }
  }

  lemma {:induction false} TiesNone(cands: seq<seq<seq<Name>>>, score: seq<seq<Name>> -> (real, real), s: (real, real))
    requires forall c :: c in cands ==> score(c) != s
    ensures Ties(cands, score, s) == []
  {
    if cands != [] {
      var init := cands[..|cands| - 1];
      assert forall c :: c in init ==> c in cands;
      TiesNone(init, score, s);
    }
  }

  lemma TiesSnoc(cands: seq<seq<seq<Name>>>, c: seq<seq<Name>>, score: seq<seq<Name>> -> (real, real), s: (real, real))
    ensures Ties(cands + [c], score, s) == Ties(cands, score, s) + (if score(c) == s then [c] else [])
  {
    assert (cands + [c])[..|cands|] == cands;
  }

  /**
   * One step of the keep-best bookkeeping: `bestTables` holds exactly the
   * candidates with the best score seen, and none seen scores above it.
   */
  ghost predicate KeepsBest(best: Option<seq<seq<seq<Name>>>>, bestScore: (real, real),
                            cands: seq<seq<seq<Name>>>, score: seq<seq<Name>> -> (real, real))
  {
    && (best.None? <==> cands == [])
    && (best.Some? ==>
          && best.value != [] && score(best.value[0]) == bestScore
          && best.value == Ties(cands, score, bestScore)
          && forall c :: c in cands ==> !Above(score(c), bestScore))
  }

  /** The `if bestTables is None or score > bestScore ... elif score == bestScore` update keeps the best. */
  lemma KeepBestStep(best: Option<seq<seq<seq<Name>>>>, bestScore: (real, real),
                     cands: seq<seq<seq<Name>>>, c: seq<seq<Name>>, score: seq<seq<Name>> -> (real, real))
    requires KeepsBest(best, bestScore, cands, score)
    ensures best.None? || Above(score(c), bestScore) ==> KeepsBest(Some([c]), score(c), cands + [c], score)
    ensures best.Some? && !Above(score(c), bestScore) && score(c) == bestScore ==>
      KeepsBest(Some(best.value + [c]), bestScore, cands + [c], score)
    ensures best.Some? && !Above(score(c), bestScore) && score(c) != bestScore ==>
      KeepsBest(best, bestScore, cands + [c], score)
  {
    var s := score(c);
    TiesSnoc(cands, c, score, s);
    TiesSnoc(cands, c, score, bestScore);
    if best.None? || Above(s, bestScore) {
      TiesNone(cands, score, s);
      assert [] + [c] == [c];
    }
  }

  /** The body of the loop for counter value `it`: split the flexible players by its bits, then group each day. */
  method TryCounter(info: PlayersInfo, names: seq<Name>, shuffle: seq<Name> -> seq<Name>,
                    day1Only: seq<Name>, day2Only: seq<Name>, day12: seq<Name>, it: nat)
    returns (tables: Option<seq<seq<Name>>>)
    requires KeyOrder(names, info)
    requires day1Only == WithDays(info, names, (true, false))
    requires day2Only == WithDays(info, names, (false, true))
    requires day12 == WithDays(info, names, (true, true))
    ensures tables == Attempt(info, names, shuffle, it)
  {
    var decisions := ToBoolList(it, |day12|);
    var day1Players, day2Players := SplitFlexible(day1Only, day2Only, day12, decisions);
    SidesReady(info, names, decisions);
    tables := CreateTablesFixedDays(info, day1Players, day2Players, shuffle);
  }

  /** The update of one loop pass keeps the best groupings among the counter values seen. */
  lemma KeepBestNext(info: PlayersInfo, names: seq<Name>, shuffle: seq<Name> -> seq<Name>, score: seq<seq<Name>> -> (real, real), it: nat,
                     best: Option<seq<seq<seq<Name>>>>, bestScore: (real, real),
                     best': Option<seq<seq<seq<Name>>>>, bestScore': (real, real))
    requires KeepsBest(best, bestScore, Attempts(info, names, shuffle, it), score)
    requires Attempt(info, names, shuffle, it).None? ==> best' == best && bestScore' == bestScore
    requires Attempt(info, names, shuffle, it).Some? ==>
      var c := Attempt(info, names, shuffle, it).value;
      if best.None? || Above(score(c), bestScore) then best' == Some([c]) && bestScore' == score(c)
      else if score(c) == bestScore then best' == Some(best.value + [c]) && bestScore' == bestScore
      else best' == best && bestScore' == bestScore
    ensures KeepsBest(best', bestScore', Attempts(info, names, shuffle, it + 1), score)
  {
    SuccessesSnoc(it => Attempt(info, names, shuffle, it), it);
    if Attempt(info, names, shuffle, it).Some? {
      KeepBestStep(best, bestScore, Attempts(info, names, shuffle, it), Attempt(info, names, shuffle, it).value, score);
    }
  }

  /** The loop over `range(2**len(day12))`: the best-scoring groupings, in the order they were found. */
  method BestTables(info: PlayersInfo, names: seq<Name>, shuffle: seq<Name> -> seq<Name>, score: seq<seq<Name>> -> (real, real),
                    day1Only: seq<Name>, day2Only: seq<Name>, day12: seq<Name>)
    returns (best: Option<seq<seq<seq<Name>>>>)
    requires KeyOrder(names, info)
    requires day1Only == WithDays(info, names, (true, false))
    requires day2Only == WithDays(info, names, (false, true))
    requires day12 == WithDays(info, names, (true, true))
    ensures var cands := Attempts(info, names, shuffle, Pow2(|day12|));
      && (best.None? <==> cands == [])
      && (best.Some? ==>
            && best.value != []
            && best.value == Ties(cands, score, score(best.value[0]))
            && forall c :: c in cands ==> !Above(score(c), score(best.value[0])))
  {
    best := None;
    var bestScore := (0.0, 0.0);
    for it := 0 to Pow2(|day12|)
      invariant KeepsBest(best, bestScore, Attempts(info, names, shuffle, it), score)
    {
      var tables := TryCounter(info, names, shuffle, day1Only, day2Only, day12, it);
      ghost var before, scoreBefore := best, bestScore;
      if tables.Some? {
        var s := score(tables.value);
        if best.None? || Above(s, bestScore) {
          best := Some([tables.value]);
          bestScore := s;
        } else if s == bestScore {
          best := Some(best.value + [tables.value]);
        }
      }
      KeepBestNext(info, names, shuffle, score, it, before, scoreBefore, best, bestScore);
    }
  }

  /**
   * `exhaustive_search` with the first-iteration shortcut for `len(day12) == 0`
   * removed: with no flexible player the single counter value 0 is tried like
   * any other, so `bestTables` is a list of groupings as everywhere else. The
   * result seats the players of a best-scoring grouping (the `pick`-th of the
   * ties, wrapping around), table `i` on the day `deduce_day` gives it.
   */
  method Search(info: PlayersInfo, names: seq<Name>, shuffle: seq<Name> -> seq<Name>, score: seq<seq<Name>> -> (real, real),
                pick: nat, coin: nat -> Day)
    returns (r: Option<Solution>)
    requires KeyOrder(names, info) && IsShuffle(shuffle)
    ensures var cands := Attempts(info, names, shuffle, Pow2(|WithDays(info, names, (true, true))|));
      && (r.None? <==> cands == [])
      && (r.Some? ==>
            exists ts :: ts in cands && AllKnown(info, ts) && (forall c :: c in cands ==> !Above(score(c), score(ts)))
                         && r.value == Assignment(info, ts, |ts|, coin))
    ensures r.Some? && (forall p :: p in info ==> Available(info, p)) ==>
      Checkable(info, r.value, None) && CheckCode(info, r.value, None) == 0
  {
    var day1Only := WithDays(info, names, (true, false));
    var day2Only := WithDays(info, names, (false, true));
    var day12 := WithDays(info, names, (true, true));
    var best := BestTables(info, names, shuffle, score, day1Only, day2Only, day12);
    if best.None? {
      return None;
    }
    var tables := best.value[pick % |best.value|];
    ghost var cands := Attempts(info, names, shuffle, Pow2(|day12|));
    TiesMember(cands, score, score(best.value[0]), tables);
    var it := SuccessesMember(it => Attempt(info, names, shuffle, it), Pow2(|day12|), tables);
    AttemptValid(info, names, shuffle, it);
    var sol := BuildSolution(info, tables, coin);
    if forall p :: p in info ==> Available(info, p) {
      RepairedTablesPass(info, tables, coin);
    }
    return Some(sol);
  }

  /** A day list of the roster holds roster players, each once. */
  lemma WithDaysReady(info: PlayersInfo, names: seq<Name>, d: DaysOk)
    requires KeyOrder(names, info)
    ensures Known(info, WithDays(info, names, d)) && Distinct(WithDays(info, names, d))
  {
    var w := WithDays(info, names, d);
    forall i | 0 <= i < |w| ensures w[i] in info {
      WithDaysMember(info, names, d, w[i]);
    }
    forall y ensures multiset(w)[y] <= 1 {
      WithDaysCount(info, names, d, y);
      DistinctMultiplicity(names, y);
    }
    CountDistinct(w);
  }

  /** With nobody free on both days, counter value 0 is the only one, and it groups the fixed lists. */
  lemma NoFlexible(info: PlayersInfo, names: seq<Name>, shuffle: seq<Name> -> seq<Name>)
    requires |WithDays(info, names, (true, true))| == 0
    ensures Pow2(|WithDays(info, names, (true, true))|) == 1
    ensures Attempt(info, names, shuffle, 0)
         == FixedDayTables(info, WithDays(info, names, (true, false)), WithDays(info, names, (false, true)), shuffle)
  {
    var decisions := BoolList(0, 0);
    assert decisions == [];
    assert Side(info, names, decisions, false) == WithDays(info, names, (true, false));
    assert Side(info, names, decisions, true) == WithDays(info, names, (false, true));
  }

  /**
   * With nobody free on both days and nobody on the second day (index 1) only, a roster whose
   * size `cut_by_four` accepts gives one candidate.
   */
  lemma FixedOnlyFound(info: PlayersInfo, names: seq<Name>, shuffle: seq<Name> -> seq<Name>)
    requires |WithDays(info, names, (true, true))| == 0 && WithDays(info, names, (false, true)) == []
    requires !Unsplittable(|WithDays(info, names, (true, false))|)
    ensures Attempts(info, names, shuffle, 1) != []
  {
    NoFlexible(info, names, shuffle);
    var day1 := WithDays(info, names, (true, false));
    assert DayTables(info, day1, shuffle).Some?;
    SuccessesSnoc(it => Attempt(info, names, shuffle, it), 0);
  }

  /** What `exhaustive_search` gives: no solution, a solution, or (see below) a malformed one. */
  datatype SearchOutcome = NoSolution | Found(sol: Solution) | Malformed

  /**
   * `exhaustive_search` as written. When no player is free on both days, the
   * first pass stores the grouping itself, not a list holding it, in
   * `bestTables`; `rng.choice` then draws a single table and the final loop
   * treats each of its player names as a table. That outcome is `Malformed`.
   * With flexible players it behaves as `Search`: it seats the players of
   * a best-scoring candidate.
   */
  method ExhaustiveSearch(info: PlayersInfo, names: seq<Name>, shuffle: seq<Name> -> seq<Name>, score: seq<seq<Name>> -> (real, real),
                          pick: nat, coin: nat -> Day)
    returns (r: SearchOutcome)
    requires KeyOrder(names, info) && IsShuffle(shuffle)
    ensures |WithDays(info, names, (true, true))| == 0 ==>
      (r.NoSolution? <==> Attempts(info, names, shuffle, 1) == []) && !r.Found?
    ensures |WithDays(info, names, (true, true))| > 0 ==>
      !r.Malformed? && (r.NoSolution? <==> Attempts(info, names, shuffle, Pow2(|WithDays(info, names, (true, true))|)) == [])
    ensures |WithDays(info, names, (true, true))| > 0 && r.Found? ==>
      var cands := Attempts(info, names, shuffle, Pow2(|WithDays(info, names, (true, true))|));
      exists ts :: ts in cands && AllKnown(info, ts) && (forall c :: c in cands ==> !Above(score(c), score(ts)))
                   && r.sol == Assignment(info, ts, |ts|, coin)
    ensures r.Found? && (forall p :: p in info ==> Available(info, p)) ==>
      Checkable(info, r.sol, None) && CheckCode(info, r.sol, None) == 0
  {
    var day1Only := WithDays(info, names, (true, false));
    var day2Only := WithDays(info, names, (false, true));
    var day12 := WithDays(info, names, (true, true));
    if |day12| == 0 {
      WithDaysReady(info, names, (true, false));
      WithDaysReady(info, names, (false, true));
      var tables := CreateTablesFixedDays(info, day1Only, day2Only, shuffle);
      NoFlexible(info, names, shuffle);
      SuccessesSnoc(it => Attempt(info, names, shuffle, it), 0);
      if tables.None? {
        return NoSolution;
      }
      return Malformed;
    }
    var found := Search(info, names, shuffle, score, pick, coin);
    if found.None? {
      return NoSolution;
    }
    return Found(found.value);
  }

  /** Eight players who can only play on the first day (index 0). */
  function OneDayRoster(): PlayersInfo
  {
    map["alice" := PlayerInfo(10.0, (true, false)), "bob" := PlayerInfo(20.0, (true, false)),
        "carol" := PlayerInfo(30.0, (true, false)), "dave" := PlayerInfo(40.0, (true, false)),
        "erin" := PlayerInfo(15.0, (true, false)), "frank" := PlayerInfo(25.0, (true, false)),
        "grace" := PlayerInfo(35.0, (true, false)), "heidi" := PlayerInfo(45.0, (true, false))]
  }

  lemma OneDayRosterFits()
    ensures KeyOrder(["alice", "bob", "carol", "dave", "erin", "frank", "grace", "heidi"], OneDayRoster())
    ensures forall p :: p in OneDayRoster() ==> OneDayRoster()[p].daysOk == (true, false)
  {
    var names := ["alice", "bob", "carol", "dave", "erin", "frank", "grace", "heidi"];
    assert forall i, j :: 0 <= i < j < |names| ==> names[i][0] != names[j][0];
    assert OneDayRoster().Keys == set p | p in names;
  }

  /**
   * A roster of eight players who can only play on the first day (index 0) (such as
   * `OneDayRoster`) has one candidate grouping, of two tables, and `Search`
   * seats it; yet nobody is free on both days, so `exhaustive_search` as
   * written takes its shortcut and ends `Malformed`.
   */
  lemma DayOneEightMalformed(info: PlayersInfo, names: seq<Name>, shuffle: seq<Name> -> seq<Name>)
    requires KeyOrder(names, info) && |names| == 8 && IsShuffle(shuffle)
    requires forall p :: p in info ==> info[p].daysOk == (true, false)
    ensures |WithDays(info, names, (true, true))| == 0
    ensures |Attempts(info, names, shuffle, 1)| == 1 && |Attempts(info, names, shuffle, 1)[0]| == 2
  {
    DayOneLists(info, names);
    DayOneGrouping(info, names, shuffle);
    SuccessesSnoc(it => Attempt(info, names, shuffle, it), 0);
  }

  /** Counter value 0 groups eight players who all play on the first day (index 0) only into two tables. */
  lemma DayOneGrouping(info: PlayersInfo, names: seq<Name>, shuffle: seq<Name> -> seq<Name>)
    requires |names| == 8 && IsShuffle(shuffle)
    requires WithDays(info, names, (true, false)) == names
    requires WithDays(info, names, (false, true)) == [] && WithDays(info, names, (true, true)) == []
    ensures Attempt(info, names, shuffle, 0).Some? && |Attempt(info, names, shuffle, 0).value| == 2
  {
    NoFlexible(info, names, shuffle);
    DayTablesCount(info, names, shuffle);
    assert Attempt(info, names, shuffle, 0) == FixedDayTables(info, names, [], shuffle);
  }

  /** `group_players` seats a day's players at one table per four of them. */
  lemma DayTablesCount(info: PlayersInfo, day: seq<Name>, shuffle: seq<Name> -> seq<Name>)
    requires IsShuffle(shuffle) && day != [] && !Unsplittable(|day|)
    ensures DayTables(info, day, shuffle).Some? && |DayTables(info, day, shuffle).value| == |day| / 4
  {
    GroupPlayersShape(Restrict(info, day), day, shuffle);
  }

  lemma DayOneLists(info: PlayersInfo, names: seq<Name>)
    requires KeyOrder(names, info)
    requires forall p :: p in info ==> info[p].daysOk == (true, false)
    ensures WithDays(info, names, (true, false)) == names
    ensures WithDays(info, names, (false, true)) == [] && WithDays(info, names, (true, true)) == []
  {
    assert forall i :: 0 <= i < |names| ==> DaysOf(info, names[i]) == (true, false);
    WithDaysAll(info, names, (true, false), (true, true));
    WithDaysAll(info, names, (true, false), (false, true));
  }
}
