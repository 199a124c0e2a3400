/**
 * `_check_solution` / `check_solution`: the validator shared by both solvers.
 * It reports the first of four checks that fails: -1 a roster player has no
 * assignment, -2 a player is placed on a day they cannot play, -3 a table
 * index holds fewer than 4 or more than 6 players, -4 (only when a rank
 * difference is given) a group's rank spread exceeds it; 0 otherwise.
 *
 * The rank check of the source unpacks `table, _ = solution[p]` from a
 * `PlayerAssign(day, table)`, so it groups the players by their DAY, not by
 * their table. `CheckCode` keeps that behaviour; `CheckCodeByTable` is the
 * check grouped by table index, as the comment above it describes.
 */
module Validator {
  import opened Wrappers
  import opened Players

  /** Which field of the assignment the rank check groups players by. */
  datatype GroupKey = ByDay | ByTable

  function GroupOf(a: PlayerAssign, key: GroupKey): int
  {
    if key == ByDay then a.day else a.table
  }

  /** The source looks every solution key up in the roster (`playersInfo[playerName]`). */
  ghost predicate Checkable(info: PlayersInfo, sol: Solution, rankDiff: Option<int>)
  {
    && sol.Keys <= info.Keys
    && (rankDiff.Some? ==> forall p :: p in sol ==> info[p].score >= 0.0)
  }

  /** Check 1: every roster player has an assignment. */
  ghost predicate AllAssigned(info: PlayersInfo, sol: Solution)
  {
    forall p :: p in info ==> p in sol
  }

  /** Check 2: every assigned player can play on the assigned day. */
  ghost predicate DaysRespected(info: PlayersInfo, sol: Solution)
    requires sol.Keys <= info.Keys
  {
    forall p :: p in sol ==> DayOk(info[p].daysOk, sol[p].day)
  }

  /** The players assigned to table index `t` (whatever their day). */
  ghost function Members(sol: Solution, t: int): set<Name>
  {
    set p | p in sol && sol[p].table == t
  }

  /** Check 3: every table index in use holds 4 to 6 players. */
  ghost predicate SizesInRange(sol: Solution)
  {
    forall p :: p in sol ==> 4 <= |Members(sol, sol[p].table)| <= 6
  }

  ghost function RankOf(info: PlayersInfo, p: Name): nat
    requires p in info && info[p].score >= 0.0
  {
    Rank(info[p].score)
  }

  /** Check 4: within each group, no two ranks differ by more than `k`. */
  ghost predicate SpreadWithin(info: PlayersInfo, sol: Solution, k: int, key: GroupKey)
    requires sol.Keys <= info.Keys
    requires forall p :: p in sol ==> info[p].score >= 0.0
  {
    forall p, q :: p in sol && q in sol && GroupOf(sol[p], key) == GroupOf(sol[q], key) ==>
      RankOf(info, p) - RankOf(info, q) <= k
  }

  /** The code returned when the rank check groups players by `key`. */
  ghost function Code(info: PlayersInfo, sol: Solution, rankDiff: Option<int>, key: GroupKey): int
    requires Checkable(info, sol, rankDiff)
  {
    if !AllAssigned(info, sol) then -1
    else if !DaysRespected(info, sol) then -2
    else if !SizesInRange(sol) then -3
    else if rankDiff.Some? && !SpreadWithin(info, sol, rankDiff.value, key) then -4
    else 0
  }

  /** What `_check_solution` returns. */
  ghost function CheckCode(info: PlayersInfo, sol: Solution, rankDiff: Option<int>): int
    requires Checkable(info, sol, rankDiff)
  {
    Code(info, sol, rankDiff, ByDay)
  }

  /** The validator with the rank check grouped by table index. */
  ghost function CheckCodeByTable(info: PlayersInfo, sol: Solution, rankDiff: Option<int>): int
    requires Checkable(info, sol, rankDiff)
  {
    Code(info, sol, rankDiff, ByTable)
  }

  /** Any element of a non-empty set, as a loop over a set takes them. */
  method Pick<T>(s: set<T>) returns (x: T)
    requires s != {}
    ensures x in s
  {
    x :| x in s;
  }

  /** Loop 1 of `_check_solution`. */
  method CheckAllAssigned(info: PlayersInfo, sol: Solution) returns (ok: bool)
    ensures ok == AllAssigned(info, sol)
  {
    var todo := info.Keys;
    while todo != {}
      invariant todo <= info.Keys
      invariant forall p :: p in info && p !in todo ==> p in sol
      decreases todo
    {
      var p := Pick(todo);
      if p !in sol {
        return false;
      }
      todo := todo - {p};
    }
    return true;
  }

  /** Loop 2 of `_check_solution`. */
  method CheckDays(info: PlayersInfo, sol: Solution) returns (ok: bool)
    requires sol.Keys <= info.Keys
    ensures ok == DaysRespected(info, sol)
  {
    var todo := sol.Keys;
    while todo != {}
      invariant todo <= sol.Keys
      invariant forall p :: p in sol && p !in todo ==> DayOk(info[p].daysOk, sol[p].day)
      decreases todo
    {
      var p := Pick(todo);
      if !DayOk(info[p].daysOk, sol[p].day) {
        return false;
      }
      todo := todo - {p};
    }
    return true;
  }

  ghost function MembersIn(sol: Solution, done: set<Name>, t: int): set<Name>
  {
    set p | p in done && p in sol && sol[p].table == t
  }

  /** What `tableSize` holds once the players in `done` have been counted. */
  ghost predicate CountsOf(sol: Solution, done: set<Name>, sizes: map<int, nat>)
  {
    && (forall p :: p in done && p in sol ==> sol[p].table in sizes)
    && (forall t :: t in sizes ==> sizes[t] == |MembersIn(sol, done, t)| > 0)
  }

  /** Counting one more player keeps `CountsOf`. */
  lemma CountsStep(sol: Solution, done: set<Name>, sizes: map<int, nat>, p: Name)
    requires p in sol && p !in done && CountsOf(sol, done, sizes)
    ensures var t := sol[p].table;
      CountsOf(sol, done + {p}, sizes[t := if t in sizes then sizes[t] + 1 else 1])
  {
    var t := sol[p].table;
    var sizes' := sizes[t := if t in sizes then sizes[t] + 1 else 1];
    MembersGrow(sol, done, p);
    if t !in sizes {
      NoMembersYet(sol, done, sizes, t);
    }
    forall u | u in sizes' ensures sizes'[u] == |MembersIn(sol, done + {p}, u)| > 0 {
    }
  }

  /** Counting `p` adds it to its own table's members and to no other. */
  lemma MembersGrow(sol: Solution, done: set<Name>, p: Name)
    requires p in sol && p !in done
    ensures MembersIn(sol, done + {p}, sol[p].table) == MembersIn(sol, done, sol[p].table) + {p}
    ensures forall u :: u != sol[p].table ==> MembersIn(sol, done + {p}, u) == MembersIn(sol, done, u)
  {
  }

  /** A table index not yet counted has no counted members. */
  lemma NoMembersYet(sol: Solution, done: set<Name>, sizes: map<int, nat>, t: int)
    requires forall q :: q in done && q in sol ==> sol[q].table in sizes
    requires t !in sizes
    ensures MembersIn(sol, done, t) == {}
  {
  }

  /** The first loop of check 3: `tableSize[t]` counts the players at table index `t`. */
  method CountTableSizes(sol: Solution) returns (sizes: map<int, nat>)
    ensures forall p :: p in sol ==> sol[p].table in sizes
    ensures forall t :: t in sizes ==> sizes[t] == |Members(sol, t)| > 0
  {
    sizes := map[];
    var done: set<Name> := {};
    while done != sol.Keys
      invariant done <= sol.Keys
      invariant CountsOf(sol, done, sizes)
      decreases sol.Keys - done
    {
      var p := Pick(sol.Keys - done);
      CountsStep(sol, done, sizes, p);
      var t := sol[p].table;
      var size := if t in sizes then sizes[t] else 0;
      sizes := sizes[t := size + 1];
      done := done + {p};
    }
    CountsFinal(sol, sizes);
  }

  /** Once every player was counted, the counts are the table sizes. */
  lemma CountsFinal(sol: Solution, sizes: map<int, nat>)
    requires CountsOf(sol, sol.Keys, sizes)
    ensures forall p :: p in sol ==> sol[p].table in sizes
    ensures forall t :: t in sizes ==> sizes[t] == |Members(sol, t)| > 0
  {
    forall t | t in sizes ensures sizes[t] == |Members(sol, t)| {
      assert MembersIn(sol, sol.Keys, t) == Members(sol, t);
    }
  }

  /** The second loop of check 3. */
  method CheckSizes(sol: Solution) returns (ok: bool)
    ensures ok == SizesInRange(sol)
  {
    var sizes := CountTableSizes(sol);
    var todo := sizes.Keys;
    while todo != {}
      invariant todo <= sizes.Keys
      invariant forall u :: u in sizes.Keys - todo ==> 4 <= sizes[u] <= 6
      decreases todo
    {
      var t := Pick(todo);
      if !(4 <= sizes[t] <= 6) {
        assert |Members(sol, t)| > 0;
        ghost var p :| p in Members(sol, t);
        assert !(4 <= |Members(sol, sol[p].table)| <= 6);
        return false;
      }
      todo := todo - {t};
    }
    return true;
  }

  /** The group of every assigned player. */
  ghost function GroupsOf(sol: Solution, key: GroupKey): (m: map<Name, int>)
    ensures m.Keys == sol.Keys
  {
    map p | p in sol :: GroupOf(sol[p], key)
  }

  /** The rank of every assigned player. */
  ghost function RanksOf(info: PlayersInfo, sol: Solution): (m: map<Name, nat>)
    requires sol.Keys <= info.Keys
    requires forall p :: p in sol ==> info[p].score >= 0.0
    ensures m.Keys == sol.Keys
  {
    map p | p in sol :: RankOf(info, p)
  }

  /**
   * `tableRankRange` once the players in `done` were seen: each group's
   * range bounds their ranks, and each bound is the rank of a seen player
   * of that group (`lowest`, `highest`).
   */
  ghost predicate RangesOf(groups: map<Name, int>, ranks: map<Name, nat>, done: set<Name>,
                           ranges: map<int, (nat, nat)>, lowest: map<int, Name>, highest: map<int, Name>)
  {
    && done <= groups.Keys && done <= ranks.Keys
    && ranges.Keys == lowest.Keys == highest.Keys
    && (forall p :: p in done ==> groups[p] in ranges)
    && (forall p :: p in done ==> ranges[groups[p]].0 <= ranks[p] <= ranges[groups[p]].1)
    && (forall g :: g in ranges ==> lowest[g] in done && groups[lowest[g]] == g && ranks[lowest[g]] == ranges[g].0)
    && (forall g :: g in ranges ==> highest[g] in done && groups[highest[g]] == g && ranks[highest[g]] == ranges[g].1)
  }

  /** Seeing a player of rank `rank` in group `g` widens that group's range. */
  function Widen(ranges: map<int, (nat, nat)>, g: int, rank: nat): map<int, (nat, nat)>
  {
    var range := if g in ranges then ranges[g] else (rank, rank);
    ranges[g := if rank < range.0 then (rank, range.1) else if rank > range.1 then (range.0, rank) else range]
  }

  lemma RangesStep(groups: map<Name, int>, ranks: map<Name, nat>, done: set<Name>,
                   ranges: map<int, (nat, nat)>, lowest: map<int, Name>, highest: map<int, Name>, p: Name,
                   ranges': map<int, (nat, nat)>, lowest': map<int, Name>, highest': map<int, Name>)
    requires p in groups && p in ranks
    requires RangesOf(groups, ranks, done, ranges, lowest, highest)
    requires ranges' == Widen(ranges, groups[p], ranks[p])
    requires lowest' == if groups[p] !in ranges || ranks[p] < ranges[groups[p]].0 then lowest[groups[p] := p] else lowest
    requires highest' == if groups[p] !in ranges || ranks[p] > ranges[groups[p]].1 then highest[groups[p] := p] else highest
    ensures RangesOf(groups, ranks, done + {p}, ranges', lowest', highest')
  {
    var g, rank := groups[p], ranks[p];
    if g in ranges {
      assert ranks[highest[g]] <= ranges[g].1;
      assert ranges[g].0 <= ranges[g].1;
      assert ranges'[g].0 <= ranges[g].0 && ranges[g].1 <= ranges'[g].1;
    }
    assert ranges'[g].0 <= rank <= ranges'[g].1;
    RangesStepCover(groups, ranks, done, ranges, p, ranges');
    RangesStepLow(groups, ranks, done, ranges, lowest, highest, p, ranges', lowest');
    RangesStepHigh(groups, ranks, done, ranges, lowest, highest, p, ranges', highest');
  }

  lemma RangesStepCover(groups: map<Name, int>, ranks: map<Name, nat>, done: set<Name>,
                        ranges: map<int, (nat, nat)>, p: Name, ranges': map<int, (nat, nat)>)
    requires p in groups && p in ranks && done <= groups.Keys && done <= ranks.Keys
    requires forall q :: q in done ==> groups[q] in ranges
    requires forall q :: q in done ==> ranges[groups[q]].0 <= ranks[q] <= ranges[groups[q]].1
    requires ranges' == Widen(ranges, groups[p], ranks[p])
    requires ranges'[groups[p]].0 <= ranks[p] <= ranges'[groups[p]].1
    requires groups[p] in ranges ==> ranges'[groups[p]].0 <= ranges[groups[p]].0 && ranges[groups[p]].1 <= ranges'[groups[p]].1
    ensures forall q :: q in done + {p} ==> groups[q] in ranges'
    ensures forall q :: q in done + {p} ==> ranges'[groups[q]].0 <= ranks[q] <= ranges'[groups[q]].1
  {
    var g := groups[p];
    forall q | q in done + {p}
      ensures groups[q] in ranges' && ranges'[groups[q]].0 <= ranks[q] <= ranges'[groups[q]].1
    {
      if groups[q] != g {
        assert ranges'[groups[q]] == ranges[groups[q]];
      }
    }
  }

  lemma RangesStepLow(groups: map<Name, int>, ranks: map<Name, nat>, done: set<Name>,
                      ranges: map<int, (nat, nat)>, lowest: map<int, Name>, highest: map<int, Name>, p: Name,
                      ranges': map<int, (nat, nat)>, lowest': map<int, Name>)
    requires p in groups && p in ranks
    requires RangesOf(groups, ranks, done, ranges, lowest, highest)
    requires ranges' == Widen(ranges, groups[p], ranks[p])
    requires lowest' == if groups[p] !in ranges || ranks[p] < ranges[groups[p]].0 then lowest[groups[p] := p] else lowest
    ensures lowest'.Keys == ranges'.Keys
    ensures forall h :: h in ranges' ==>
      lowest'[h] in done + {p} && groups[lowest'[h]] == h && ranks[lowest'[h]] == ranges'[h].0
  {
    var g := groups[p];
    forall h | h in ranges'
      ensures lowest'[h] in done + {p} && groups[lowest'[h]] == h && ranks[lowest'[h]] == ranges'[h].0
    {
      if h != g {
        assert ranges'[h] == ranges[h] && lowest'[h] == lowest[h];
      }
    }
  }

  lemma RangesStepHigh(groups: map<Name, int>, ranks: map<Name, nat>, done: set<Name>,
                       ranges: map<int, (nat, nat)>, lowest: map<int, Name>, highest: map<int, Name>, p: Name,
                       ranges': map<int, (nat, nat)>, highest': map<int, Name>)
    requires p in groups && p in ranks
    requires RangesOf(groups, ranks, done, ranges, lowest, highest)
    requires ranges' == Widen(ranges, groups[p], ranks[p])
    requires highest' == if groups[p] !in ranges || ranks[p] > ranges[groups[p]].1 then highest[groups[p] := p] else highest
    ensures highest'.Keys == ranges'.Keys
    ensures forall h :: h in ranges' ==>
      highest'[h] in done + {p} && groups[highest'[h]] == h && ranks[highest'[h]] == ranges'[h].1
  {
    var g := groups[p];
    forall h | h in ranges'
      ensures highest'[h] in done + {p} && groups[highest'[h]] == h && ranks[highest'[h]] == ranges'[h].1
    {
      if h != g {
        assert ranges'[h] == ranges[h] && highest'[h] == highest[h];
      }
    }
  }

  /** The body of the first loop of check 4, for a player of rank `rank` in group `g`. */
  method RecordRank(ranges: map<int, (nat, nat)>, g: int, rank: nat) returns (ranges': map<int, (nat, nat)>)
    ensures ranges' == Widen(ranges, g, rank)
  {
    ranges' := ranges;
    if g !in ranges' {
      ranges' := ranges'[g := (rank, rank)];
    }
    var range := ranges'[g];
    if rank < range.0 {
      range := (rank, range.1);
    } else if rank > range.1 {
      range := (range.0, rank);
    }
    ranges' := ranges'[g := range];
  }

  /**
   * The first loop of check 4: `tableRankRange[g]` is the lowest and the
   * highest rank among the players of group `g`.
   */
  method RankRanges(info: PlayersInfo, sol: Solution, key: GroupKey)
    returns (ranges: map<int, (nat, nat)>)
    requires sol.Keys <= info.Keys
    requires forall p :: p in sol ==> info[p].score >= 0.0
    ensures forall p :: p in sol ==> GroupOf(sol[p], key) in ranges
    ensures forall p :: p in sol ==>
      ranges[GroupOf(sol[p], key)].0 <= RankOf(info, p) <= ranges[GroupOf(sol[p], key)].1
    ensures forall g :: g in ranges ==>
      exists p :: p in sol && GroupOf(sol[p], key) == g && RankOf(info, p) == ranges[g].0
    ensures forall g :: g in ranges ==>
      exists p :: p in sol && GroupOf(sol[p], key) == g && RankOf(info, p) == ranges[g].1
  {
    ghost var groups, ranks := GroupsOf(sol, key), RanksOf(info, sol);
    ranges := map[];
    ghost var lowest: map<int, Name> := map[];
    ghost var highest: map<int, Name> := map[];
    var done: set<Name> := {};
    while done != sol.Keys
      invariant done <= sol.Keys
      invariant RangesOf(groups, ranks, done, ranges, lowest, highest)
      decreases sol.Keys - done
    {
      var p := Pick(sol.Keys - done);
      var g, rank := GroupOf(sol[p], key), Rank(info[p].score);
      assert g == groups[p] && rank == ranks[p];
      var widened := RecordRank(ranges, g, rank);
      ghost var lowest' := if g !in ranges || rank < ranges[g].0 then lowest[g := p] else lowest;
      ghost var highest' := if g !in ranges || rank > ranges[g].1 then highest[g := p] else highest;
      RangesStep(groups, ranks, done, ranges, lowest, highest, p, widened, lowest', highest');
      ranges, lowest, highest := widened, lowest', highest';
      done := done + {p};
    }
    RangesCover(info, sol, key, ranges, lowest, highest);
    RangesAttained(info, sol, key, ranges, lowest, highest);
  }

  /** Once every player was seen, every player's rank lies in the range of its group. */
  lemma RangesCover(info: PlayersInfo, sol: Solution, key: GroupKey, ranges: map<int, (nat, nat)>,
                    lowest: map<int, Name>, highest: map<int, Name>)
    requires sol.Keys <= info.Keys
    requires forall p :: p in sol ==> info[p].score >= 0.0
    requires RangesOf(GroupsOf(sol, key), RanksOf(info, sol), sol.Keys, ranges, lowest, highest)
    ensures forall p :: p in sol ==> GroupOf(sol[p], key) in ranges
    ensures forall p :: p in sol ==>
      ranges[GroupOf(sol[p], key)].0 <= RankOf(info, p) <= ranges[GroupOf(sol[p], key)].1
  {
    var groups, ranks := GroupsOf(sol, key), RanksOf(info, sol);
    forall p | p in sol
      ensures GroupOf(sol[p], key) in ranges
      ensures ranges[GroupOf(sol[p], key)].0 <= RankOf(info, p) <= ranges[GroupOf(sol[p], key)].1
    {
      assert groups[p] == GroupOf(sol[p], key) && ranks[p] == RankOf(info, p);
    }
  }

  /** Once every player was seen, both ends of every range are the rank of a player of that group. */
  lemma RangesAttained(info: PlayersInfo, sol: Solution, key: GroupKey, ranges: map<int, (nat, nat)>,
                       lowest: map<int, Name>, highest: map<int, Name>)
    requires sol.Keys <= info.Keys
    requires forall p :: p in sol ==> info[p].score >= 0.0
    requires RangesOf(GroupsOf(sol, key), RanksOf(info, sol), sol.Keys, ranges, lowest, highest)
    ensures forall g :: g in ranges ==>
      exists p :: p in sol && GroupOf(sol[p], key) == g && RankOf(info, p) == ranges[g].0
    ensures forall g :: g in ranges ==>
      exists p :: p in sol && GroupOf(sol[p], key) == g && RankOf(info, p) == ranges[g].1
  {
    var groups, ranks := GroupsOf(sol, key), RanksOf(info, sol);
    forall g | g in ranges
      ensures exists p :: p in sol && GroupOf(sol[p], key) == g && RankOf(info, p) == ranges[g].0
      ensures exists p :: p in sol && GroupOf(sol[p], key) == g && RankOf(info, p) == ranges[g].1
    {
      var lo, hi := lowest[g], highest[g];
      assert groups[lo] == GroupOf(sol[lo], key) && ranks[lo] == RankOf(info, lo);
      assert groups[hi] == GroupOf(sol[hi], key) && ranks[hi] == RankOf(info, hi);
    }
  }

  /** Check 4: the second loop compares each group's range with `rankDiff`. */
  method CheckSpread(info: PlayersInfo, sol: Solution, k: int, key: GroupKey) returns (ok: bool)
    requires sol.Keys <= info.Keys
    requires forall p :: p in sol ==> info[p].score >= 0.0
    ensures ok == SpreadWithin(info, sol, k, key)
  {
    var ranges := RankRanges(info, sol, key);
    var todo := ranges.Keys;
    while todo != {}
      invariant todo <= ranges.Keys
      invariant forall h :: h in ranges.Keys - todo ==> ranges[h].1 - ranges[h].0 <= k
      decreases todo
    {
      var g := Pick(todo);
      if ranges[g].1 - ranges[g].0 > k {
        ghost var hi :| hi in sol && GroupOf(sol[hi], key) == g && RankOf(info, hi) == ranges[g].1;
        ghost var lo :| lo in sol && GroupOf(sol[lo], key) == g && RankOf(info, lo) == ranges[g].0;
        assert RankOf(info, hi) - RankOf(info, lo) > k;
        return false;
      }
      todo := todo - {g};
    }
    return true;
  }

  /** The four checks in order, with the rank check grouped by `key`. */
  method CheckGrouped(info: PlayersInfo, sol: Solution, rankDiff: Option<int>, key: GroupKey)
    returns (code: int)
    requires Checkable(info, sol, rankDiff)
    ensures code == Code(info, sol, rankDiff, key)
  {
    var ok := CheckAllAssigned(info, sol);
    if !ok {
      return -1;
    }
    ok := CheckDays(info, sol);
    if !ok {
      return -2;
    }
    ok := CheckSizes(sol);
    if !ok {
      return -3;
    }
    if rankDiff.Some? {
      ok := CheckSpread(info, sol, rankDiff.value, key);
      if !ok {
        return -4;
      }
    }
    return 0;
  }

  /** `_check_solution`, rank check grouped by day as the source does. */
  method CheckSolutionCode(info: PlayersInfo, sol: Solution, rankDiff: Option<int>)
    returns (code: int)
    requires Checkable(info, sol, rankDiff)
    ensures code == CheckCode(info, sol, rankDiff)
    ensures code in {0, -1, -2, -3, -4}
    ensures code == 0 <==> AllAssigned(info, sol) && DaysRespected(info, sol) && SizesInRange(sol)
                           && (rankDiff.Some? ==> SpreadWithin(info, sol, rankDiff.value, ByDay))
  {
    code := CheckGrouped(info, sol, rankDiff, ByDay);
  }

  /** `check_solution`. */
  method CheckSolution(info: PlayersInfo, sol: Solution, rankDiff: Option<int>)
    returns (valid: bool)
    requires Checkable(info, sol, rankDiff)
    ensures valid <==> CheckCode(info, sol, rankDiff) == 0
  {
    var code := CheckSolutionCode(info, sol, rankDiff);
    valid := code == 0;
  }

  /** `check_solution` with the rank check grouped by table index. */
  method CheckSolutionByTable(info: PlayersInfo, sol: Solution, rankDiff: Option<int>)
    returns (valid: bool)
    requires Checkable(info, sol, rankDiff)
    ensures valid <==> AllAssigned(info, sol) && DaysRespected(info, sol) && SizesInRange(sol)
                       && (rankDiff.Some? ==> SpreadWithin(info, sol, rankDiff.value, ByTable))
  {
    var code := CheckGrouped(info, sol, rankDiff, ByTable);
    valid := code == 0;
  }

  /**
   * When every table is played on one day, grouping by day only puts more
   * players together: the rank spread by day is at least as strict as the spread
   * by table.
   */
  lemma DayGroupingStricter(info: PlayersInfo, sol: Solution, k: int)
    requires sol.Keys <= info.Keys
    requires forall p :: p in sol ==> info[p].score >= 0.0
    requires forall p, q :: p in sol && q in sol && sol[p].table == sol[q].table ==> sol[p].day == sol[q].day
    requires SpreadWithin(info, sol, k, ByDay)
    ensures SpreadWithin(info, sol, k, ByTable)
  {
    forall p, q | p in sol && q in sol && GroupOf(sol[p], ByTable) == GroupOf(sol[q], ByTable)
      ensures RankOf(info, p) - RankOf(info, q) <= k
    {
      assert GroupOf(sol[p], ByDay) == GroupOf(sol[q], ByDay);
    }
  }

  // The five cases of `test_check_solution`.

  function Roster4(totoScore: Score): PlayersInfo
  {
    map["toto" := PlayerInfo(totoScore, (false, true)), "titi" := PlayerInfo(0.0, (false, true)),
        "tata" := PlayerInfo(0.0, (false, true)), "lolo" := PlayerInfo(0.0, (true, true))]
  }

  function AllAt(names: set<Name>, a: PlayerAssign): Solution
  {
    map p | p in names :: a
  }

  lemma MembersAll(names: set<Name>, a: PlayerAssign)
    ensures Members(AllAt(names, a), a.table) == names
  {
  }

  lemma CheckSuccess()
    ensures CheckCode(Roster4(0.0), AllAt({"toto", "titi", "tata", "lolo"}, PA(1, 0)), Some(0)) == 0
  {
    var sol := AllAt({"toto", "titi", "tata", "lolo"}, PA(1, 0));
    MembersAll({"toto", "titi", "tata", "lolo"}, PA(1, 0));
    assert |Members(sol, 0)| == 4;
    assert Rank(0.0) == 0;
  }

  lemma CheckMissing()
    ensures CheckCode(Roster4(0.0), AllAt({"toto", "tata", "lolo"}, PA(1, 0)), Some(0)) == -1
  {
    assert "titi" !in AllAt({"toto", "tata", "lolo"}, PA(1, 0));
  }

  lemma CheckWrongDay()
    ensures CheckCode(Roster4(0.0), AllAt({"toto", "titi", "tata", "lolo"}, PA(0, 0)), Some(0)) == -2
  {
    var sol := AllAt({"toto", "titi", "tata", "lolo"}, PA(0, 0));
    assert !DayOk(Roster4(0.0)["toto"].daysOk, sol["toto"].day);
  }

  lemma CheckSmallTable()
    ensures var info := map["toto" := PlayerInfo(0.0, (false, true)), "titi" := PlayerInfo(0.0, (false, true)),
                             "tata" := PlayerInfo(0.0, (false, true))];
      CheckCode(info, AllAt({"toto", "titi", "tata"}, PA(1, 0)), Some(0)) == -3
  {
    var sol := AllAt({"toto", "titi", "tata"}, PA(1, 0));
    MembersAll({"toto", "titi", "tata"}, PA(1, 0));
    assert |Members(sol, sol["toto"].table)| == 3;
  }

  lemma CheckRankSpread()
    ensures CheckCode(Roster4(10.0), AllAt({"toto", "titi", "tata", "lolo"}, PA(1, 0)), Some(0)) == -4
  {
    var sol := AllAt({"toto", "titi", "tata", "lolo"}, PA(1, 0));
    MembersAll({"toto", "titi", "tata", "lolo"}, PA(1, 0));
    assert |Members(sol, 0)| == 4;
    assert Rank(10.0) == 1 && Rank(0.0) == 0;
    assert RankOf(Roster4(10.0), "toto") - RankOf(Roster4(10.0), "titi") > 0;
  }

  /**
   * Two tables of four on the same day, one of rank 0 and one of rank 1:
   * each table is uniform, yet the source's check reports -4 because it
   * compares all players of the day.
   */
  function TwoTables(): (PlayersInfo, Solution)
  {
    (map["a" := PlayerInfo(0.0, (true, true)), "b" := PlayerInfo(0.0, (true, true)),
         "c" := PlayerInfo(0.0, (true, true)), "d" := PlayerInfo(0.0, (true, true)),
         "e" := PlayerInfo(10.0, (true, true)), "f" := PlayerInfo(10.0, (true, true)),
         "g" := PlayerInfo(10.0, (true, true)), "h" := PlayerInfo(10.0, (true, true))],
     AllAt({"a", "b", "c", "d"}, PA(0, 0)) + AllAt({"e", "f", "g", "h"}, PA(0, 1)))
  }

  lemma TwoTablesRanks()
    ensures TwoTables().1.Keys <= TwoTables().0.Keys
    ensures forall p :: p in TwoTables().1 ==> TwoTables().0[p].score >= 0.0
    ensures forall p :: p in TwoTables().1 ==> RankOf(TwoTables().0, p) == TwoTables().1[p].table
  {
    var (info, sol) := TwoTables();
    assert Rank(10.0) == 1 && Rank(0.0) == 0;
    forall p | p in sol ensures p in info && info[p].score >= 0.0 && RankOf(info, p) == sol[p].table {
      if p in {"a", "b", "c", "d"} {
        assert sol[p].table == 0 && info[p].score == 0.0;
      } else {
        assert sol[p].table == 1 && info[p].score == 10.0;
      }
    }
  }

  lemma MembersTwo(xs: set<Name>, ys: set<Name>, a: PlayerAssign, b: PlayerAssign)
    requires xs !! ys && a.table != b.table
    ensures Members(AllAt(xs, a) + AllAt(ys, b), a.table) == xs
    ensures Members(AllAt(xs, a) + AllAt(ys, b), b.table) == ys
  {
  }

  lemma TwoTablesValid()
    ensures TwoTables().1.Keys <= TwoTables().0.Keys
    ensures AllAssigned(TwoTables().0, TwoTables().1)
    ensures DaysRespected(TwoTables().0, TwoTables().1)
    ensures SizesInRange(TwoTables().1)
  {
    TwoTablesDays();
    TwoTablesSizes();
  }

  lemma TwoTablesDays()
    ensures TwoTables().1.Keys <= TwoTables().0.Keys
    ensures AllAssigned(TwoTables().0, TwoTables().1)
    ensures DaysRespected(TwoTables().0, TwoTables().1)
  {
    var (info, sol) := TwoTables();
    assert sol.Keys == info.Keys;
    forall p | p in sol ensures DayOk(info[p].daysOk, sol[p].day) {
      assert info[p].daysOk == (true, true);
    }
  }

  lemma TwoTablesSizes()
    ensures SizesInRange(TwoTables().1)
  {
    var sol := TwoTables().1;
    var xs, ys: set<Name> := {"a", "b", "c", "d"}, {"e", "f", "g", "h"};
    MembersTwo(xs, ys, PA(0, 0), PA(0, 1));
    assert |xs| == 4 && |ys| == 4;
    forall p | p in sol ensures 4 <= |Members(sol, sol[p].table)| <= 6 {
      if p in xs {
        assert sol[p].table == 0;
      } else {
        assert sol[p].table == 1;
      }
    }
  }

  lemma RankCheckGroupsByDay()
    ensures CheckCode(TwoTables().0, TwoTables().1, Some(0)) == -4
  {
    var (info, sol) := TwoTables();
    TwoTablesRanks();
    TwoTablesValid();
    TwoTablesAt();
    assert RankOf(info, "e") - RankOf(info, "a") > 0;
    assert !SpreadWithin(info, sol, 0, ByDay);
  }

  lemma TwoTablesAt()
    ensures "a" in TwoTables().1 && TwoTables().1["a"] == PA(0, 0)
    ensures "e" in TwoTables().1 && TwoTables().1["e"] == PA(0, 1)
  {
    var xs, ys: set<Name> := {"a", "b", "c", "d"}, {"e", "f", "g", "h"};
    assert "a" in xs && "a" !in ys && "e" in ys;
  }

  lemma RankCheckByTable()
    ensures CheckCodeByTable(TwoTables().0, TwoTables().1, Some(0)) == 0
  {
    TwoTablesRanks();
    TwoTablesValid();
  }
}
