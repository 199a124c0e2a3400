/**
 * The roster the matchmaking solver works on: a player's score and the two
 * days they may play, the rank derived from the score, and the assignment of
 * a player to a (day, table) pair.
 */
module Players {
  import opened Wrappers
  import opened ListOps

  type Name = string

  /** Scores are parsed floats in the source; only their order matters here. */
  type Score = real

  /** One of the two candidate days, used as an index into `DaysOk`. */
  type Day = d: int | 0 <= d < 2

  /** `daysOk[0]` and `daysOk[1]`: whether the player can play on the first day (index 0) / the second day (index 1). */
  type DaysOk = (bool, bool)

  datatype PlayerInfo = PlayerInfo(score: Score, daysOk: DaysOk)

  /**
   * A Python dict of players. Where its iteration order matters, the model
   * carries the names in that order beside the map.
   */
  type PlayersInfo = map<Name, PlayerInfo>

  /** `PlayerAssign(day, table)`. */
  datatype PlayerAssign = PA(day: Day, table: int)

  type Solution = map<Name, PlayerAssign>

  /** The rank ladder: a rank is the number of thresholds the score has reached. */
  const Thresholds: seq<Score> := [10.0, 20.0, 35.0, 50.0]

  /** `PlayerInfo.get_rank`; the source asserts the score is not negative. */
  function Rank(s: Score): (r: nat)
    requires s >= 0.0
    ensures r <= 4
    ensures r > 0 ==> Thresholds[r - 1] <= s
    ensures r < 4 ==> s < Thresholds[r]
  {
    if s < 10.0 then 0
    else if s < 20.0 then 1
    else if s < 35.0 then 2
    else if s < 50.0 then 3
    else 4
  }

  /** How many of the thresholds in `ts` the score `s` has reached. */
  function Reached(ts: seq<Score>, s: Score): nat
  {
    if ts == [] then 0 else (if ts[0] <= s then 1 else 0) + Reached(ts[1..], s)
  }

  lemma {:induction false} ReachedMonotone(ts: seq<Score>, s1: Score, s2: Score)
    requires s1 <= s2
    ensures Reached(ts, s1) <= Reached(ts, s2)
  {
    if ts != [] {
      ReachedMonotone(ts[1..], s1, s2);
    }
  }

  /** The rank counts the thresholds reached by the score. */
  lemma RankCountsThresholds(s: Score)
    requires s >= 0.0
    ensures Rank(s) == Reached(Thresholds, s)
  {
    var t := Thresholds;
    assert t[1..] == [20.0, 35.0, 50.0] && t[1..][1..] == [35.0, 50.0];
    assert t[1..][1..][1..] == [50.0] && t[1..][1..][1..][1..] == [];
    assert Reached([50.0], s) == if 50.0 <= s then 1 else 0;
    assert Reached([35.0, 50.0], s) == (if 35.0 <= s then 1 else 0) + Reached([50.0], s);
    assert Reached([20.0, 35.0, 50.0], s) == (if 20.0 <= s then 1 else 0) + Reached([35.0, 50.0], s);
  }

  /** A higher score never has a lower rank. */
  lemma RankMonotone(s1: Score, s2: Score)
    requires 0.0 <= s1 <= s2
    ensures Rank(s1) <= Rank(s2)
  {
    RankCountsThresholds(s1);
    RankCountsThresholds(s2);
    ReachedMonotone(Thresholds, s1, s2);
  }

  /** `daysOk[day]`. */
  predicate DayOk(d: DaysOk, day: Day)
  {
    if day == 0 then d.0 else d.1
  }

  /** get_days: the days a player can play, in increasing order. */
  function GetDays(d: DaysOk): (r: seq<Day>)
    ensures forall day: Day :: day in r <==> DayOk(d, day)
    ensures forall i, j :: 0 <= i < j < |r| ==> r[i] < r[j]
  {
    (if d.0 then [0] else []) + (if d.1 then [1] else [])
  }

  /** The day a player is restricted to, when they can play on exactly one day. */
  function SingleDay(info: PlayersInfo, p: Name): (r: Option<Day>)
    requires p in info
    ensures r.Some? ==> DayOk(info[p].daysOk, r.value) && !DayOk(info[p].daysOk, 1 - r.value)
    ensures r.None? ==> (DayOk(info[p].daysOk, 0) <==> DayOk(info[p].daysOk, 1))
  {
    var d := info[p].daysOk;
    if d.0 == d.1 then None else if d.0 then Some(0) else Some(1)
  }

  /** `SingleDay` is the test `deduce_day` makes: `get_days` lists exactly one day, and that is the day. */
  lemma SingleDayDays(info: PlayersInfo, p: Name)
    requires p in info
    ensures SingleDay(info, p).Some? <==> |GetDays(info[p].daysOk)| == 1
    ensures SingleDay(info, p).Some? ==> GetDays(info[p].daysOk)[0] == SingleDay(info, p).value
  {
  }

  /** The player can play on at least one day (the file reader drops the others). */
  predicate Available(info: PlayersInfo, p: Name)
    requires p in info
  {
    info[p].daysOk.0 || info[p].daysOk.1
  }

  /**
   * A dict given as its keys in iteration order and the map itself: the
   * names are the keys, each once.
   */
  ghost predicate KeyOrder(names: seq<Name>, info: PlayersInfo)
  {
    && Distinct(names)
    && (forall p :: p in names <==> p in info)
  }
}
