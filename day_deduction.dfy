/**
 * `deduce_day` and `table_ok`: a table can be played on a day when all of
 * its players that are restricted to a single day agree on that day. When no
 * player is restricted, the source draws the day at random; here that draw
 * is the `coin` parameter.
 */
module DayDeduction {
  import opened Wrappers
  import opened Players
  import opened ListOps

  /** Every player of the table is on the roster (the source looks each one up). */
  predicate Known(info: PlayersInfo, s: seq<Name>)
  {
    forall i :: 0 <= i < |s| ==> s[i] in info
  }

  /** No two single-day players of the table need different days. */
  ghost predicate DayConsistent(info: PlayersInfo, s: seq<Name>)
    requires Known(info, s)
  {
    forall i, j :: 0 <= i < |s| && 0 <= j < |s| && SingleDay(info, s[i]).Some? && SingleDay(info, s[j]).Some? ==>
      SingleDay(info, s[i]) == SingleDay(info, s[j])
  }

  /** The day of the first single-day player of the table, if any. */
  function FirstSingle(info: PlayersInfo, s: seq<Name>): Option<Day>
    requires Known(info, s)
  {
    if s == [] then None
    else if SingleDay(info, s[0]).Some? then SingleDay(info, s[0])
    else FirstSingle(info, s[1..])
  }

  lemma {:induction false} FirstSingleMeaning(info: PlayersInfo, s: seq<Name>)
    requires Known(info, s)
    ensures FirstSingle(info, s).None? <==> forall i :: 0 <= i < |s| ==> SingleDay(info, s[i]).None?
    ensures FirstSingle(info, s).Some? ==> exists i :: 0 <= i < |s| && SingleDay(info, s[i]) == FirstSingle(info, s)
  {
    if s != [] && SingleDay(info, s[0]).None? {
      FirstSingleMeaning(info, s[1..]);
      if FirstSingle(info, s).None? {
        forall i | 0 <= i < |s| ensures SingleDay(info, s[i]).None? {
          if i > 0 {
            assert s[i] == s[1..][i - 1];
          }
        }
      } else {
        var j :| 0 <= j < |s| - 1 && SingleDay(info, s[1..][j]) == FirstSingle(info, s);
        assert s[j + 1] == s[1..][j];
      }
    }
  }

  lemma {:induction false} FirstSingleSnoc(info: PlayersInfo, s: seq<Name>, x: Name)
    requires Known(info, s) && x in info
    ensures Known(info, s + [x])
    ensures FirstSingle(info, s + [x]) == if FirstSingle(info, s).Some? then FirstSingle(info, s) else SingleDay(info, x)
  {
    if s != [] {
      assert (s + [x])[0] == s[0];
      assert (s + [x])[1..] == s[1..] + [x];
      FirstSingleSnoc(info, s[1..], x);
    }
  }

  lemma FirstSingleStep(info: PlayersInfo, s: seq<Name>, i: nat)
    requires Known(info, s) && i < |s|
    ensures FirstSingle(info, s[..i + 1]) == if FirstSingle(info, s[..i]).Some? then FirstSingle(info, s[..i]) else SingleDay(info, s[i])
  {
    TakeSnoc(s, i);
    FirstSingleSnoc(info, s[..i], s[i]);
  }

  /** The first single day among the first `i` players, found front to back as the scans do. */
  function FirstSingleUpTo(info: PlayersInfo, s: seq<Name>, i: nat): Option<Day>
    requires Known(info, s) && i <= |s|
  {
    if i == 0 then None
    else
      var f := FirstSingleUpTo(info, s, i - 1);
      if f.Some? then f else SingleDay(info, s[i - 1])
  }

  /** The front-to-back scan agrees with `FirstSingle` on the prefix. */
  lemma {:induction false} FirstSingleUpToPrefix(info: PlayersInfo, s: seq<Name>, i: nat)
    requires Known(info, s) && i <= |s|
    ensures FirstSingleUpTo(info, s, i) == FirstSingle(info, s[..i])
  {
    if i > 0 {
      FirstSingleUpToPrefix(info, s, i - 1);
      FirstSingleStep(info, s, i - 1);
    }
  }

  /** The day `deduce_day` settles on for a day-consistent table. */
  function DayOf(info: PlayersInfo, s: seq<Name>, coin: Day): Day
    requires Known(info, s)
  {
    match FirstSingle(info, s)
    case None => coin
    case Some(d) => d
  }

  /** How many players of the table are restricted to day `d`. */
  function Count(info: PlayersInfo, s: seq<Name>, d: Day): (c: nat)
    requires Known(info, s)
    ensures c <= |s|
  {
    if s == [] then 0
    else (if SingleDay(info, s[0]) == Some(d) then 1 else 0) + Count(info, s[1..], d)
  }

  /** The single-day players that disagree with the first one. */
  function Dissent(info: PlayersInfo, s: seq<Name>): nat
    requires Known(info, s)
  {
    match FirstSingle(info, s)
    case None => 0
    case Some(d) => Count(info, s, 1 - d)
  }

  lemma {:induction false} CountZero(info: PlayersInfo, s: seq<Name>, d: Day)
    requires Known(info, s)
    ensures Count(info, s, d) == 0 <==> forall i :: 0 <= i < |s| ==> SingleDay(info, s[i]) != Some(d)
  {
    if s != [] {
      CountZero(info, s[1..], d);
      if Count(info, s, d) == 0 {
        forall i | 0 <= i < |s| ensures SingleDay(info, s[i]) != Some(d) {
          if i > 0 {
            assert s[i] == s[1..][i - 1];
          }
        }
      } else if SingleDay(info, s[0]) != Some(d) {
        var j :| 0 <= j < |s| - 1 && SingleDay(info, s[1..][j]) == Some(d);
        assert s[j + 1] == s[1..][j];
      }
    }
  }

  lemma Disagreement(info: PlayersInfo, s: seq<Name>, i: nat, j: nat)
    requires Known(info, s) && i < |s| && j < |s|
    requires SingleDay(info, s[i]).Some? && SingleDay(info, s[j]).Some? && SingleDay(info, s[i]) != SingleDay(info, s[j])
    ensures !DayConsistent(info, s)
  {
  }

  lemma Agreement(info: PlayersInfo, s: seq<Name>, d: Option<Day>)
    requires Known(info, s)
    requires forall i :: 0 <= i < |s| && SingleDay(info, s[i]).Some? ==> SingleDay(info, s[i]) == d
    ensures DayConsistent(info, s)
  {
  }

  lemma {:induction false} NoDissentConsistent(info: PlayersInfo, s: seq<Name>)
    requires Known(info, s) && Dissent(info, s) == 0
    ensures DayConsistent(info, s)
  {
    var first := FirstSingle(info, s);
    if first.None? {
      FirstSingleMeaning(info, s);
      Agreement(info, s, None);
    } else {
      var d := first.value;
      assert Count(info, s, 1 - d) == 0;
      CountZero(info, s, 1 - d);
      forall i | 0 <= i < |s| && SingleDay(info, s[i]).Some? ensures SingleDay(info, s[i]) == Some(d) {
        OtherDay(SingleDay(info, s[i]).value, d);
      }
      Agreement(info, s, Some(d));
    }
  }

  /** A day that is not the other one is this one. */
  lemma OtherDay(e: Day, d: Day)
    requires Some(e) != Some(1 - d)
    ensures e == d
  {
  }

  lemma DissentInconsistent(info: PlayersInfo, s: seq<Name>)
    requires Known(info, s) && Dissent(info, s) != 0
    ensures !DayConsistent(info, s)
  {
    var d := FirstSingle(info, s).value;
    var k := FirstSingleIndex(info, s);
    var i := CountWitness(info, s, 1 - d);
    Disagreement(info, s, k, i);
  }

  /** Where the first single-day player sits. */
  lemma FirstSingleIndex(info: PlayersInfo, s: seq<Name>) returns (k: nat)
    requires Known(info, s) && FirstSingle(info, s).Some?
    ensures k < |s| && SingleDay(info, s[k]) == FirstSingle(info, s)
  {
    FirstSingleMeaning(info, s);
    k :| 0 <= k < |s| && SingleDay(info, s[k]) == FirstSingle(info, s);
  }

  /** A player counted as restricted to day `d`. */
  lemma CountWitness(info: PlayersInfo, s: seq<Name>, d: Day) returns (i: nat)
    requires Known(info, s) && Count(info, s, d) != 0
    ensures i < |s| && SingleDay(info, s[i]) == Some(d)
  {
    CountZero(info, s, d);
    i :| 0 <= i < |s| && SingleDay(info, s[i]) == Some(d);
  }

  /** A table is day-consistent exactly when nobody disagrees with its first single-day player. */
  lemma ConsistentIffNoDissent(info: PlayersInfo, s: seq<Name>)
    requires Known(info, s)
    ensures DayConsistent(info, s) <==> Dissent(info, s) == 0
  {
    if Dissent(info, s) == 0 {
      NoDissentConsistent(info, s);
    } else {
      DissentInconsistent(info, s);
    }
  }

  lemma {:induction false} FirstSinglePrefix(info: PlayersInfo, s: seq<Name>, i: nat)
    requires Known(info, s) && i <= |s|
    requires FirstSingle(info, s[..i]).Some?
    ensures FirstSingle(info, s) == FirstSingle(info, s[..i])
  {
    if SingleDay(info, s[0]).None? {
      TakeTail(s, i);
      FirstSinglePrefix(info, s[1..], i - 1);
    }
  }

  lemma {:induction false} CountUpdate(info: PlayersInfo, s: seq<Name>, i: nat, x: Name, d: Day)
    requires Known(info, s) && i < |s| && x in info
    ensures Known(info, s[i := x])
    ensures Count(info, s[i := x], d) + (if SingleDay(info, s[i]) == Some(d) then 1 else 0)
         == Count(info, s, d) + (if SingleDay(info, x) == Some(d) then 1 else 0)
  {
    if i > 0 {
      UpdateTail(s, i, x);
      CountUpdate(info, s[1..], i - 1, x, d);
    } else {
      UpdateHead(s, x);
    }
  }

  /**
   * Replacing a player that disagrees with the first single-day player
   * (found after it) by one that does not disagree lowers the dissent by one.
   */
  lemma SwapLowersDissent(info: PlayersInfo, s: seq<Name>, i: nat, x: Name, e: Day)
    requires Known(info, s) && i < |s| && x in info
    requires FirstSingle(info, s[..i]) == Some(1 - e)
    requires SingleDay(info, s[i]) == Some(e) && SingleDay(info, x) != Some(e)
    ensures Known(info, s[i := x])
    ensures Dissent(info, s[i := x]) < Dissent(info, s)
  {
    CountUpdate(info, s, i, x, e);
    FirstSinglePrefix(info, s, i);
    assert s[i := x][..i] == s[..i];
    FirstSinglePrefix(info, s[i := x], i);
  }

  /** `deduce_day`: the common day of the single-day players, or the coin when there are none. */
  method DeduceDay(info: PlayersInfo, players: seq<Name>, coin: Day) returns (r: Option<Day>)
    requires Known(info, players)
    ensures r.None? <==> !DayConsistent(info, players)
    ensures r.Some? ==> forall i :: 0 <= i < |players| && SingleDay(info, players[i]).Some? ==> SingleDay(info, players[i]) == r
    ensures FirstSingle(info, players).None? ==> r == Some(coin)
    ensures r.Some? ==> r.value == DayOf(info, players, coin)
  {
    ghost var first: nat := 0;
    var day: Option<Day> := None;
    for i := 0 to |players|
      invariant day.None? <==> forall j :: 0 <= j < i ==> SingleDay(info, players[j]).None?
      invariant day.Some? ==> first < i && SingleDay(info, players[first]) == day
      invariant forall j :: 0 <= j < i && SingleDay(info, players[j]).Some? ==> SingleDay(info, players[j]) == day
    {
      var days := GetDays(info[players[i]].daysOk);
      SingleDayDays(info, players[i]);
      if |days| == 1 {
        if day.None? {
          day := Some(days[0]);
          first := i;
        } else if day.value != days[0] {
          Disagreement(info, players, first, i);
          HasSingle(info, players, i);
          return None;
        }
      }
    }
    Deduced(info, players, day);
    if day.None? {
      day := Some(coin);
    }
    return day;
  }

  /** A table with a single-day player has a first one. */
  lemma HasSingle(info: PlayersInfo, s: seq<Name>, j: nat)
    requires Known(info, s) && j < |s| && SingleDay(info, s[j]).Some?
    ensures FirstSingle(info, s).Some?
  {
    FirstSingleMeaning(info, s);
  }

  /**
   * When every single-day player of the table has day `day`, and `day` is
   * `None` only when there are none, the table is consistent and `day` is
   * the first single day.
   */
  lemma Deduced(info: PlayersInfo, s: seq<Name>, day: Option<Day>)
    requires Known(info, s)
    requires day.None? <==> forall j :: 0 <= j < |s| ==> SingleDay(info, s[j]).None?
    requires forall j :: 0 <= j < |s| && SingleDay(info, s[j]).Some? ==> SingleDay(info, s[j]) == day
    ensures DayConsistent(info, s)
    ensures FirstSingle(info, s) == day
  {
    Agreement(info, s, day);
    FirstSingleMeaning(info, s);
  }

  /** `table_ok`: whether a day can be deduced (the coin does not matter). */
  method TableOk(info: PlayersInfo, players: seq<Name>) returns (ok: bool)
    requires Known(info, players)
    ensures ok <==> DayConsistent(info, players)
  {
    var day := DeduceDay(info, players, 0);
    ok := day != None;
  }
}
