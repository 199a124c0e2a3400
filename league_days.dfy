/**
 * Choosing two league days: from each player's list of possible days (or
 * `None` for a player who cannot be reached), the players available on each
 * day are gathered, and every pair of days is scored by how many players can
 * make at least one of the two.
 */
module LeagueDays {
  import opened Wrappers
  import opened ListOps

  type Player = int
  type Day = int

  /** The roster: each player's possible days, or `None`. */
  type PlayerInfos = map<Player, Option<seq<Day>>>

  type DayInfos = map<Day, set<Player>>

  /** A pair of days `(day1, day2)`. */
  type Choice = (Day, Day)

  /** The roster lists day `d` among the days of player `p`. */
  ghost predicate Plays(infos: PlayerInfos, p: Player, d: Day)
  {
    p in infos && infos[p].Some? && d in infos[p].value
  }

  /**
   * `gen_day_infos`: `order` is the roster's iteration order; `dayOrder` is
   * the key order of the resulting dict, which lists each played day once.
   */
  method GenDayInfos(infos: PlayerInfos, order: seq<Player>) returns (dayInfos: DayInfos, dayOrder: seq<Day>)
    requires forall p :: p in order <==> p in infos
    ensures forall d, p :: d in dayInfos && p in dayInfos[d] <==> Plays(infos, p, d)
    ensures forall d :: d in dayInfos ==> dayInfos[d] != {}
    ensures forall d :: d in dayOrder <==> d in dayInfos
    ensures forall i, j :: 0 <= i < j < |dayOrder| ==> dayOrder[i] != dayOrder[j]
  {
    dayInfos := map[];
    dayOrder := [];
    for i := 0 to |order|
      invariant forall d, p :: d in dayInfos && p in dayInfos[d] <==> p in order[..i] && Plays(infos, p, d)
      invariant forall d :: d in dayInfos ==> dayInfos[d] != {}
      invariant forall d :: d in dayOrder <==> d in dayInfos
      invariant forall a, b :: 0 <= a < b < |dayOrder| ==> dayOrder[a] != dayOrder[b]
    {
      var player, days := order[i], infos[order[i]];
      TakeSnoc(order, i);
      if days.None? {
        continue;
      }
      for k := 0 to |days.value|
        invariant forall d, p :: d in dayInfos && p in dayInfos[d] <==>
          (p in order[..i] && Plays(infos, p, d)) || (p == player && d in days.value[..k])
        invariant forall d :: d in dayInfos ==> dayInfos[d] != {}
        invariant forall d :: d in dayOrder <==> d in dayInfos
        invariant forall a, b :: 0 <= a < b < |dayOrder| ==> dayOrder[a] != dayOrder[b]
      {
        var day := days.value[k];
        TakeSnoc(days.value, k);
        if day !in dayInfos {
          dayInfos := dayInfos[day := {}];
          dayOrder := dayOrder + [day];
        }
        dayInfos := dayInfos[day := dayInfos[day] + {player}];
      }
      TakeAll(days.value);
    }
    TakeAll(order);
  }

  /** Every player found on some day is on the roster. */
  lemma DayInfosOnRoster(infos: PlayerInfos, dayInfos: DayInfos)
    requires forall d, p :: d in dayInfos && p in dayInfos[d] <==> Plays(infos, p, d)
    ensures forall d :: d in dayInfos ==> dayInfos[d] <= infos.Keys
  {
    forall d, p | d in dayInfos && p in dayInfos[d] ensures p in infos {
      assert Plays(infos, p, d);
    }
  }

  /** A player who cannot be reached is available on no day. */
  lemma UnreachableOnNoDay(infos: PlayerInfos, dayInfos: DayInfos, p: Player)
    requires forall d, p :: d in dayInfos && p in dayInfos[d] <==> Plays(infos, p, d)
    requires p in infos && infos[p].None?
    ensures forall d :: d in dayInfos ==> p !in dayInfos[d]
  {
  }

  lemma {:induction false} SubsetCard<T>(a: set<T>, b: set<T>)
    requires a <= b
    ensures |a| <= |b|
  {
    if a != {} {
      var x :| x in a;
      SubsetCard(a - {x}, b - {x});
    }
  }

  /** The union of two days' players is at least as large as either. */
  lemma UnionBounds(a: set<Player>, b: set<Player>, players: set<Player>)
    ensures |a| <= |a + b| && |b| <= |a + b|
    ensures a <= players && b <= players ==> |a + b| <= |players|
  {
    SubsetCard(a, a + b);
    SubsetCard(b, a + b);
    if a <= players && b <= players {
      SubsetCard(a + b, players);
    }
  }

  /**
   * Those who can and those who cannot make a choice split the roster: no
   * player is in both, together they are everybody, and their counts add up.
   */
  lemma CanCannotPartition(can: set<Player>, players: set<Player>)
    requires can <= players
    ensures can * (players - can) == {}
    ensures can + (players - can) == players
    ensures |can| + |players - can| == |players|
  {
    assert can + (players - can) == players;
  }

  /**
   * `choice_from_day_infos`: `days` is the key order of `dayInfos`. The
   * players who cannot make each choice, which the source prints, are
   * returned in `cannot`.
   */
  method ChoiceFromDayInfos(infos: PlayerInfos, dayInfos: DayInfos, days: seq<Day>)
    returns (scores: map<Choice, nat>, cannot: map<Choice, set<Player>>)
    requires forall d :: d in days <==> d in dayInfos
    ensures forall c :: c in scores <==> c.0 in dayInfos && c.1 in dayInfos && c.0 < c.1
    ensures cannot.Keys == scores.Keys
    ensures forall c :: c in scores ==> scores[c] == |dayInfos[c.0] + dayInfos[c.1]|
    ensures forall c :: c in cannot ==> cannot[c] == infos.Keys - (dayInfos[c.0] + dayInfos[c.1])
  {
    var players := infos.Keys;
    scores := map[];
    cannot := map[];
    for i := 0 to |days|
      invariant forall c :: c in scores <==> c.0 in days[..i] && c.1 in days && c.0 < c.1
      invariant ChoiceData(dayInfos, players, scores, cannot)
    {
      var day1 := days[i];
      TakeSnoc(days, i);
      for k := 0 to |days|
        invariant forall c :: c in scores <==>
          (c.0 in days[..i] && c.1 in days && c.0 < c.1) || (c.0 == day1 && c.1 in days[..k] && c.0 < c.1)
        invariant ChoiceData(dayInfos, players, scores, cannot)
      {
        var day2 := days[k];
        TakeSnoc(days, k);
        if day2 <= day1 {
          continue;
        }
        var playersWhoCan := dayInfos[day1] + dayInfos[day2];
        var playersWhoCannot := players - playersWhoCan;
        var choice := (day1, day2);
        ChoiceDataAdd(dayInfos, players, scores, cannot, day1, day2);
        cannot := cannot[choice := playersWhoCannot];
        scores := scores[choice := |playersWhoCan|];
      }
      TakeAll(days);
    }
    TakeAll(days);
  }

  /** What `choice_from_day_infos` keeps for every choice it has filled in so far. */
  ghost predicate ChoiceData(dayInfos: DayInfos, players: set<Player>,
                             scores: map<Choice, nat>, cannot: map<Choice, set<Player>>)
  {
    && cannot.Keys == scores.Keys
    && (forall c :: c in scores ==> c.0 in dayInfos && c.1 in dayInfos)
    && (forall c :: c in scores ==> scores[c] == |dayInfos[c.0] + dayInfos[c.1]|)
    && (forall c :: c in cannot ==> cannot[c] == players - (dayInfos[c.0] + dayInfos[c.1]))
  }

  lemma ChoiceDataAdd(dayInfos: DayInfos, players: set<Player>,
                      scores: map<Choice, nat>, cannot: map<Choice, set<Player>>, d1: Day, d2: Day)
    requires ChoiceData(dayInfos, players, scores, cannot)
    requires d1 in dayInfos && d2 in dayInfos
    ensures ChoiceData(dayInfos, players,
                       scores[(d1, d2) := |dayInfos[d1] + dayInfos[d2]|],
                       cannot[(d1, d2) := players - (dayInfos[d1] + dayInfos[d2])])
  {
  }

  /** The players of the roster who can play on day `d`. */
  ghost function PlayersOn(infos: PlayerInfos, d: Day): set<Player>
  {
    set p | p in infos && Plays(infos, p, d)
  }

  /** The set `gen_day_infos` gives for a day is exactly the players who can play on it. */
  lemma DayInfosMeaning(infos: PlayerInfos, dayInfos: DayInfos, d: Day)
    requires forall d, p :: d in dayInfos && p in dayInfos[d] <==> Plays(infos, p, d)
    requires forall d :: d in dayInfos ==> dayInfos[d] != {}
    ensures d in dayInfos ==> dayInfos[d] == PlayersOn(infos, d)
    ensures d !in dayInfos <==> PlayersOn(infos, d) == {}
  {
    if d in dayInfos {
      forall p ensures p in dayInfos[d] <==> p in PlayersOn(infos, d) {
        assert p in dayInfos[d] <==> Plays(infos, p, d);
      }
    } else {
      forall p ensures p !in PlayersOn(infos, d) {
        assert !Plays(infos, p, d);
      }
    }
  }

  /**
   * The whole program: the days of the roster, then the score of every pair
   * of days. A pair's score is the number of players who can make one of its
   * days: at least each day's own count and at most the size of the roster,
   * and with those who cannot it makes up the whole roster.
   */
  method LeagueScores(infos: PlayerInfos, order: seq<Player>) returns (scores: map<Choice, nat>, cannot: map<Choice, set<Player>>)
    requires forall p :: p in order <==> p in infos
    ensures forall c :: c in scores <==> c.0 < c.1 && PlayersOn(infos, c.0) != {} && PlayersOn(infos, c.1) != {}
    ensures cannot.Keys == scores.Keys
    ensures forall c :: c in scores ==> scores[c] == |PlayersOn(infos, c.0) + PlayersOn(infos, c.1)|
    ensures forall c :: c in scores ==>
      |PlayersOn(infos, c.0)| <= scores[c] && |PlayersOn(infos, c.1)| <= scores[c] && scores[c] <= |infos|
    ensures forall c :: c in scores ==> cannot[c] == infos.Keys - (PlayersOn(infos, c.0) + PlayersOn(infos, c.1))
    ensures forall c :: c in scores ==> scores[c] + |cannot[c]| == |infos|
  {
    var dayInfos, dayOrder := GenDayInfos(infos, order);
    scores, cannot := ChoiceFromDayInfos(infos, dayInfos, dayOrder);
    forall c | c in scores
      ensures scores[c] == |PlayersOn(infos, c.0) + PlayersOn(infos, c.1)|
      ensures |PlayersOn(infos, c.0)| <= scores[c] && |PlayersOn(infos, c.1)| <= scores[c] && scores[c] <= |infos|
      ensures cannot[c] == infos.Keys - (PlayersOn(infos, c.0) + PlayersOn(infos, c.1))
      ensures scores[c] + |cannot[c]| == |infos|
    {
      DayInfosMeaning(infos, dayInfos, c.0);
      DayInfosMeaning(infos, dayInfos, c.1);
      DayInfosOnRoster(infos, dayInfos);
      UnionBounds(dayInfos[c.0], dayInfos[c.1], infos.Keys);
      CanCannotPartition(dayInfos[c.0] + dayInfos[c.1], infos.Keys);
    }
    forall c ensures c in scores <==> c.0 < c.1 && PlayersOn(infos, c.0) != {} && PlayersOn(infos, c.1) != {} {
      DayInfosMeaning(infos, dayInfos, c.0);
      DayInfosMeaning(infos, dayInfos, c.1);
    }
  }
}
