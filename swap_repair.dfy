/**
 * `seek_and_swap_players`, `correctify_solution` and
 * `group_and_swap_solution`: the greedy tables are repaired by swapping
 * players between neighbouring tables until every table has a day all of its
 * single-day players agree on; each table then plays on that day. The
 * `List[List[Name]]` of tables is an array of sequences whose slots the
 * methods overwrite; the random day drawn for a table without single-day
 * players is `coin(table index)`.
 */
module SwapRepair {
  import opened Wrappers
  import opened ListOps
  import opened Players
  import opened Partition
  import opened DayDeduction
  import opened Grouping
  import opened Validator

  /** Every player of every table is on the roster. */
  predicate AllKnown(info: PlayersInfo, tables: seq<seq<Name>>)
  {
    forall t :: 0 <= t < |tables| ==> Known(info, tables[t])
  }

  /** A player the other table can give: free on both days, or bound to a day other than `day`. */
  predicate Eligible(info: PlayersInfo, p: Name, day: Day)
    requires p in info
  {
    var days := GetDays(info[p].daysOk);
    |days| == 2 || (|days| == 1 && days[0] != day)
  }

  lemma EligibleAgrees(info: PlayersInfo, p: Name, day: Day)
    requires p in info && Eligible(info, p, day)
    ensures SingleDay(info, p) != Some(day)
  {
  }

  lemma KnownPermutation(info: PlayersInfo, a: seq<Name>, b: seq<Name>)
    requires Known(info, a) && multiset(a) == multiset(b)
    ensures Known(info, b)
  {
    forall i | 0 <= i < |b| ensures b[i] in info {
      assert b[i] in multiset(a);
    }
  }

  /** A table that is not day-consistent has a player disagreeing with its first single-day player. */
  lemma DissenterExists(info: PlayersInfo, table: seq<Name>) returns (w: nat)
    requires Known(info, table) && !DayConsistent(info, table)
    ensures w < |table| && SingleDay(info, table[w]).Some? && FirstSingleUpTo(info, table, w).Some?
    ensures SingleDay(info, table[w]) != FirstSingleUpTo(info, table, w)
  {
    ConsistentIffNoDissent(info, table);
    var d0 := FirstSingle(info, table).value;
    w := CountWitness(info, table, 1 - d0);
    FirstSingleUpToPrefix(info, table, w);
    FirstSingleStep(info, table, w);
    if FirstSingle(info, table[..w]).Some? {
      FirstSinglePrefix(info, table, w);
    } else {
      FirstSinglePrefix(info, table, w + 1);
    }
  }

  /** Player `k` of `s` is bound to one day, and not to the day of the first single-day player before it. */
  predicate IsDissent(info: PlayersInfo, s: seq<Name>, k: nat)
    requires Known(info, s)
  {
    && k < |s| && SingleDay(info, s[k]).Some? && FirstSingleUpTo(info, s, k).Some?
    && SingleDay(info, s[k]) != FirstSingleUpTo(info, s, k)
  }

  /** The first dissenting player of `s` at index `i` or later, or `|s|` when there is none. */
  function FirstDissent(info: PlayersInfo, s: seq<Name>, i: nat): (k: nat)
    requires Known(info, s) && i <= |s|
    ensures i <= k <= |s|
    ensures k < |s| ==> IsDissent(info, s, k)
    ensures forall j :: i <= j < k ==> !IsDissent(info, s, j)
    decreases |s| - i
  {
    if i == |s| || IsDissent(info, s, i) then i else FirstDissent(info, s, i + 1)
  }

  /** On a table that is not day-consistent the first dissenter exists. */
  lemma DissentFound(info: PlayersInfo, s: seq<Name>)
    requires Known(info, s) && !DayConsistent(info, s)
    ensures FirstDissent(info, s, 0) < |s|
  {
    var w := DissenterExists(info, s);
    assert IsDissent(info, s, w);
  }

  /** The day the first dissenter of a table that is not day-consistent is bound to. */
  ghost function DissentDay(info: PlayersInfo, s: seq<Name>): (d: Day)
    requires Known(info, s) && !DayConsistent(info, s)
    ensures FirstDissent(info, s, 0) < |s| && SingleDay(info, s[FirstDissent(info, s, 0)]) == Some(d)
  {
    DissentFound(info, s);
    SingleDay(info, s[FirstDissent(info, s, 0)]).value
  }

  /**
   * The first loop of `seek_and_swap_players`: the first single-day player
   * whose day differs from the day of the first single-day player. On a
   * table that is not day-consistent it always exists, which is the
   * source's `assert(upIdPlayer is not None)`.
   */
  method FindDissenter(info: PlayersInfo, table: seq<Name>) returns (pi: nat, day: Day)
    requires Known(info, table) && !DayConsistent(info, table)
    ensures pi < |table| && SingleDay(info, table[pi]) == Some(day)
    ensures FirstSingle(info, table[..pi]) == Some(1 - day)
    ensures forall k :: 0 <= k < pi ==> SingleDay(info, table[k]) != Some(day)
    ensures pi == FirstDissent(info, table, 0) && day == DissentDay(info, table)
  {
    ghost var w := DissenterExists(info, table);
    pi, day := 0, 0;
    var upDay: Option<Day> := None;
    var i := 0;
    while i < |table|
      invariant i <= w
      invariant upDay == FirstSingleUpTo(info, table, i)
      invariant forall k :: 0 <= k < i && SingleDay(info, table[k]).Some? ==> SingleDay(info, table[k]) == upDay
      invariant FirstDissent(info, table, i) == FirstDissent(info, table, 0)
      decreases |table| - i
    {
      var single := SingleDay(info, table[i]);
      if single.Some? {
        if upDay.None? {
          upDay := single;
        } else if upDay.value != single.value {
          DissentAt(info, table, i, upDay.value, single.value);
          assert IsDissent(info, table, i);
          return i, single.value;
        }
      }
      assert !IsDissent(info, table, i);
      i := i + 1;
    }
    assert false;
  }

  /** A single-day player whose day `v` differs from the first single day `u` before it. */
  lemma DissentAt(info: PlayersInfo, table: seq<Name>, i: nat, u: Day, v: Day)
    requires Known(info, table) && i <= |table|
    requires FirstSingleUpTo(info, table, i) == Some(u) && u != v
    ensures FirstSingle(info, table[..i]) == Some(1 - v)
  {
    FirstSingleUpToPrefix(info, table, i);
  }

  /** The first player of `s` at index `i` or later who is eligible for `day`. */
  function FirstEligible(info: PlayersInfo, s: seq<Name>, day: Day, i: nat): (r: Option<nat>)
    requires Known(info, s) && i <= |s|
    ensures r.Some? ==> i <= r.value < |s| && Eligible(info, s[r.value], day)
    ensures r.Some? ==> forall j :: i <= j < r.value ==> !Eligible(info, s[j], day)
    ensures r.None? ==> forall j :: i <= j < |s| ==> !Eligible(info, s[j], day)
    decreases |s| - i
  {
    if i == |s| then None
    else if Eligible(info, s[i], day) then Some(i)
    else FirstEligible(info, s, day, i + 1)
  }

  /** The last player among the first `n` of `s` who is eligible for `day`. */
  function LastEligible(info: PlayersInfo, s: seq<Name>, day: Day, n: nat): (r: Option<nat>)
    requires Known(info, s) && n <= |s|
    ensures r.Some? ==> r.value < n && Eligible(info, s[r.value], day)
    ensures r.Some? ==> forall j :: r.value < j < n ==> !Eligible(info, s[j], day)
    ensures r.None? ==> forall j :: 0 <= j < n ==> !Eligible(info, s[j], day)
  {
    if n == 0 then None
    else if Eligible(info, s[n - 1], day) then Some(n - 1)
    else LastEligible(info, s, day, n - 1)
  }

  /** The swapping partner table `s` offers for `day`: its first eligible player, or its last when `reverse`. */
  function PartnerOf(info: PlayersInfo, s: seq<Name>, day: Day, reverse: bool): Option<nat>
    requires Known(info, s)
  {
    if reverse then LastEligible(info, s, day, |s|) else FirstEligible(info, s, day, 0)
  }

  /**
   * The second loop of `seek_and_swap_players`: the first eligible player
   * of the table, or the last one when `reverse` holds.
   */
  method FindPartner(info: PlayersInfo, table: seq<Name>, day: Day, reverse: bool) returns (found: bool, pi: nat)
    requires Known(info, table)
    ensures found ==> pi < |table| && Eligible(info, table[pi], day)
    ensures found && !reverse ==> forall j :: 0 <= j < pi ==> !Eligible(info, table[j], day)
    ensures found && reverse ==> forall j :: pi < j < |table| ==> !Eligible(info, table[j], day)
    ensures !found ==> forall j :: 0 <= j < |table| ==> !Eligible(info, table[j], day)
    ensures found <==> PartnerOf(info, table, day, reverse).Some?
    ensures found ==> pi == PartnerOf(info, table, day, reverse).value
  {
    found, pi := false, 0;
    for k := 0 to |table|
      invariant forall j :: 0 <= j < |table| && (if reverse then |table| - k <= j else j < k) ==> !Eligible(info, table[j], day)
    {
      var i := if reverse then |table| - 1 - k else k;
      if Eligible(info, table[i], day) {
        return true, i;
      }
    }
  }

  /** Exchanging `a[i]` and `b[j]` keeps the players of the two tables together. */
  lemma ExchangeCounts(a: seq<Name>, i: nat, b: seq<Name>, j: nat)
    requires i < |a| && j < |b|
    ensures multiset(a[i := b[j]]) + multiset(b[j := a[i]]) == multiset(a) + multiset(b)
  {
    assert multiset(a[i := b[j]]) == multiset(a) - multiset{a[i]} + multiset{b[j]};
    assert multiset(b[j := a[i]]) == multiset(b) - multiset{b[j]} + multiset{a[i]};
  }

  /**
   * One round of `seek_and_swap_players` on the up table `a` and the down
   * table `b`: the first dissenter of `a` changes place with the partner `b`
   * offers for its day. There is no round exactly when no player of `b` is
   * eligible for that day; a round keeps both tables' players together and
   * lowers the dissent of `a`.
   */
  ghost function RoundStep(info: PlayersInfo, a: seq<Name>, b: seq<Name>, reverse: bool): (r: Option<(seq<Name>, seq<Name>)>)
    requires Known(info, a) && Known(info, b) && !DayConsistent(info, a)
    ensures r.None? <==> forall j :: 0 <= j < |b| ==> !Eligible(info, b[j], DissentDay(info, a))
    ensures r.Some? ==> Known(info, r.value.0) && Known(info, r.value.1)
    ensures r.Some? ==> |r.value.0| == |a| && |r.value.1| == |b|
    ensures r.Some? ==> multiset(r.value.0) + multiset(r.value.1) == multiset(a) + multiset(b)
    ensures r.Some? ==> Dissent(info, r.value.0) < Dissent(info, a)
  {
    var pi, day := FirstDissent(info, a, 0), DissentDay(info, a);
    match PartnerOf(info, b, day, reverse)
    case None => None
    case Some(j) =>
      RoundFacts(info, a, b, pi, j, day);
      Some((a[pi := b[j]], b[j := a[pi]]))
  }

  /** What an exchange of the first dissenter of `a` with an eligible player `b[j]` keeps and lowers. */
  lemma RoundFacts(info: PlayersInfo, a: seq<Name>, b: seq<Name>, pi: nat, j: nat, day: Day)
    requires Known(info, a) && Known(info, b) && !DayConsistent(info, a)
    requires pi == FirstDissent(info, a, 0) && day == DissentDay(info, a)
    requires j < |b| && Eligible(info, b[j], day)
    ensures pi < |a| && Known(info, a[pi := b[j]]) && Known(info, b[j := a[pi]])
    ensures multiset(a[pi := b[j]]) + multiset(b[j := a[pi]]) == multiset(a) + multiset(b)
    ensures Dissent(info, a[pi := b[j]]) < Dissent(info, a)
  {
    var u := FirstSingleUpTo(info, a, pi).value;
    DissentAt(info, a, pi, u, day);
    EligibleAgrees(info, b[j], day);
    SwapLowersDissent(info, a, pi, b[j], day);
    ExchangeCounts(a, pi, b, j);
  }

  /**
   * `seek_and_swap_players` on the up table `a` and the down table `b`:
   * rounds until `a` is day-consistent or a round finds no partner. It
   * always ends, with `a` day-consistent or no partner in `b` for the
   * day of the first dissenter of `a`, and the two tables hold the same
   * players as before.
   */
  ghost function Seek(info: PlayersInfo, a: seq<Name>, b: seq<Name>, reverse: bool): (r: (seq<Name>, seq<Name>))
    requires Known(info, a) && Known(info, b)
    ensures Known(info, r.0) && Known(info, r.1) && |r.0| == |a| && |r.1| == |b|
    ensures multiset(r.0) + multiset(r.1) == multiset(a) + multiset(b)
    ensures !DayConsistent(info, r.0) ==> forall j :: 0 <= j < |r.1| ==> !Eligible(info, r.1[j], DissentDay(info, r.0))
    decreases Dissent(info, a)
  {
    if DayConsistent(info, a) then (a, b)
    else match RoundStep(info, a, b, reverse)
      case None => (a, b)
      case Some(next) => Seek(info, next.0, next.1, reverse)
  }

  /**
   * One round of the loop of `seek_and_swap_players`: the first dissenting
   * player of table `up` (at `upPi`, bound to `upDay`) changes place with the
   * first eligible player of table `down` (the last when `reverse`), at `pi`,
   * if there is one; otherwise nothing changes. A swap lowers the dissent of
   * table `up`.
   */
  method SwapRound(info: PlayersInfo, up: nat, down: nat, tables: array<seq<Name>>, reverse: bool)
    returns (swapFound: bool, upPi: nat, upDay: Day, pi: nat)
    requires up < tables.Length && down < tables.Length && up != down
    requires Known(info, tables[up]) && Known(info, tables[down]) && !DayConsistent(info, tables[up])
    modifies tables
    ensures Known(info, tables[up]) && Known(info, tables[down])
    ensures upPi < |old(tables[up])| && SingleDay(info, old(tables[up])[upPi]) == Some(upDay)
    ensures FirstSingle(info, old(tables[up])[..upPi]) == Some(1 - upDay)
    ensures forall k :: 0 <= k < upPi ==> SingleDay(info, old(tables[up])[k]) != Some(upDay)
    ensures swapFound ==> pi < |old(tables[down])| && Eligible(info, old(tables[down])[pi], upDay)
    ensures swapFound && !reverse ==> forall j :: 0 <= j < pi ==> !Eligible(info, old(tables[down])[j], upDay)
    ensures swapFound && reverse ==> forall j :: pi < j < |old(tables[down])| ==> !Eligible(info, old(tables[down])[j], upDay)
    ensures !swapFound ==> forall j :: 0 <= j < |old(tables[down])| ==> !Eligible(info, old(tables[down])[j], upDay)
    ensures swapFound ==> tables[up] == old(tables[up])[upPi := old(tables[down])[pi]]
    ensures swapFound ==> tables[down] == old(tables[down])[pi := old(tables[up])[upPi]]
    ensures !swapFound ==> tables[up] == old(tables[up]) && tables[down] == old(tables[down])
    ensures swapFound ==> Dissent(info, tables[up]) < old(Dissent(info, tables[up]))
    ensures |tables[up]| == old(|tables[up]|) && |tables[down]| == old(|tables[down]|)
    ensures multiset(tables[up]) + multiset(tables[down]) == old(multiset(tables[up]) + multiset(tables[down]))
    ensures forall t :: 0 <= t < tables.Length && t != up && t != down ==> tables[t] == old(tables[t])
    ensures swapFound <==> RoundStep(info, old(tables[up]), old(tables[down]), reverse).Some?
    ensures swapFound ==> RoundStep(info, old(tables[up]), old(tables[down]), reverse).value == (tables[up], tables[down])
  {
    upPi, upDay := FindDissenter(info, tables[up]);
    var upPlayer := tables[up][upPi];
    swapFound, pi := FindPartner(info, tables[down], upDay, reverse);
    if !swapFound {
      return;
    }
    var player := tables[down][pi];
    EligibleAgrees(info, player, upDay);
    SwapLowersDissent(info, tables[up], upPi, player, upDay);
    ExchangeCounts(tables[up], upPi, tables[down], pi);
    var newDown := tables[down][pi := upPlayer];
    assert Known(info, newDown);
    tables[up] := tables[up][upPi := player];
    tables[down] := newDown;
  }

  /**
   * `seek_and_swap_players`: rounds of swaps while table `up` is not
   * day-consistent and the last round found a partner. It reports whether
   * table `up` ends day-consistent; only the two tables change, and only by
   * exchanges, so each keeps its length.
   */
  method SeekAndSwap(info: PlayersInfo, up: nat, down: nat, tables: array<seq<Name>>, reverse: bool)
    returns (ok: bool)
    requires up < tables.Length && down < tables.Length && up != down
    requires Known(info, tables[up]) && Known(info, tables[down])
    modifies tables
    ensures Known(info, tables[up]) && Known(info, tables[down])
    ensures ok == DayConsistent(info, tables[up])
    ensures |tables[up]| == old(|tables[up]|) && |tables[down]| == old(|tables[down]|)
    ensures multiset(tables[up]) + multiset(tables[down]) == old(multiset(tables[up]) + multiset(tables[down]))
    ensures forall t :: 0 <= t < tables.Length && t != up && t != down ==> tables[t] == old(tables[t])
    ensures (tables[up], tables[down]) == Seek(info, old(tables[up]), old(tables[down]), reverse)
    ensures !ok ==> forall j :: 0 <= j < |tables[down]| ==> !Eligible(info, tables[down][j], DissentDay(info, tables[up]))
  {
    var swapFound := true;
    var upOk := TableOk(info, tables[up]);
    while !(upOk || !swapFound)
      invariant Known(info, tables[up]) && Known(info, tables[down])
      invariant upOk == DayConsistent(info, tables[up])
      invariant Seek(info, tables[up], tables[down], reverse) == Seek(info, old(tables[up]), old(tables[down]), reverse)
      invariant !swapFound ==> !upOk && RoundStep(info, tables[up], tables[down], reverse).None?
      invariant |tables[up]| == old(|tables[up]|) && |tables[down]| == old(|tables[down]|)
      invariant multiset(tables[up]) + multiset(tables[down]) == old(multiset(tables[up]) + multiset(tables[down]))
      invariant forall t :: 0 <= t < tables.Length && t != up && t != down ==> tables[t] == old(tables[t])
      decreases Dissent(info, tables[up]), if swapFound then 1 else 0
    {
      var upPi, upDay, pi;
      swapFound, upPi, upDay, pi := SwapRound(info, up, down, tables, reverse);
      upOk := TableOk(info, tables[up]);
    }
    ok := TableOk(info, tables[up]);
  }

  /** Changing two tables by an exchange keeps the multiset of all players. */
  lemma ExchangeKeepsPlayers(a: seq<seq<Name>>, b: seq<seq<Name>>, up: nat, down: nat)
    requires |a| == |b| && up < |a| && down < |a| && up != down
    requires forall t :: 0 <= t < |a| && t != up && t != down ==> b[t] == a[t]
    requires multiset(b[up]) + multiset(b[down]) == multiset(a[up]) + multiset(a[down])
    ensures multiset(Flatten(b)) == multiset(Flatten(a))
  {
    var m := a[up := b[up]];
    assert b == m[down := b[down]];
    assert m[down] == a[down];
    FlattenUpdate(a, up, b[up]);
    FlattenUpdate(m, down, b[down]);
    var fa, fm, fb := multiset(Flatten(a)), multiset(Flatten(m)), multiset(Flatten(b));
    var au, ad, bu, bd := multiset(a[up]), multiset(a[down]), multiset(b[up]), multiset(b[down]);
    assert fm + au == fa + bu;
    assert fb + ad == fm + bd;
    forall x ensures fb[x] == fa[x] {
      assert (fm + au)[x] == (fa + bu)[x];
      assert (fb + ad)[x] == (fm + bd)[x];
      assert (bu + bd)[x] == (au + ad)[x];
    }
  }

  /** Every player of `players` gets the assignment `a`. */
  function Seat(players: seq<Name>, a: PlayerAssign): (m: Solution)
    ensures forall p :: p in m <==> p in players
    ensures forall p :: p in m ==> m[p] == a
  {
    map p | p in players :: a
  }

  /**
   * The solution `correctify_solution` builds from the first `n` tables:
   * every player of table `i` gets `PA(day of table i, i)`, a later table
   * overwriting an earlier one.
   */
  function Assignment(info: PlayersInfo, tables: seq<seq<Name>>, n: nat, coin: nat -> Day): (sol: Solution)
    requires AllKnown(info, tables) && n <= |tables|
  {
    if n == 0 then map[]
    else
      var day := DayOf(info, tables[n - 1], coin(n - 1));
      Assignment(info, tables, n - 1, coin) + Seat(tables[n - 1], PA(day, n - 1))
  }

  /** A player's entry comes from the last of the first `n` tables holding them. */
  lemma {:induction false} AssignmentOf(info: PlayersInfo, tables: seq<seq<Name>>, n: nat, coin: nat -> Day, t: nat, p: Name)
    requires AllKnown(info, tables) && t < n <= |tables| && p in tables[t]
    requires forall u :: t < u < n ==> p !in tables[u]
    ensures p in Assignment(info, tables, n, coin)
    ensures Assignment(info, tables, n, coin)[p] == PA(DayOf(info, tables[t], coin(t)), t)
  {
    var a := PA(DayOf(info, tables[n - 1], coin(n - 1)), n - 1);
    SeatOver(Assignment(info, tables, n - 1, coin), tables[n - 1], a, p);
    if t < n - 1 {
      AssignmentOf(info, tables, n - 1, coin, t, p);
    }
  }

  /** Seating a table over a solution gives its players the new entry and leaves everyone else's. */
  lemma SeatOver(prev: Solution, players: seq<Name>, a: PlayerAssign, p: Name)
    ensures p in players ==> p in prev + Seat(players, a) && (prev + Seat(players, a))[p] == a
    ensures p !in players ==> (p in prev + Seat(players, a) <==> p in prev)
    ensures p !in players && p in prev ==> (prev + Seat(players, a))[p] == prev[p]
  {
  }

  /** The last loop of `correctify_solution`, over day-consistent tables. */
  method BuildSolution(info: PlayersInfo, tables: seq<seq<Name>>, coin: nat -> Day) returns (sol: Solution)
    requires AllKnown(info, tables)
    requires forall t :: 0 <= t < |tables| ==> DayConsistent(info, tables[t])
    ensures sol == Assignment(info, tables, |tables|, coin)
  {
    sol := map[];
    for i := 0 to |tables|
      invariant sol == Assignment(info, tables, i, coin)
    {
      var day := TableDay(info, tables[i], coin(i));
      assert Assignment(info, tables, i + 1, coin) == sol + Seat(tables[i], PA(day, i));
      sol := SeatAll(sol, tables[i], PA(day, i));
    }
  }

  /** `deduce_day` on a day-consistent table, where the source asserts a day is found. */
  method TableDay(info: PlayersInfo, players: seq<Name>, coin: Day) returns (day: Day)
    requires Known(info, players) && DayConsistent(info, players)
    ensures day == DayOf(info, players, coin)
  {
    var r := DeduceDay(info, players, coin);
    assert r.Some?;
    day := r.value;
  }

  lemma SeatStep(sol: Solution, players: seq<Name>, j: nat, a: PlayerAssign)
    requires j < |players|
    ensures (sol + Seat(players[..j], a))[players[j] := a] == sol + Seat(players[..j + 1], a)
  {
    assert players[..j + 1] == players[..j] + [players[j]];
  }

  /** The inner loop: `solution[player] = a` for every player of the table. */
  method SeatAll(sol0: Solution, players: seq<Name>, a: PlayerAssign) returns (sol: Solution)
    ensures sol == sol0 + Seat(players, a)
  {
    sol := sol0;
    for j := 0 to |players|
      invariant sol == sol0 + Seat(players[..j], a)
    {
      SeatStep(sol0, players, j, a);
      sol := sol[players[j] := a];
    }
    TakeAll(players);
  }

  /** `b` has as many tables as `a`, each of the same size, and the same players overall. */
  ghost predicate Rearranged(a: seq<seq<Name>>, b: seq<seq<Name>>)
  {
    && |b| == |a| && (forall t :: 0 <= t < |a| ==> |b[t]| == |a[t]|)
    && multiset(Flatten(b)) == multiset(Flatten(a))
  }

  /**
   * The step of both passes on the list of tables `ts`: unless table `up` is
   * day-consistent, `seek_and_swap_players(up, down)`.
   */
  ghost function Repair(info: PlayersInfo, ts: seq<seq<Name>>, up: nat, down: nat, reverse: bool): (r: seq<seq<Name>>)
    requires AllKnown(info, ts) && up < |ts| && down < |ts| && up != down
    ensures AllKnown(info, r) && |r| == |ts|
  {
    if DayConsistent(info, ts[up]) then ts
    else
      var s := Seek(info, ts[up], ts[down], reverse);
      ts[up := s.0][down := s.1]
  }

  /** The step only exchanges players between tables `up` and `down`; every other table stays. */
  lemma RepairKeeps(info: PlayersInfo, ts: seq<seq<Name>>, up: nat, down: nat, reverse: bool)
    requires AllKnown(info, ts) && up < |ts| && down < |ts| && up != down
    ensures Rearranged(ts, Repair(info, ts, up, down, reverse))
    ensures forall t :: 0 <= t < |ts| && t != up && t != down ==> Repair(info, ts, up, down, reverse)[t] == ts[t]
  {
    if !DayConsistent(info, ts[up]) {
      ExchangeKeepsPlayers(ts, Repair(info, ts, up, down, reverse), up, down);
    }
  }

  lemma RearrangedTrans(a: seq<seq<Name>>, b: seq<seq<Name>>, c: seq<seq<Name>>)
    requires Rearranged(a, b) && Rearranged(b, c)
    ensures Rearranged(a, c)
  {
  }

  /** The first `k` steps of the forward pass: table `i` takes players from table `i + 1`, for `i < k`. */
  ghost function Forward(info: PlayersInfo, ts: seq<seq<Name>>, k: nat): (r: seq<seq<Name>>)
    requires AllKnown(info, ts) && (k == 0 || k < |ts|)
    ensures AllKnown(info, r) && |r| == |ts|
  {
    if k == 0 then ts else Repair(info, Forward(info, ts, k - 1), k - 1, k, false)
  }

  /** The forward pass keeps every table's size and all players. */
  lemma {:induction false} ForwardKeeps(info: PlayersInfo, ts: seq<seq<Name>>, k: nat)
    requires AllKnown(info, ts) && (k == 0 || k < |ts|)
    ensures Rearranged(ts, Forward(info, ts, k))
  {
    if k > 0 {
      ForwardKeeps(info, ts, k - 1);
      RepairKeeps(info, Forward(info, ts, k - 1), k - 1, k, false);
      RearrangedTrans(ts, Forward(info, ts, k - 1), Forward(info, ts, k));
    }
  }

  /** Every table sorted by score, best first. */
  ghost function SortAll(info: PlayersInfo, ts: seq<seq<Name>>): (r: seq<seq<Name>>)
    requires AllKnown(info, ts)
    ensures AllKnown(info, r) && |r| == |ts|
  {
    var r := seq(|ts|, t requires 0 <= t < |ts| => SortDesc(ts[t], ScoreKey(info)));
    SortedTables(info, ts, r);
    r
  }

  /** Sorting keeps every table's size and all players, and puts each table in descending score order. */
  lemma SortAllKeeps(info: PlayersInfo, ts: seq<seq<Name>>)
    requires AllKnown(info, ts)
    ensures Rearranged(ts, SortAll(info, ts))
    ensures forall t :: 0 <= t < |ts| ==> NonIncreasing(SortAll(info, ts)[t], ScoreKey(info))
  {
    SortedTables(info, ts, SortAll(info, ts));
  }

  /**
   * The reverse pass from table `i - 1` down to table 1: a table that is not
   * day-consistent takes players from the table before it, and the pass
   * stops, failed, at the first table that stays without a common day.
   */
  ghost function ReverseFrom(info: PlayersInfo, ts: seq<seq<Name>>, i: nat): (r: (seq<seq<Name>>, bool))
    requires AllKnown(info, ts) && i <= |ts|
    ensures AllKnown(info, r.0) && |r.0| == |ts|
    decreases i
  {
    if i <= 1 then (ts, true)
    else
      var next := Repair(info, ts, i - 1, i - 2, true);
      if !DayConsistent(info, next[i - 1]) then (next, false)
      else ReverseFrom(info, next, i - 1)
  }

  /** The reverse pass keeps every table's size and all players, and tables from `i` on do not change. */
  lemma {:induction false} ReverseFromKeeps(info: PlayersInfo, ts: seq<seq<Name>>, i: nat)
    requires AllKnown(info, ts) && i <= |ts|
    ensures Rearranged(ts, ReverseFrom(info, ts, i).0)
    ensures forall t :: i <= t < |ts| ==> ReverseFrom(info, ts, i).0[t] == ts[t]
    decreases i
  {
    if i > 1 {
      var next := Repair(info, ts, i - 1, i - 2, true);
      RepairKeeps(info, ts, i - 1, i - 2, true);
      if DayConsistent(info, next[i - 1]) {
        ReverseFromKeeps(info, next, i - 1);
        RearrangedTrans(ts, next, ReverseFrom(info, next, i - 1).0);
      }
    }
  }

  /** One step of the reverse pass, on table `i - 1`, which leaves the tables `next`. */
  lemma ReverseAdvance(info: PlayersInfo, prev: seq<seq<Name>>, i: nat, next: seq<seq<Name>>)
    requires AllKnown(info, prev) && 1 < i <= |prev|
    requires next == Repair(info, prev, i - 1, i - 2, true)
    ensures AllKnown(info, next) && |next| == |prev|
    ensures DayConsistent(info, next[i - 1]) ==> ReverseFrom(info, prev, i) == ReverseFrom(info, next, i - 1)
    ensures !DayConsistent(info, next[i - 1]) ==> ReverseFrom(info, prev, i) == (next, false)
  {
  }

  /**
   * On success of the reverse pass from table `i - 1`, tables 1 to `i - 1`
   * are day-consistent; on failure one of them is not.
   */
  lemma {:induction false} ReverseFromOutcome(info: PlayersInfo, ts: seq<seq<Name>>, i: nat)
    requires AllKnown(info, ts) && i <= |ts|
    ensures var r := ReverseFrom(info, ts, i);
      && (r.1 ==> forall t :: 1 <= t < i ==> DayConsistent(info, r.0[t]))
      && (!r.1 ==> exists t :: 1 <= t < i && !DayConsistent(info, r.0[t]))
    decreases i
  {
    if i > 1 {
      var next := Repair(info, ts, i - 1, i - 2, true);
      ReverseAdvance(info, ts, i, next);
      if DayConsistent(info, next[i - 1]) {
        var rest := ReverseFrom(info, next, i - 1);
        assert ReverseFrom(info, ts, i) == rest;
        ReverseFromOutcome(info, next, i - 1);
        ReverseFromKeeps(info, next, i - 1);
        assert rest.0[i - 1] == next[i - 1];
        if rest.1 {
          forall t | 1 <= t < i ensures DayConsistent(info, rest.0[t]) {
            if t == i - 1 {
              assert rest.0[t] == next[i - 1];
            }
          }
        } else {
          var t :| 1 <= t < i - 1 && !DayConsistent(info, rest.0[t]);
          assert 1 <= t < i && !DayConsistent(info, rest.0[t]);
        }
      } else {
        assert ReverseFrom(info, ts, i) == (next, false);
        assert 1 <= i - 1 < i && !DayConsistent(info, next[i - 1]);
      }
    }
  }

  /** The swaps of `correctify_solution` on `ts`: the forward pass, every table sorted by score, then the reverse pass. */
  ghost function Passes(info: PlayersInfo, ts: seq<seq<Name>>): (r: (seq<seq<Name>>, bool))
    requires AllKnown(info, ts)
    ensures AllKnown(info, r.0) && |r.0| == |ts|
  {
    ReverseFrom(info, SortAll(info, Forward(info, ts, if |ts| == 0 then 0 else |ts| - 1)), |ts|)
  }

  /**
   * The passes keep every table's size and all players; on success every
   * table after the first is day-consistent, on failure one of them is not.
   */
  lemma PassesFacts(info: PlayersInfo, ts: seq<seq<Name>>)
    requires AllKnown(info, ts)
    ensures Rearranged(ts, Passes(info, ts).0)
    ensures Passes(info, ts).1 ==> forall t :: 1 <= t < |ts| ==> DayConsistent(info, Passes(info, ts).0[t])
    ensures !Passes(info, ts).1 ==> exists t :: 1 <= t < |ts| && !DayConsistent(info, Passes(info, ts).0[t])
  {
    var f := Forward(info, ts, if |ts| == 0 then 0 else |ts| - 1);
    var sorted := SortAll(info, f);
    ForwardKeeps(info, ts, if |ts| == 0 then 0 else |ts| - 1);
    SortAllKeeps(info, f);
    ReverseFromKeeps(info, sorted, |ts|);
    ReverseFromOutcome(info, sorted, |ts|);
    RearrangedTrans(ts, f, sorted);
    RearrangedTrans(ts, sorted, Passes(info, ts).0);
  }

  /**
   * What `correctify_solution` does to the tables `ts`: the tables its
   * swaps leave, and whether every table then has a common day, which is
   * when it returns a solution.
   */
  ghost function Correctified(info: PlayersInfo, ts: seq<seq<Name>>): (r: (seq<seq<Name>>, bool))
    requires AllKnown(info, ts) && |ts| >= 1
    ensures AllKnown(info, r.0) && |r.0| == |ts|
    ensures r.1 <==> forall t :: 0 <= t < |ts| ==> DayConsistent(info, r.0[t])
  {
    var back := Passes(info, ts);
    PassesFacts(info, ts);
    AllConsistent(info, back.0, back.1);
    (back.0, back.1 && DayConsistent(info, back.0[0]))
  }

  /** The repair keeps every table's size and all players. */
  lemma CorrectifiedKeeps(info: PlayersInfo, ts: seq<seq<Name>>)
    requires AllKnown(info, ts) && |ts| >= 1
    ensures Rearranged(ts, Correctified(info, ts).0)
  {
    PassesFacts(info, ts);
  }

  /** The outcome of the reverse pass and a check of table 0 together decide every table. */
  lemma AllConsistent(info: PlayersInfo, s: seq<seq<Name>>, ok: bool)
    requires AllKnown(info, s) && |s| >= 1
    requires ok ==> forall t :: 1 <= t < |s| ==> DayConsistent(info, s[t])
    requires !ok ==> exists t :: 1 <= t < |s| && !DayConsistent(info, s[t])
    ensures ok && DayConsistent(info, s[0]) <==> forall t :: 0 <= t < |s| ==> DayConsistent(info, s[t])
  {
  }

  /**
   * `if not table_ok(tables[up]): seek_and_swap_players(up, down)`, the step
   * of both passes: the tables become `Repair` of the old ones (which only
   * exchanges players between tables `up` and `down`), and table `up` is
   * day-consistent afterwards exactly when the result holds.
   */
  method RepairTable(info: PlayersInfo, tables: array<seq<Name>>, up: nat, down: nat, reverse: bool)
    returns (ok: bool)
    requires up < tables.Length && down < tables.Length && up != down
    requires AllKnown(info, tables[..])
    modifies tables
    ensures tables[..] == Repair(info, old(tables[..]), up, down, reverse)
    ensures ok == DayConsistent(info, tables[up])
  {
    assert Known(info, tables[..][up]) && Known(info, tables[..][down]);
    ok := TableOk(info, tables[up]);
    if !ok {
      ghost var before := tables[..];
      ok := SeekAndSwap(info, up, down, tables, reverse);
      ghost var s := Seek(info, before[up], before[down], reverse);
      assert tables[..] == before[up := s.0][down := s.1];
    }
  }

  /**
   * The forward pass of `correctify_solution`, which is `Forward` of the old
   * tables; its outcome is ignored, as in the source.
   */
  method ForwardPass(info: PlayersInfo, tables: array<seq<Name>>)
    requires AllKnown(info, tables[..])
    modifies tables
    ensures tables[..] == Forward(info, old(tables[..]), if tables.Length == 0 then 0 else tables.Length - 1)
  {
    for i := 0 to if tables.Length == 0 then 0 else tables.Length - 1
      invariant AllKnown(info, tables[..])
      invariant tables[..] == Forward(info, old(tables[..]), i)
    {
      var _ := RepairTable(info, tables, i, i + 1, false);
    }
  }

  /** `table.sort(key=score, reverse=True)` for every table. */
  method SortTables(info: PlayersInfo, tables: array<seq<Name>>)
    requires AllKnown(info, tables[..])
    modifies tables
    ensures forall t :: 0 <= t < tables.Length ==> tables[t] == SortDesc(old(tables[t]), ScoreKey(info))
    ensures tables[..] == SortAll(info, old(tables[..]))
  {
    ghost var orig := tables[..];
    forall t | 0 <= t < tables.Length {
      tables[t] := SortDesc(tables[t], ScoreKey(info));
    }
    assert tables[..] == SortAll(info, orig);
  }

  lemma SortedTables(info: PlayersInfo, a: seq<seq<Name>>, b: seq<seq<Name>>)
    requires AllKnown(info, a) && |a| == |b|
    requires forall t :: 0 <= t < |a| ==> b[t] == SortDesc(a[t], ScoreKey(info))
    ensures AllKnown(info, b)
    ensures multiset(Flatten(b)) == multiset(Flatten(a))
  {
    forall t | 0 <= t < |a| ensures Known(info, b[t]) {
      KnownPermutation(info, a[t], b[t]);
    }
    FlattenPermuteEach(b, a);
  }

  /**
   * The reverse pass: from the last table down to table 1, a table that is
   * not day-consistent takes players from the table before it, and the
   * whole repair fails as soon as one cannot be fixed. The tables and the
   * outcome are `ReverseFrom` of the old tables, whose contract says what
   * the pass keeps and what success means.
   */
  method ReversePass(info: PlayersInfo, tables: array<seq<Name>>) returns (success: bool)
    requires AllKnown(info, tables[..])
    modifies tables
    ensures (tables[..], success) == ReverseFrom(info, old(tables[..]), tables.Length)
  {
    var i: nat := tables.Length;
    while i > 1
      invariant i <= tables.Length
      invariant AllKnown(info, tables[..])
      invariant ReverseFrom(info, tables[..], i) == ReverseFrom(info, old(tables[..]), tables.Length)
    {
      ghost var prev := tables[..];
      i := i - 1;
      var fixed := RepairTable(info, tables, i, i - 1, true);
      ReverseAdvance(info, prev, i + 1, tables[..]);
      if !fixed {
        return false;
      }
    }
    assert ReverseFrom(info, tables[..], i) == (tables[..], true);
    return true;
  }

  /** The swaps of `correctify_solution`: forward, sort every table, then in reverse, which is `Passes`. */
  method RepairPasses(info: PlayersInfo, tables: array<seq<Name>>) returns (success: bool)
    requires AllKnown(info, tables[..])
    modifies tables
    ensures (tables[..], success) == Passes(info, old(tables[..]))
  {
    ghost var t0 := tables[..];
    PassesUnfold(info, t0);
    ForwardPass(info, tables);
    SortTables(info, tables);
    success := ReversePass(info, tables);
  }

  lemma PassesUnfold(info: PlayersInfo, ts: seq<seq<Name>>)
    requires AllKnown(info, ts)
    ensures Passes(info, ts) == ReverseFrom(info, SortAll(info, Forward(info, ts, if |ts| == 0 then 0 else |ts| - 1)), |ts|)
  {
  }

  /**
   * `correctify_solution`: the two passes of swaps, then the solution, or
   * `None` when a table stays without a common day.
   */
  method CorrectifySolution(info: PlayersInfo, tables: array<seq<Name>>, coin: nat -> Day)
    returns (r: Option<Solution>)
    requires tables.Length >= 1 && AllKnown(info, tables[..])
    modifies tables
    ensures tables[..] == Correctified(info, old(tables[..])).0
    ensures r.Some? == Correctified(info, old(tables[..])).1
    ensures r.Some? ==> forall t :: 0 <= t < tables.Length ==> DayConsistent(info, tables[t])
    ensures r.Some? ==> r.value == Assignment(info, tables[..], tables.Length, coin)
    ensures r.None? <==> exists t :: 0 <= t < tables.Length && !DayConsistent(info, tables[t])
  {
    ghost var back := Passes(info, tables[..]);
    ghost var c := Correctified(info, tables[..]);
    assert c == (back.0, back.1 && DayConsistent(info, back.0[0]));
    var success := RepairPasses(info, tables);
    assert tables[..] == back.0 && success == back.1;
    if !success {
      return None;
    }
    var ok := TableOk(info, tables[0]);
    if !ok {
      assert !DayConsistent(info, tables[0]);
      return None;
    }
    var sol := BuildSolution(info, tables[..], coin);
    return Some(sol);
  }

  /** Tables whose concatenation repeats nobody share no player. */
  lemma DisjointTables(tables: seq<seq<Name>>, t: nat, u: nat, p: Name)
    requires Distinct(Flatten(tables)) && t < u < |tables| && p in tables[t]
    ensures p !in tables[u]
  {
    FlattenSplit(tables, u);
    FlattenMember(tables[..u], t, p);
    DistinctSplit(Flatten(tables[..u]) + tables[u], Flatten(tables[u + 1..]));
    DistinctSplit(Flatten(tables[..u]), tables[u]);
  }

  /** ... and no table repeats a player. */
  lemma DistinctTable(tables: seq<seq<Name>>, u: nat)
    requires Distinct(Flatten(tables)) && u < |tables|
    ensures Distinct(tables[u])
  {
    FlattenSplit(tables, u);
    DistinctSplit(Flatten(tables[..u]) + tables[u], Flatten(tables[u + 1..]));
    DistinctSplit(Flatten(tables[..u]), tables[u]);
  }

  /** With every player at one table, a player's entry is that table and its day. */
  lemma SeatedAt(info: PlayersInfo, tables: seq<seq<Name>>, coin: nat -> Day, t: nat, p: Name)
    requires AllKnown(info, tables) && Distinct(Flatten(tables))
    requires t < |tables| && p in tables[t]
    ensures p in Assignment(info, tables, |tables|, coin)
    ensures Assignment(info, tables, |tables|, coin)[p] == PA(DayOf(info, tables[t], coin(t)), t)
  {
    forall u | t < u < |tables| ensures p !in tables[u] {
      DisjointTables(tables, t, u, p);
    }
    AssignmentOf(info, tables, |tables|, coin, t, p);
  }

  /** Everyone in the solution sits at some table, which is their entry. */
  lemma SeatOf(info: PlayersInfo, tables: seq<seq<Name>>, coin: nat -> Day, p: Name) returns (t: nat)
    requires AllKnown(info, tables) && Distinct(Flatten(tables))
    requires p in Assignment(info, tables, |tables|, coin)
    ensures t < |tables| && p in tables[t]
    ensures Assignment(info, tables, |tables|, coin)[p] == PA(DayOf(info, tables[t], coin(t)), t)
  {
    AssignmentFrom(info, tables, |tables|, coin, p);
    t :| 0 <= t < |tables| && p in tables[t];
    SeatedAt(info, tables, coin, t, p);
  }

  /** Only players of the first `n` tables are in the solution built from them. */
  lemma {:induction false} AssignmentFrom(info: PlayersInfo, tables: seq<seq<Name>>, n: nat, coin: nat -> Day, p: Name)
    requires AllKnown(info, tables) && n <= |tables|
    requires p in Assignment(info, tables, n, coin)
    ensures exists t :: 0 <= t < n && p in tables[t]
  {
    if p !in tables[n - 1] {
      AssignmentFrom(info, tables, n - 1, coin, p);
    }
  }

  /** The solution puts at table index `t` exactly the players of table `t`. */
  lemma MembersAreTable(info: PlayersInfo, tables: seq<seq<Name>>, coin: nat -> Day, t: nat)
    requires AllKnown(info, tables) && Distinct(Flatten(tables)) && t < |tables|
    ensures Members(Assignment(info, tables, |tables|, coin), t) == set p | p in tables[t]
    ensures |Members(Assignment(info, tables, |tables|, coin), t)| == |tables[t]|
  {
    var sol := Assignment(info, tables, |tables|, coin);
    forall p | p in Members(sol, t) ensures p in tables[t] {
      var u := SeatOf(info, tables, coin, p);
    }
    forall p | p in tables[t] ensures p in Members(sol, t) {
      SeatedAt(info, tables, coin, t, p);
    }
    DistinctTable(tables, t);
    DistinctCard(tables[t]);
  }

  /** The day of a day-consistent table suits each of its players who can play at all. */
  lemma DayOfFits(info: PlayersInfo, s: seq<Name>, coin: Day, i: nat)
    requires Known(info, s) && DayConsistent(info, s) && i < |s| && Available(info, s[i])
    ensures DayOk(info[s[i]].daysOk, DayOf(info, s, coin))
  {
    FirstSingleMeaning(info, s);
    if SingleDay(info, s[i]).None? {
      assert |GetDays(info[s[i]].daysOk)| != 1;
    }
  }

  /**
   * Day-consistent tables of 4 to 6 players that seat every available
   * roster player exactly once give a solution the validator accepts.
   */
  lemma RepairedTablesPass(info: PlayersInfo, tables: seq<seq<Name>>, coin: nat -> Day)
    requires AllKnown(info, tables) && Distinct(Flatten(tables))
    requires forall t :: 0 <= t < |tables| ==> DayConsistent(info, tables[t]) && 4 <= |tables[t]| <= 6
    requires forall p :: p in info ==> p in Flatten(tables) && Available(info, p)
    ensures Checkable(info, Assignment(info, tables, |tables|, coin), None)
    ensures CheckCode(info, Assignment(info, tables, |tables|, coin), None) == 0
  {
    var sol := Assignment(info, tables, |tables|, coin);
    forall p | p in sol ensures p in info && DayOk(info[p].daysOk, sol[p].day) && 4 <= |Members(sol, sol[p].table)| <= 6 {
      var t := SeatOf(info, tables, coin, p);
      var i :| 0 <= i < |tables[t]| && tables[t][i] == p;
      DayOfFits(info, tables[t], coin(t), i);
      MembersAreTable(info, tables, coin, t);
    }
    forall p | p in info ensures p in sol {
      FlattenMemberInv(tables, p);
      var t :| 0 <= t < |tables| && p in tables[t];
      SeatedAt(info, tables, coin, t, p);
    }
    assert AllAssigned(info, sol) && DaysRespected(info, sol) && SizesInRange(sol);
  }

  /** Tables of 4 to 6 roster players that seat every roster player exactly once. */
  ghost predicate Seating(info: PlayersInfo, tables: seq<seq<Name>>)
  {
    && AllKnown(info, tables) && Distinct(Flatten(tables))
    && (forall t :: 0 <= t < |tables| ==> 4 <= |tables[t]| <= 6)
    && (forall p :: p in info ==> p in multiset(Flatten(tables)))
  }

  /** Exchanges and reorderings that keep every table's size keep a seating a seating. */
  lemma SeatingKept(info: PlayersInfo, a: seq<seq<Name>>, b: seq<seq<Name>>)
    requires Seating(info, a) && AllKnown(info, b) && |a| == |b|
    requires forall t :: 0 <= t < |a| ==> |b[t]| == |a[t]|
    requires multiset(Flatten(b)) == multiset(Flatten(a))
    ensures Seating(info, b)
  {
    DistinctPermutation(Flatten(a), Flatten(b));
  }

  /** The greedy tables are a seating. */
  lemma GroupedTablesShape(info: PlayersInfo, names: seq<Name>, shuffle: seq<Name> -> seq<Name>)
    requires KeyOrder(names, info) && IsShuffle(shuffle) && !Unsplittable(|names|)
    ensures var tables := SlicesFrom(ScoreOrder(info, names, shuffle), CutSizes(|names|), 0);
      && |tables| >= 1 && |tables| == |CutSizes(|names|)|
      && (forall t :: 0 <= t < |tables| ==> |tables[t]| == CutSizes(|names|)[t])
    ensures Seating(info, SlicesFrom(ScoreOrder(info, names, shuffle), CutSizes(|names|), 0))
  {
    var order := ScoreOrder(info, names, shuffle);
    var tables := SlicesFrom(order, CutSizes(|names|), 0);
    GroupPlayersShape(info, names, shuffle);
    ScoreOrderPermutation(info, names, shuffle);
    DistinctPermutation(names, order);
    forall t | 0 <= t < |tables| ensures Known(info, tables[t]) {
      forall i | 0 <= i < |tables[t]| ensures tables[t][i] in info {
        FlattenMember(tables, t, tables[t][i]);
        assert tables[t][i] in multiset(names);
      }
    }
    forall p | p in info ensures p in multiset(Flatten(tables)) {
      assert p in multiset(names);
    }
  }

  /** The greedy tables `group_players` returns when the head count can be split. */
  ghost function Greedy(info: PlayersInfo, names: seq<Name>, shuffle: seq<Name> -> seq<Name>): (g: seq<seq<Name>>)
    requires KeyOrder(names, info) && IsShuffle(shuffle) && !Unsplittable(|names|)
    ensures |g| >= 1 && Seating(info, g)
  {
    GroupedTablesShape(info, names, shuffle);
    SlicesFrom(ScoreOrder(info, names, shuffle), CutSizes(|names|), 0)
  }

  /**
   * `correctify_solution` on a seating of available players. `fixed` is the
   * seating the repair leaves; there is a solution exactly when each of its
   * tables has a common day, and any solution passes the validator.
   */
  method CorrectifySeating(info: PlayersInfo, g: seq<seq<Name>>, coin: nat -> Day)
    returns (r: Option<Solution>, ghost fixed: seq<seq<Name>>)
    requires |g| >= 1 && Seating(info, g)
    requires forall p :: p in info ==> Available(info, p)
    ensures |fixed| == |g| && (forall t :: 0 <= t < |g| ==> |fixed[t]| == |g[t]|) && Seating(info, fixed)
    ensures r.None? <==> exists t :: 0 <= t < |fixed| && !DayConsistent(info, fixed[t])
    ensures r.Some? ==> Checkable(info, r.value, None) && CheckCode(info, r.value, None) == 0
    ensures fixed == Correctified(info, g).0
    ensures r.Some? ==> r.value == Assignment(info, fixed, |fixed|, coin)
  {
    r, fixed := CorrectifyCopy(info, g, coin);
    SeatingKept(info, g, fixed);
    if r.Some? {
      RepairedSeatingPasses(info, g, fixed, coin);
    }
  }

  /** `correctify_solution` on a fresh list of the tables `g`; `fixed` is that list afterwards. */
  method CorrectifyCopy(info: PlayersInfo, g: seq<seq<Name>>, coin: nat -> Day)
    returns (r: Option<Solution>, ghost fixed: seq<seq<Name>>)
    requires |g| >= 1 && AllKnown(info, g)
    ensures AllKnown(info, fixed) && |fixed| == |g| && (forall t :: 0 <= t < |g| ==> |fixed[t]| == |g[t]|)
    ensures multiset(Flatten(fixed)) == multiset(Flatten(g))
    ensures r.None? <==> exists t :: 0 <= t < |fixed| && !DayConsistent(info, fixed[t])
    ensures r.Some? ==> forall t :: 0 <= t < |fixed| ==> DayConsistent(info, fixed[t])
    ensures r.Some? ==> r.value == Assignment(info, fixed, |fixed|, coin)
    ensures fixed == Correctified(info, g).0
  {
    var tables := new seq<Name>[|g|](i requires 0 <= i < |g| => g[i]);
    assert tables[..] == g;
    r := CorrectifySolution(info, tables, coin);
    fixed := tables[..];
    CorrectifiedKeeps(info, g);
  }

  /** A seating repaired into day-consistent tables gives a solution the validator accepts. */
  lemma RepairedSeatingPasses(info: PlayersInfo, g: seq<seq<Name>>, fixed: seq<seq<Name>>, coin: nat -> Day)
    requires Seating(info, g) && AllKnown(info, fixed) && |fixed| == |g|
    requires forall t :: 0 <= t < |g| ==> |fixed[t]| == |g[t]|
    requires multiset(Flatten(fixed)) == multiset(Flatten(g))
    requires forall t :: 0 <= t < |fixed| ==> DayConsistent(info, fixed[t])
    requires forall p :: p in info ==> Available(info, p)
    ensures Checkable(info, Assignment(info, fixed, |fixed|, coin), None)
    ensures CheckCode(info, Assignment(info, fixed, |fixed|, coin), None) == 0
  {
    SeatingKept(info, g, fixed);
    forall p | p in info ensures p in Flatten(fixed) {
      assert p in multiset(Flatten(fixed));
    }
    RepairedTablesPass(info, fixed, coin);
  }

  /**
   * `group_and_swap_solution`: greedy tables, then repair. `fixed` is the
   * seating the repair leaves, table by table of the greedy sizes; there is
   * no solution exactly when the head count cannot be split or a repaired
   * table has no common day. Whenever it returns a solution, the validator
   * accepts it (without a rank bound).
   */
  method GroupAndSwap(info: PlayersInfo, names: seq<Name>, shuffle: seq<Name> -> seq<Name>, coin: nat -> Day)
    returns (r: Option<Solution>, ghost fixed: seq<seq<Name>>)
    requires KeyOrder(names, info) && IsShuffle(shuffle)
    requires forall p :: p in info ==> Available(info, p)
    ensures Unsplittable(|names|) ==> r.None?
    ensures !Unsplittable(|names|) ==>
      && Seating(info, fixed) && |fixed| == |CutSizes(|names|)|
      && (forall t :: 0 <= t < |fixed| ==> |fixed[t]| == CutSizes(|names|)[t])
      && (r.None? <==> exists t :: 0 <= t < |fixed| && !DayConsistent(info, fixed[t]))
    ensures !Unsplittable(|names|) ==> fixed == Correctified(info, Greedy(info, names, shuffle)).0
    ensures r.Some? ==> Checkable(info, r.value, None) && CheckCode(info, r.value, None) == 0
    ensures r.Some? ==> r.value == Assignment(info, fixed, |fixed|, coin)
  {
    var grouped := GroupPlayers(info, names, shuffle);
    if grouped.None? {
      return None, [];
    }
    GroupedTablesShape(info, names, shuffle);
    assert grouped.value == Greedy(info, names, shuffle);
    r, fixed := CorrectifySeating(info, grouped.value, coin);
    SameSizes(fixed, grouped.value, CutSizes(|names|));
  }

  lemma SameSizes(a: seq<seq<Name>>, b: seq<seq<Name>>, sizes: seq<int>)
    requires |a| == |b| == |sizes|
    requires forall t :: 0 <= t < |a| ==> |a[t]| == |b[t]|
    requires forall t :: 0 <= t < |b| ==> |b[t]| == sizes[t]
    ensures forall t :: 0 <= t < |a| ==> |a[t]| == sizes[t]
  {
  }
}
