# Matchmaking, score announcing and league days in Dafny

This project models three small Python programs for organising a league of
table games.

- **`matchmaking.py`** seats a roster of players at tables of four to six for
  one of two days. Each player has a score and says which of the two days
  they can come. The program:
  - derives a rank from each score;
  - checks a proposed seating (`_check_solution`);
  - splits a head count into table sizes (`cut_by_four`);
  - groups players by descending score (`partial_sort_score`, `group_players`);
  - repairs tables whose members cannot agree on a day by swapping players
    between neighbouring tables (`seek_and_swap_players`, `correctify_solution`);
  - as an alternative, tries every way of sending the players who are free on
    both days to one day or the other, and keeps the best-scoring groupings
    (`to_bool_list`, `create_tables_fixed_days`, `exhaustive_search`).
- **`scoreAnnouncer.py`** reads a tab-separated score sheet with a line
  cursor (`LineReader`). It splits the sheet into tables, each a header line
  followed by player lines, and orders each table's entries by gain, best first.
- **`leagueDays.py`** inverts a player → possible-days roster into
  day → players. It then scores every pair of days by how many players can
  make at least one of them.

Randomness is passed in as parameters:
- `shuffle` stands for `rng.shuffle`; it must return a permutation.
- `coin` stands for `rng.randint(0, 1)`.
- `pick` stands for `rng.choice`.

The tables' `(score, subscore)` quality is a parameter `score` returning a
pair of reals, compared lexicographically. Float parsing in the score
announcer is a parameter `parse` that gives `None` where `float()` raises.

The modules follow the programs:

| module | file | models |
|---|---|---|
| `Wrappers` | wrappers.dfy | `Option` |
| `ListOps` | list_ops.dfy | `remove_all`, list reversal, Python's stable sort, flattening |
| `Players` | players.dfy | `PlayerInfo`, `PlayerAssign`, `get_rank`, `get_days` |
| `Validator` | validator.dfy | `_check_solution`, `check_solution`, `test_check_solution` |
| `Partition` | partition.dfy | `cut_by_four` |
| `DayDeduction` | day_deduction.dfy | `deduce_day`, `table_ok` |
| `Grouping` | grouping.dfy | `partial_sort_score`, `group_players` |
| `SwapRepair` | swap_repair.dfy | `seek_and_swap_players`, `correctify_solution`, `group_and_swap_solution` |
| `Exhaustive` | exhaustive.dfy | `to_bool_list`, `create_tables_fixed_days`, `exhaustive_search` |
| `ScoreEntries` | score_entries.dfy | `ScoreEntry`, `sort_entries` |
| `ScoreAnnouncer` | score_announcer.dfy | `LineReader`, `get_header`, `ordinal_position`, `process_table`, the main loop |
| `LeagueDays` | league_days.dfy | `gen_day_infos`, `choice_from_day_infos` |

Python dictionaries are modelled as a Dafny `map` plus, where the program
depends on the iteration order, a sequence of keys in insertion order:
- `names` for the roster;
- `order` for the league roster;
- `days` for the day dictionary.

Tables are `seq<Name>`. The list of tables that `correctify_solution` mutates
is an `array<seq<Name>>`. `cut_by_four`'s list is an `array<int>`, and
`sort_entries` sorts an `array<ScoreEntry>` in place.

## Model

| member | source | states |
|---|---|---|
| Players.Rank | matchmaking.py:31-43 | the rank is in 0..4; a rank above 0 means the score reached the threshold of that rank (10, 20, 35, 50); a rank below 4 means the score is under the next threshold |
| Players.RankCountsThresholds | matchmaking.py:34-43 | the rank equals the number of thresholds 10, 20, 35, 50 that the score has reached |
| Players.RankMonotone | matchmaking.py:31-43 | a higher score never gives a lower rank |
| Players.GetDays | matchmaking.py:203-204 | the days listed are exactly the available days, in increasing order |
| Players.SingleDay | matchmaking.py:229-230 | a player's single day is available and the other day is not; there is none exactly when both days or neither are available |
| Players.SingleDayDays | matchmaking.py:229-230 | a player has a single day exactly when `get_days` lists one day, and it is the day listed |
| ListOps.RemoveAll | matchmaking.py:55-62 | after the loop the list is the input with every occurrence of `x` dropped and the other elements kept in order |
| ListOps.WithoutMultiset | matchmaking.py:55-62 | removing every `x` keeps the count of every other element and sets the count of `x` to zero |
| ListOps.RemoveFirstMultiset | matchmaking.py:60 | `list.remove` drops exactly one occurrence |
| ListOps.SortDesc | matchmaking.py:298 | the stable descending sort is a permutation of its input whose keys are non-increasing |
| ListOps.SortDescOfSorted | matchmaking.py:298 | sorting a list that is already in descending order leaves it unchanged |
| ListOps.InsertDescWithKey | matchmaking.py:298 | inserting an element puts it in front of every element of its own key and keeps the order of every key's elements |
| ListOps.SortDescStable | matchmaking.py:298 | the sort is stable: for every key, the elements with that key keep their relative order |
| ListOps.Reversed | matchmaking.py:349 | the reversed list has the same length, and position `i` holds the input's position `len - 1 - i` |
| ListOps.DistinctPermutation | matchmaking.py:291-317 | a permutation of a list without duplicates has no duplicates |
| Validator.CheckAllAssigned | matchmaking.py:92-94 | check 1 passes exactly when every roster player has an assignment |
| Validator.CheckDays | matchmaking.py:97-101 | check 2 passes exactly when every assigned player is available on the assigned day |
| Validator.CountTableSizes | matchmaking.py:104-109 | every table index that occurs is counted, and its count is the number of players assigned to it |
| Validator.CheckSizes | matchmaking.py:104-112 | check 3 passes exactly when every table index has between 4 and 6 players |
| Validator.RankRanges | matchmaking.py:116-128 | every player's rank lies in the recorded range of its group, and both ends of each range are the rank of some player of that group |
| Validator.CheckSpread | matchmaking.py:115-134 | check 4 passes exactly when no group's rank range is wider than `rankDiff` |
| Validator.CheckGrouped | matchmaking.py:90-139 | the code is that of the first failing check, in the order -1, -2, -3, -4, else 0, with the rank spread taken per chosen grouping |
| Validator.CheckSolutionCode | matchmaking.py:90-139 | the code is one of 0, -1, -2, -3, -4, and 0 exactly when all players are seated, days are respected, sizes are 4..6 and (if `rankDiff` is given) the spread holds when players are grouped by their day field |
| Validator.CheckSolution | matchmaking.py:142-143 | `check_solution` holds exactly when `_check_solution` returns 0 |
| Validator.CheckSolutionByTable | matchmaking.py:114-134 | the corrected validator: valid exactly when the four checks pass, with the rank spread taken per table index |
| Validator.DayGroupingStricter | matchmaking.py:116-133 | when every table meets on a single day, a spread within bound per day implies a spread within bound per table |
| Validator.CheckSuccess | matchmaking.py:147-150 | the first example of `test_check_solution` returns 0 |
| Validator.CheckMissing | matchmaking.py:152-153 | the second example of `test_check_solution` returns -1 |
| Validator.CheckWrongDay | matchmaking.py:155-156 | the third example of `test_check_solution` returns -2 |
| Validator.CheckSmallTable | matchmaking.py:158-160 | the fourth example of `test_check_solution` returns -3 |
| Validator.CheckRankSpread | matchmaking.py:162-164 | the fifth example of `test_check_solution` returns -4 |
| Validator.RankCheckGroupsByDay | matchmaking.py:118 | two valid tables with ranks 0 and 1 on the same day are rejected with -4 at `rankDiff` 0, because the ranges are grouped by day |
| Validator.RankCheckByTable | matchmaking.py:114-134 | the same seating passes the corrected per-table check |
| Partition.CutSizes | matchmaking.py:189-199 | for a splittable count, `n / 4` table sizes, each between 4 and 6 |
| Partition.MoveRemainder | matchmaking.py:193-196 | one pass of the inner loop moves the remainder one unit at a time onto the first cells, all indices in bounds |
| Partition.CutByFour | matchmaking.py:185-200 | `None` exactly for 0, 1, 2, 3 and 7; otherwise the sizes `CutSizes(n)` |
| Partition.CutSizesSum | matchmaking.py:185-200 | the sizes add up to `n` |
| Partition.CutSizesNonIncreasing | matchmaking.py:185-200 | the sizes are in non-increasing order |
| Partition.UnsplittableIffNoPartition | matchmaking.py:187 | the excluded counts 0, 1, 2, 3, 7 are exactly those with no split into parts of 4 to 6 |
| Partition.CutEleven | matchmaking.py:184-199 | 11 players give tables of 6 and 5 |
| Partition.CutMultipleOfFour | matchmaking.py:189-192 | a positive multiple of 4 gives all tables of 4 |
| DayDeduction.DeduceDay | matchmaking.py:226-237 | `None` exactly when two single-day members need different days; otherwise every single-day member's day, or the coin when there is none |
| DayDeduction.TableOk | matchmaking.py:240-241 | a table is OK exactly when its single-day members agree |
| DayDeduction.ConsistentIffNoDissent | matchmaking.py:226-241 | a table is consistent exactly when its count of members that dissent from the first single-day member is zero |
| DayDeduction.SwapLowersDissent | matchmaking.py:259-281 | replacing a dissenting member by a player not bound to the dissenting day lowers the dissent count |
| Grouping.CollectBuckets | matchmaking.py:209-214 | a bucket exists for each distinct score, and each holds that score's players in roster order |
| Grouping.PartialSortScore | matchmaking.py:208-223 | the result is the shuffled buckets joined in descending score order |
| Grouping.ShuffleEach | matchmaking.py:215-216 | every score's list is replaced by its shuffle, and the set of scores is unchanged |
| Grouping.JoinBlocks | matchmaking.py:218-220 | the lists are joined in the given order of scores |
| Grouping.ScoreOrderPermutation | matchmaking.py:208-223 | the ordering is a permutation of the roster |
| Grouping.ScoreOrderSorted | matchmaking.py:216-221 | the ordering has non-increasing scores |
| Grouping.CutTables | matchmaking.py:327-330 | the tables are consecutive slices of the ordering with the given sizes |
| Grouping.GroupPlayers | matchmaking.py:320-331 | `None` exactly when `cut_by_four` fails; otherwise the ordering cut into slices of the `cut_by_four` sizes |
| Grouping.GroupPlayersShape | matchmaking.py:320-331 | the tables joined give back the score ordering; there are `n / 4` tables, each of 4 to 6 players, in non-increasing size |
| SwapRepair.FirstDissent | matchmaking.py:259-268 | the index is the first member, from the given one on, that is bound to one day and disagrees with the first single-day member before it; it is the table's length when there is none |
| SwapRepair.DissentFound | matchmaking.py:269 | on a table without a common day the first dissenter exists, which is the source's `assert(upIdPlayer is not None)` |
| SwapRepair.DissentDay | matchmaking.py:266-268 | the day `upIdPlayerDay` is the single day of the first dissenter |
| SwapRepair.FindDissenter | matchmaking.py:259-269 | on an inconsistent table the scan finds a single-day member whose day differs from the first single-day member's, and no member before it is bound to that day; it returns exactly `FirstDissent` and `DissentDay` |
| SwapRepair.FirstEligible | matchmaking.py:272-283 | the index is the first member, from the given one on, who is flexible or bound to a day other than the given one; there is none exactly when no member from there on qualifies |
| SwapRepair.LastEligible | matchmaking.py:272-283 | the scan of `reversed(list(...))`: the last qualifying member among the first `n`, none exactly when none of them qualifies |
| SwapRepair.FindPartner | matchmaking.py:272-283 | the partner found is flexible or bound to the other day, and it is the first such member in scan order (from the end when `reverse`); none found means no member qualifies; the result is `PartnerOf` the table |
| SwapRepair.RoundStep | matchmaking.py:256-283 | one round of the loop on two tables: there is no swap exactly when no member of the down table is eligible for the day of the up table's first dissenter; a swap keeps both tables' sizes and players and lowers the up table's dissent count |
| SwapRepair.RoundFacts | matchmaking.py:280-281 | exchanging the first dissenter with an eligible member keeps the two tables' players and lowers the dissent count |
| SwapRepair.SwapRound | matchmaking.py:256-283 | the round exchanges exactly the first dissenter of the up table with the first eligible member of the down table (the last when `reverse`), or changes nothing when no member is eligible; a swap lowers the up table's dissent count, other tables are unchanged, and the two tables become `RoundStep` of the old ones |
| SwapRepair.Seek | matchmaking.py:251-285 | the loop on two tables ends, since each round lowers the dissent count; it keeps both tables' sizes and players, and it stops with the up table consistent or with no member of the down table eligible for the day of the up table's first dissenter |
| SwapRepair.SeekAndSwap | matchmaking.py:251-285 | the two tables become `Seek` of the old ones and all other tables are unchanged; it returns whether the up table is consistent, and when it is not, no member of the down table is eligible for the day of its first dissenter |
| SwapRepair.ExchangeKeepsPlayers | matchmaking.py:280-281 | exchanging members between two tables keeps the multiset of all seated players |
| SwapRepair.RepairKeeps | matchmaking.py:293-294 | `Repair`, the step of both passes (also lines 302-303), changes only the up and down tables; every table keeps its size and all players are kept |
| SwapRepair.RepairTable | matchmaking.py:293-294 | the tables become `Repair` of the old ones (the same step at lines 302-303), and the result says whether the up table is then consistent |
| SwapRepair.ForwardKeeps | matchmaking.py:292-294 | `Forward`, the first `k` steps of the forward pass, keeps every table's size and all players (by induction on `k`) |
| SwapRepair.ForwardPass | matchmaking.py:292-294 | the tables become `Forward` of the old ones over all `len(tables) - 1` steps |
| SwapRepair.SortAllKeeps | matchmaking.py:297-298 | `SortAll`, every table sorted by score, keeps each table's size and players, and each table then has non-increasing scores |
| SwapRepair.SortTables | matchmaking.py:297-298 | each table becomes its stable sort by descending score, which is `SortAll` of the old tables |
| SwapRepair.ReverseFromKeeps | matchmaking.py:301-305 | `ReverseFrom`, the reverse pass from a given table down to table 1, keeps sizes and players and leaves later tables alone (by induction) |
| SwapRepair.ReverseFromOutcome | matchmaking.py:301-305 | on success of `ReverseFrom` the tables from 1 up to the starting table are consistent; on failure one of them is not (by induction) |
| SwapRepair.ReversePass | matchmaking.py:301-305 | the tables and the outcome are `ReverseFrom` of the old tables, from the last table |
| SwapRepair.PassesFacts | matchmaking.py:292-305 | `Passes` (forward pass, sort, reverse pass) keeps sizes and players; success means every table after the first is consistent, failure that one of them is not |
| SwapRepair.RepairPasses | matchmaking.py:292-305 | the tables and the outcome are `Passes` of the old tables |
| SwapRepair.Correctified | matchmaking.py:291-307 | `correctify_solution` yields a solution exactly when every table it leaves is consistent |
| SwapRepair.CorrectifiedKeeps | matchmaking.py:291-307 | the tables `correctify_solution` leaves keep their sizes and all players |
| SwapRepair.BuildSolution | matchmaking.py:310-315 | each player is assigned the deduced day of its table and the table index |
| SwapRepair.TableDay | matchmaking.py:312-313 | on a consistent table `deduce_day` gives a day, the table's deduced day |
| SwapRepair.SeatAll | matchmaking.py:314-315 | the inner loop gives every player of the table the same entry, over the solution built so far |
| SwapRepair.CorrectifySolution | matchmaking.py:291-317 | the tables become `Correctified` of the old ones; the result is `None` exactly when some table ends without a common day, and otherwise it is the per-table assignment |
| SwapRepair.MembersAreTable | matchmaking.py:310-315 | table index `t` of the solution has exactly the members of table `t`, so the count per index is the table's length |
| SwapRepair.DayOfFits | matchmaking.py:312-315 | every member of a consistent table is available on the deduced day |
| SwapRepair.RepairedTablesPass | matchmaking.py:310-317 | consistent tables of 4 to 6 distinct players covering a roster of available players give a solution that `_check_solution` without a rank bound accepts with code 0 |
| SwapRepair.CorrectifyCopy | matchmaking.py:291-317 | on a fresh list of the given tables, the list afterwards is `Correctified` of them; there is a solution exactly when each table is consistent, and it is the per-table assignment |
| SwapRepair.CorrectifySeating | matchmaking.py:291-317 | the repaired tables are `Correctified` of the input and a seating of the roster with the same table sizes; there is a solution exactly when each is consistent; the solution is the per-table assignment of the repaired tables, and it passes `_check_solution` |
| SwapRepair.Greedy | matchmaking.py:320-331 | the greedy tables are a seating of at least one table |
| SwapRepair.GroupAndSwap | matchmaking.py:334-338 | it fails exactly when the head count cannot be split or a repaired table, of the `cut_by_four` sizes, has no common day; the repaired tables are `Correctified` of the greedy tables; the solution is the per-table assignment of the repaired tables, and it passes `_check_solution` |
| Exhaustive.ToBoolList | matchmaking.py:341-350 | the result is the binary digits of `n`, most significant first, padded with `False` to `size`, and it reads back as `n` |
| Exhaustive.BoolListValue | matchmaking.py:341-350 | the digits read back as `n` |
| Exhaustive.BoolListShape | matchmaking.py:347-349 | for `n < 2^size` the list has exactly `size` entries, the padding being leading `False`s |
| Exhaustive.WithDaysCount | matchmaking.py:387-392 | each availability filter keeps exactly the players with that availability |
| Exhaustive.SentToPartition | matchmaking.py:405-409 | the flexible players are split between the two days without loss or duplication |
| Exhaustive.SentToDecision | matchmaking.py:405-409 | each flexible player goes to the day its decision bit selects and not to the other |
| Exhaustive.SplitFlexible | matchmaking.py:403-409 | each day's list is its fixed players followed by the flexible players sent to it |
| Exhaustive.CreateTablesFixedDays | matchmaking.py:353-369 | `None` when a non-empty day cannot be grouped; otherwise the first day's tables followed by the second's |
| Exhaustive.FixedDayTablesShape | matchmaking.py:353-369 | the tables hold exactly the two days' players, each table consistent and of 4 to 6 players |
| Exhaustive.SidesCover | matchmaking.py:402-409 | every available player lands on one of the two days |
| Exhaustive.AttemptValid | matchmaking.py:402-411 | every candidate grouping has consistent tables of 4 to 6 distinct players covering the roster |
| Exhaustive.KeepBestStep | matchmaking.py:412-418 | a strictly better candidate restarts the list of best candidates, an equal one is appended, and a worse one is ignored |
| Exhaustive.TryCounter | matchmaking.py:402-411 | the grouping tried for one counter value is the candidate of that value |
| Exhaustive.BestTables | matchmaking.py:393-418 | after all `2^k` counter values the kept list is empty exactly when no candidate exists; otherwise it is every candidate tying the best score, and no candidate scores higher |
| Exhaustive.Search | matchmaking.py:393-434 | no solution exactly when no candidate exists; otherwise the solution seats a best-scoring candidate, and it passes `_check_solution` |
| Exhaustive.ExhaustiveSearch | matchmaking.py:385-434 | with flexible players it behaves as `Search`: no solution exactly when no candidate exists, otherwise the seating of a best-scoring candidate, which passes `_check_solution`; without them it never yields a seating, ending in no solution exactly when the fixed grouping fails |
| Exhaustive.OneDayRosterFits | matchmaking.py:387-388 | the eight-player roster lists each name once and has everyone free on the first day (index 0) only |
| Exhaustive.DayOneEightMalformed | matchmaking.py:394-401 | for eight players all free only on the first day (index 0) there is exactly one candidate grouping, of two tables (so scoring it does not raise), yet nobody is flexible, so the search as written takes the broken shortcut |
| ScoreEntries.SortEntries | scoreAnnouncer.py:46-47 | the entries are a permutation of the input with non-increasing gain |
| ScoreEntries.SortEntriesStable | scoreAnnouncer.py:46-47 | entries of equal gain keep their relative order, as `list.sort` guarantees |
| ScoreEntries.InsertPlace | scoreAnnouncer.py:47 | inserting an entry into a list goes just after the entries with strictly higher gain, before the first one not above it, so ties keep their input order |
| ScoreEntries.ShiftHigher | scoreAnnouncer.py:47 | the entries after position `i` with strictly higher gain than the entry being placed each move down one cell, the scan stops at the first one not above it, and the entry is written into the cell left free; nothing else changes |
| ScoreEntries.InsertEntry | scoreAnnouncer.py:47 | the entries before `i` are unchanged, and from `i` on the array holds entry `i` inserted by descending gain into the old tail after it |
| ScoreEntries.SortEntriesInPlace | scoreAnnouncer.py:46-47 | the array's new contents are the stable sort by gain of the old ones |
| ScoreEntries.SortList | scoreAnnouncer.py:92 | sorting a table's list gives its stable sort by gain |
| ScoreAnnouncer.LineReader.constructor | scoreAnnouncer.py:9-11 | the reader starts at index 0 over the given lines |
| ScoreAnnouncer.LineReader.Peek | scoreAnnouncer.py:13-17 | no state changes; `None` exactly at the end, otherwise the current line |
| ScoreAnnouncer.LineReader.Consume | scoreAnnouncer.py:19-22 | only allowed before the end; it returns the current line and advances the index by one |
| ScoreAnnouncer.GetHeader | scoreAnnouncer.py:41-43 | one line is consumed and its text before the first tab is returned |
| ScoreAnnouncer.JoinSplit | scoreAnnouncer.py:43 | rejoining the fields of `split('\t')` with tabs gives back the line |
| ScoreAnnouncer.SplitJoin | scoreAnnouncer.py:84 | splitting tab-joined fields that contain no tab gives back the fields |
| ScoreAnnouncer.FirstField | scoreAnnouncer.py:43 | the first field is a prefix of the line, ended by a tab when shorter than the line |
| ScoreAnnouncer.MakeEntry | scoreAnnouncer.py:29-38 | an entry is built exactly when there are seven fields and the four numeric ones parse; it carries the player, the character and the parsed gain |
| ScoreAnnouncer.RunEndMeaning | scoreAnnouncer.py:84-86 | no line before the end of a run of player lines is a header, and the line that ends it, if any, is one |
| ScoreAnnouncer.StopMeaning | scoreAnnouncer.py:80-91 | every line the loop consumes is a player line with an entry, and the line it stops at, if any, is a header or has no entry |
| ScoreAnnouncer.StopRunEnd | scoreAnnouncer.py:80-91 | the loop stops no later than the next header, and reaches it exactly when every line before it has an entry |
| ScoreAnnouncer.TableAtMeaning | scoreAnnouncer.py:77-91 | a table is read exactly when every player line up to the next header has an entry; it then ends at that header, has one entry per player line and is named by the header's first field; otherwise it stops at the bad line |
| ScoreAnnouncer.ReadEntries | scoreAnnouncer.py:80-91 | the loop consumes the player lines with entries, stops at the end, the next header or a bad line, and collects one entry per line consumed |
| ScoreAnnouncer.ProcessTable | scoreAnnouncer.py:77-93 | the table read and the new index are those of the reference reading `TableAt` |
| ScoreAnnouncer.OrdinalPosition | scoreAnnouncer.py:50-54 | defined for 1..6 only; the digit followed by "st", "nd", "rd" or "th" |
| ScoreAnnouncer.OrdinalInjective | scoreAnnouncer.py:53-54 | different places get different ordinals |
| ScoreAnnouncer.Announce | scoreAnnouncer.py:96-100 | the loop terminates, and its tables are those of the reference reading `Tables` |
| ScoreAnnouncer.TablesCover | scoreAnnouncer.py:99-100 | a sheet read to its end is covered exactly: one header plus one line per entry for every table |
| ScoreAnnouncer.TablesNamed | scoreAnnouncer.py:85 | when the sheet starts at a header, every table after the first also starts at a header, so every name starts with "Table" |
| LeagueDays.GenDayInfos | leagueDays.py:42-51 | a player is in a day's set exactly when the roster lists that day for them; every set is non-empty, and the key order lists each day once |
| LeagueDays.DayInfosOnRoster | leagueDays.py:42-51 | every day's players come from the roster |
| LeagueDays.UnreachableOnNoDay | leagueDays.py:45-46 | a player whose entry is `None` is in no day's set |
| LeagueDays.DayInfosMeaning | leagueDays.py:42-51 | a day's set is exactly its players, and a day is absent exactly when nobody can play on it |
| LeagueDays.ChoiceFromDayInfos | leagueDays.py:55-67 | the keys are exactly the pairs of known days `d1 < d2`; each score is the size of the union of the two days' sets, and the players who cannot make it are the rest of the roster |
| LeagueDays.UnionBounds | leagueDays.py:62-66 | a pair's score is at least each day's count and at most the roster size |
| LeagueDays.CanCannotPartition | leagueDays.py:62-63 | the players who can and those who cannot make a choice are disjoint and make up the roster |
| LeagueDays.LeagueScores | leagueDays.py:69-70 | over the roster, each pair of days somebody can play on gets the number of players free on either day; this is between each day's count and the roster size, and with those who cannot it makes up the roster |

## Left out

- Console and file I/O is not modelled:
  - argument parsing and file reading;
  - `parse_file` (matchmaking.py:64-79), including its skipping of players with no day;
  - `print_solution` and the script body of `matchmaking.py`;
  - `print_table` (scoreAnnouncer.py:57-74), together with its assertion that the new score equals score plus gains (a float equality) and its `ordinal_position` call that fails for tables of more than six entries;
  - every `print` in `leagueDays.py`.
- The `@timeout(30)` decorator and the `TimeoutError` handling are not modelled. They are signal-based wall-clock limits, and the `timeout` module is not part of this model.
- `get_tables_score` (matchmaking.py:372-381) is not modelled. It uses floating-point `mean` and `stdev` and raises `StatisticsError` on a grouping of fewer than two tables; it is replaced by the `score` parameter, which is total, so the searches also score groupings of zero or one table where the source raises.
- Grouping.PartialSortScore: one `shuffle` function stands for every `rng.shuffle` call, so a bucket holding the same players is permuted the same way in every `group_players` call and for every counter value of `exhaustive_search`. The source's successive calls (matchmaking.py:215-216, reached from lines 358 and 364) may permute it differently, so the model covers fewer outcomes than the source.
- Exhaustive.ToBoolList: `int(n/2)` (matchmaking.py:346) is floating-point division, exact only for `n` below 2^53 and raising `OverflowError` beyond about 2^1024; the model halves with integer division. The 30-second timeout keeps `exhaustive_search`'s counters far below 2^53, but the model, which leaves the timeout out, also covers larger counters.
- Exhaustive.ExhaustiveSearch: `Malformed` stands for every way the shortcut taken when nobody is free on both days can end. With no table or one table, `get_tables_score` raises `StatisticsError` (matchmaking.py:380). With two or more tables, `rng.choice` draws one table and `deduce_day` walks the letters of a name; that raises `KeyError`, or, when the letters are themselves roster names, gives a wrong seating without failing. The model does not tell these apart.
- The pseudo-random generator and its seeding are not modelled. `rng.shuffle`, `rng.randint` and `rng.choice` are the parameters `shuffle`, `coin` and `pick`.
- `compute_solution` (matchmaking.py:437-459) is not modelled. It is print and exception glue that runs the two solvers, retrying `group_and_swap_solution` up to 100 times; each solver is modelled on its own.
- The hard-coded roster of `leagueDays.py` (lines 8-39) is not modelled; the roster is a parameter.
- Python's `float()` is not modelled; it is the `parse` parameter. `ScoreEntry` fields are kept as strings and reals.
- A non-numeric field or a short player line is not modelled as an exception. `process_table` raises there, which ends the program; the model returns `None` from `ProcessTable` and `completed == false` from `Announce`.
- Players.GetDays: the availability is a pair of booleans indexed by a day in {0, 1}, so Python's negative or out-of-range indexing into `daysOk` is not modelled.
- Validator.CheckSolutionCode: a roster entry missing for an assigned player (a `KeyError` at matchmaking.py:98) is excluded by its precondition rather than modelled as an exception.
- Validator.CheckSolutionCode: with a rank bound, a negative score (the `AssertionError` of `get_rank` at matchmaking.py:33) is also excluded by `Checkable`, and so is `Players.Rank` on it by its precondition. This excludes, too, the inputs where the source would return -1, -2 or -3 before it computes any rank.
- LeagueDays.GenDayInfos: the contract says that `dayOrder` lists each played day once, but not that the days come in the order in which they first appear in the roster.
- The dictionary iteration order is not derived. It is passed in as key sequences (`names`, `order`, `days`), which are required to list each key once.

## Findings

| source | as written | input that shows it | evidently intended | confidence | as-written member | corrected member |
|---|---|---|---|---|---|---|
| matchmaking.py:118 | the rank check unpacks `table, _ = solution[p]`, which takes the day field of `PlayerAssign(day, table)`, so rank ranges are grouped by day | two tables on the first day (index 0), one with four rank-0 players and one with four rank-1 players, checked with `rankDiff` 0: each table is uniform, but the check returns -4 | `_, table = solution[p]`, grouping by table index | high (not executed) | Validator.RankCheckGroupsByDay | Validator.CheckSolutionByTable, shown by Validator.RankCheckByTable |
| matchmaking.py:394-401, 427 | when no player is free on both days, `bestTables` is set to the grouping itself instead of a one-element list of groupings, so `rng.choice` picks a single table and the final loop treats its player names as tables | eight players with names of several letters, all free only on the first day (index 0): the one candidate grouping has two tables of four, so `get_tables_score` succeeds, but `rng.choice` draws a single table and `deduce_day` then looks up the letters of a name, which raises `KeyError` | `bestTables = [tables]`, after which the grouping of the first-day-only players is seated | high (not executed) | Exhaustive.DayOneEightMalformed, with Exhaustive.ExhaustiveSearch | Exhaustive.Search |
