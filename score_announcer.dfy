/**
 * The score announcer: a tab-separated score sheet is read line by line.
 * Each table starts with a header line (its first field is the table name)
 * and is followed by one line per player, up to the next line whose first
 * field starts with "Table". Each table's entries are sorted by gain, best
 * first, before they are announced.
 */
module ScoreAnnouncer {
  import opened Wrappers
  import opened ListOps
  import opened ScoreEntries

  /** `line.split('\t')`: the fields between tabs; an empty line has one empty field. */
  function Split(line: string): (r: seq<string>)
    ensures |r| >= 1
  {
    if line == [] then [""]
    else if line[0] == '\t' then [""] + Split(line[1..])
    else
      var rest := Split(line[1..]);
      [[line[0]] + rest[0]] + rest[1..]
  }

  /** No field holds a tab. */
  lemma {:induction false} SplitNoTab(line: string)
    ensures forall k :: 0 <= k < |Split(line)| ==> '\t' !in Split(line)[k]
  {
    if line != [] {
      SplitNoTab(line[1..]);
      if line[0] != '\t' {
        var rest := Split(line[1..]);
        assert Split(line)[0] == [line[0]] + rest[0];
        forall k | 1 <= k < |Split(line)| ensures '\t' !in Split(line)[k] {
          assert Split(line)[k] == rest[k];
        }
      } else {
        forall k | 1 <= k < |Split(line)| ensures '\t' !in Split(line)[k] {
          assert Split(line)[k] == Split(line[1..])[k - 1];
        }
      }
    }
  }

  /** `'\t'.join(fields)`. */
  function Join(fields: seq<string>): string
    requires |fields| >= 1
  {
    if |fields| == 1 then fields[0] else fields[0] + "\t" + Join(fields[1..])
  }

  /** Joining the fields back gives the line. */
  lemma {:induction false} JoinSplit(line: string)
    ensures Join(Split(line)) == line
  {
    if line != [] {
      JoinSplit(line[1..]);
      if line[0] != '\t' {
        var rest := Split(line[1..]);
        if |rest| == 1 {
          assert Join(Split(line)) == [line[0]] + rest[0];
        } else {
          assert Split(line)[1..] == rest[1..];
          assert Join(Split(line)) == [line[0]] + (rest[0] + "\t" + Join(rest[1..]));
        }
        assert line == [line[0]] + line[1..];
      } else {
        assert line == "\t" + line[1..];
      }
    }
  }

  /** A field without tabs, followed by a tab and more text, splits off as the first field. */
  lemma {:induction false} SplitField(a: string, rest: string, more: bool)
    requires '\t' !in a
    ensures Split(if more then a + "\t" + rest else a) == if more then [a] + Split(rest) else [a]
  {
    if a == [] {
      if more {
        assert a + "\t" + rest == "\t" + rest;
        assert ("\t" + rest)[1..] == rest;
      }
    } else {
      var line := if more then a + "\t" + rest else a;
      assert line[0] == a[0];
      assert line[1..] == if more then a[1..] + "\t" + rest else a[1..];
      SplitField(a[1..], rest, more);
      assert [a[0]] + a[1..] == a;
    }
  }

  /** Splitting the joined fields gives them back. */
  lemma {:induction false} SplitJoin(fields: seq<string>)
    requires |fields| >= 1
    requires forall k :: 0 <= k < |fields| ==> '\t' !in fields[k]
    ensures Split(Join(fields)) == fields
  {
    if |fields| == 1 {
      SplitField(fields[0], "", false);
    } else {
      SplitJoin(fields[1..]);
      SplitField(fields[0], Join(fields[1..]), true);
      assert [fields[0]] + fields[1..] == fields;
    }
  }

  /** The first field is the text before the first tab (the whole line when there is none). */
  lemma {:induction false} FirstField(line: string)
    ensures Split(line)[0] <= line
    ensures |Split(line)[0]| < |line| ==> line[|Split(line)[0]|] == '\t'
  {
    if line != [] && line[0] != '\t' {
      FirstField(line[1..]);
    }
  }

  /** The sheet's lines and a cursor into them. */
  class LineReader {
    var lines: seq<string>
    var index: nat

    ghost predicate Valid()
      reads this
    {
      index <= |lines|
    }

    constructor (lines: seq<string>)
      ensures Valid()
      ensures this.lines == lines && index == 0
    {
      this.lines := lines;
      index := 0;
    }

    /** `endReached`. */
    predicate EndReached()
      reads this
    {
      index == |lines|
    }

    /** `peek`: the current line without moving, or `None` at the end. */
    method Peek() returns (r: Option<string>)
      requires Valid()
      ensures r.None? <==> EndReached()
      ensures r.Some? ==> r.value == lines[index]
    {
      if !EndReached() {
        return Some(lines[index]);
      } else {
        return None;
      }
    }

    /** `consume`: the current line, moving past it; the source asserts it is not at the end. */
    method Consume() returns (line: string)
      requires Valid() && !EndReached()
      modifies this
      ensures Valid()
      ensures lines == old(lines) && index == old(index) + 1
      ensures line == lines[old(index)]
    {
      index := index + 1;
      line := lines[index - 1];
    }
  }

  /** `get_header`: consumes one line and gives the text before its first tab. */
  method GetHeader(reader: LineReader) returns (header: string)
    requires reader.Valid() && !reader.EndReached()
    modifies reader
    ensures reader.Valid()
    ensures reader.lines == old(reader.lines) && reader.index == old(reader.index) + 1
    ensures header == Split(reader.lines[old(reader.index)])[0]
  {
    var line := reader.Consume();
    header := Split(line)[0];
  }

  /**
   * `ScoreEntry(*fields)`: seven fields are needed (fewer raise a TypeError);
   * `parse` stands for `float` and gives `None` where it raises.
   */
  function MakeEntry(fields: seq<string>, parse: string -> Option<real>): (r: Option<ScoreEntry>)
    requires |fields| <= 7
    ensures r.Some? <==>
      |fields| == 7 && parse(fields[3]).Some? && parse(fields[4]).Some? && parse(fields[5]).Some? && parse(fields[6]).Some?
    ensures r.Some? ==> r.value.player == fields[0] && r.value.character == fields[2] && Some(r.value.gain) == parse(fields[4])
  {
    if |fields| < 7 || parse(fields[3]).None? || parse(fields[4]).None? || parse(fields[5]).None? || parse(fields[6]).None? then None
    else Some(ScoreEntry(fields[0], fields[1], fields[2],
      parse(fields[3]).value, parse(fields[4]).value, parse(fields[5]).value, parse(fields[6]).value))
  }

  /** The entry of a player line: the fields after the first, up to seven of them (`split[1:8]`). */
  function EntryOf(line: string, parse: string -> Option<real>): Option<ScoreEntry>
  {
    var split := Split(line);
    MakeEntry(split[1..if |split| < 8 then |split| else 8], parse)
  }

  /** A line whose first field starts with "Table" opens the next table. */
  predicate IsHeader(line: string)
  {
    "Table" <= Split(line)[0]
  }

  /** Where the run of player lines starting at `i` ends: the end of the sheet or the next header. */
  function RunEnd(lines: seq<string>, i: nat): (j: nat)
    requires i <= |lines|
    ensures i <= j <= |lines|
    decreases |lines| - i
  {
    if i == |lines| || IsHeader(lines[i]) then i else RunEnd(lines, i + 1)
  }

  /** The run holds no header and stops at the end of the sheet or at the next header. */
  lemma {:induction false} RunEndMeaning(lines: seq<string>, i: nat)
    requires i <= |lines|
    ensures forall k :: i <= k < RunEnd(lines, i) ==> !IsHeader(lines[k])
    ensures RunEnd(lines, i) < |lines| ==> IsHeader(lines[RunEnd(lines, i)])
    decreases |lines| - i
  {
    if !(i == |lines| || IsHeader(lines[i])) {
      RunEndMeaning(lines, i + 1);
    }
  }

  /** Where `process_table`'s loop stops from `i`: at the end, at a header, or at a line that has no entry. */
  function Stop(lines: seq<string>, i: nat, parse: string -> Option<real>): (j: nat)
    requires i <= |lines|
    ensures i <= j <= |lines|
    decreases |lines| - i
  {
    if i == |lines| || IsHeader(lines[i]) || EntryOf(lines[i], parse).None? then i else Stop(lines, i + 1, parse)
  }

  /** Every line the loop passes is a player line with an entry; the line it stops at is not. */
  lemma {:induction false} StopMeaning(lines: seq<string>, i: nat, parse: string -> Option<real>)
    requires i <= |lines|
    ensures forall k :: i <= k < Stop(lines, i, parse) ==> !IsHeader(lines[k]) && EntryOf(lines[k], parse).Some?
    ensures Stop(lines, i, parse) < |lines| ==>
      IsHeader(lines[Stop(lines, i, parse)]) || EntryOf(lines[Stop(lines, i, parse)], parse).None?
    decreases |lines| - i
  {
    if !(i == |lines| || IsHeader(lines[i]) || EntryOf(lines[i], parse).None?) {
      StopMeaning(lines, i + 1, parse);
    }
  }

  /** The loop stops at the end of the run exactly when every line of the run has an entry. */
  lemma {:induction false} StopRunEnd(lines: seq<string>, i: nat, parse: string -> Option<real>)
    requires i <= |lines|
    ensures Stop(lines, i, parse) <= RunEnd(lines, i)
    ensures Stop(lines, i, parse) == RunEnd(lines, i) <==>
      forall k :: i <= k < RunEnd(lines, i) ==> EntryOf(lines[k], parse).Some?
    decreases |lines| - i
  {
    if i == |lines| || IsHeader(lines[i]) {
      assert RunEnd(lines, i) == i && Stop(lines, i, parse) == i;
    } else if EntryOf(lines[i], parse).None? {
      assert Stop(lines, i, parse) == i < RunEnd(lines, i);
    } else {
      StopRunEnd(lines, i + 1, parse);
      assert Stop(lines, i, parse) == Stop(lines, i + 1, parse);
      assert RunEnd(lines, i) == RunEnd(lines, i + 1);
    }
  }

  /** `ordinal_position`; the source asserts `1 <= i <= 6`. */
  function OrdinalPosition(i: int): (r: string)
    requires 1 <= i <= 6
    ensures |r| == 3 && r[0] == ('0' as int + i) as char
    ensures r[1..] == if i == 1 then "st" else if i == 2 then "nd" else if i == 3 then "rd" else "th"
  {
    map[1 := "1st", 2 := "2nd", 3 := "3rd", 4 := "4th", 5 := "5th", 6 := "6th"][i]
  }

  /** Different positions are announced differently. */
  lemma OrdinalInjective(i: int, j: int)
    requires 1 <= i <= 6 && 1 <= j <= 6 && i != j
    ensures OrdinalPosition(i) != OrdinalPosition(j)
  {
    assert OrdinalPosition(i)[0] != OrdinalPosition(j)[0];
  }

  datatype Table = Table(name: string, entries: seq<ScoreEntry>)

  /** The entries of lines that all have one. */
  function Entries(run: seq<string>, parse: string -> Option<real>): (r: seq<ScoreEntry>)
    requires forall k :: 0 <= k < |run| ==> EntryOf(run[k], parse).Some?
  {
    seq(|run|, k requires 0 <= k < |run| => EntryOf(run[k], parse).value)
  }

  /**
   * What `process_table` does from line `i`: the table it announces, or
   * `None` where building an entry raises, and the index it leaves behind.
   */
  function TableAt(lines: seq<string>, i: nat, parse: string -> Option<real>): (r: (Option<Table>, nat))
    requires i < |lines|
    ensures i < r.1 <= |lines|
  {
    var j := Stop(lines, i + 1, parse);
    StopMeaning(lines, i + 1, parse);
    if j < |lines| && !IsHeader(lines[j]) then (None, j)
    else (Some(Table(Split(lines[i])[0], SortEntries(Entries(lines[i + 1..j], parse)))), j)
  }

  /**
   * A table is announced exactly when every line of its run has an entry;
   * it then consumes the header and the whole run of player lines, stops
   * before the next header, and has one entry per player line. When an entry
   * cannot be built, the index is left at that line inside the run.
   */
  lemma TableAtMeaning(lines: seq<string>, i: nat, parse: string -> Option<real>)
    requires i < |lines|
    ensures var (t, j) := TableAt(lines, i, parse);
      (t.Some? <==> forall k :: i + 1 <= k < RunEnd(lines, i + 1) ==> EntryOf(lines[k], parse).Some?) &&
      (t.Some? ==> j == RunEnd(lines, i + 1) && (j < |lines| ==> IsHeader(lines[j])) &&
                   |t.value.entries| == j - i - 1 && t.value.name == Split(lines[i])[0]) &&
      (t.None? ==> j < RunEnd(lines, i + 1) && EntryOf(lines[j], parse).None?)
  {
    StopRunEnd(lines, i + 1, parse);
    StopMeaning(lines, i + 1, parse);
    RunEndMeaning(lines, i + 1);
  }

  /** The lines `a..b` are player lines that all have an entry. */
  ghost predicate EntryRun(lines: seq<string>, a: nat, b: nat, parse: string -> Option<real>)
    requires a <= b <= |lines|
  {
    forall k :: a <= k < b ==> !IsHeader(lines[k]) && EntryOf(lines[k], parse).Some?
  }

  /** One more player line with an entry extends the run and its entries. */
  lemma EntriesSnoc(lines: seq<string>, a: nat, k: nat, parse: string -> Option<real>)
    requires a <= k < |lines| && EntryRun(lines, a, k, parse)
    requires !IsHeader(lines[k]) && EntryOf(lines[k], parse).Some?
    ensures EntryRun(lines, a, k + 1, parse)
    ensures Entries(lines[a..k + 1], parse) == Entries(lines[a..k], parse) + [EntryOf(lines[k], parse).value]
  {
    assert lines[a..k + 1] == lines[a..k] + [lines[k]];
  }

  /** The loop stops at the first line from `i` that is a header or has no entry. */
  lemma {:induction false} StopAt(lines: seq<string>, i: nat, j: nat, parse: string -> Option<real>)
    requires i <= j <= |lines| && EntryRun(lines, i, j, parse)
    requires j < |lines| ==> IsHeader(lines[j]) || EntryOf(lines[j], parse).None?
    ensures Stop(lines, i, parse) == j
    decreases j - i
  {
    if i < j {
      StopAt(lines, i + 1, j, parse);
    }
  }

  /** The loop stopped at a line of the run that has no entry. */
  lemma TableAtNone(lines: seq<string>, i: nat, j: nat, parse: string -> Option<real>)
    requires i < j < |lines| && j == Stop(lines, i + 1, parse) && !IsHeader(lines[j])
    ensures TableAt(lines, i, parse) == (None, j)
  {
  }

  /** The loop stopped at the end of the sheet or at the next header. */
  lemma TableAtSome(lines: seq<string>, i: nat, j: nat, name: string, entries: seq<ScoreEntry>, parse: string -> Option<real>)
    requires i < j <= |lines| && j == Stop(lines, i + 1, parse) && (j < |lines| ==> IsHeader(lines[j]))
    requires EntryRun(lines, i + 1, j, parse)
    requires name == Split(lines[i])[0] && entries == Entries(lines[i + 1..j], parse)
    ensures TableAt(lines, i, parse) == (Some(Table(name, SortEntries(entries))), j)
  {
  }

  /**
   * The loop of `process_table`: it consumes player lines while they have an
   * entry, up to the end of the sheet or the next header; `ok` is false when
   * it stopped at a player line whose entry cannot be built.
   */
  method ReadEntries(reader: LineReader, parse: string -> Option<real>) returns (entries: seq<ScoreEntry>, ok: bool)
    requires reader.Valid()
    modifies reader
    ensures reader.Valid() && reader.lines == old(reader.lines)
    ensures old(reader.index) <= reader.index == Stop(reader.lines, old(reader.index), parse)
    ensures EntryRun(reader.lines, old(reader.index), reader.index, parse)
    ensures entries == Entries(reader.lines[old(reader.index)..reader.index], parse)
    ensures ok <==> reader.EndReached() || IsHeader(reader.lines[reader.index])
  {
    ghost var lines, start := reader.lines, reader.index;
    entries := [];
    while true
      invariant reader.Valid() && reader.lines == lines && start <= reader.index
      invariant EntryRun(lines, start, reader.index, parse)
      invariant entries == Entries(lines[start..reader.index], parse)
      decreases |lines| - reader.index
    {
      var entryLine := reader.Peek();
      if entryLine.None? {
        break;
      }
      var split := Split(entryLine.value);
      if !("Table" <= split[0]) {
        var subsplit := split[1..if |split| < 8 then |split| else 8];
        var scoreEntry := MakeEntry(subsplit, parse);
        if scoreEntry.None? {
          StopAt(lines, start, reader.index, parse);
          return entries, false;
        }
        assert EntryOf(lines[reader.index], parse) == scoreEntry;
        EntriesSnoc(lines, start, reader.index, parse);
        entries := entries + [scoreEntry.value];
        var _ := reader.Consume();
      } else {
        break;
      }
    }
    StopAt(lines, start, reader.index, parse);
    ok := true;
  }

  /** `process_table`; printing is left out, so the table is returned. */
  method ProcessTable(reader: LineReader, parse: string -> Option<real>) returns (r: Option<Table>)
    requires reader.Valid() && !reader.EndReached()
    modifies reader
    ensures reader.Valid() && reader.lines == old(reader.lines)
    ensures (r, reader.index) == TableAt(reader.lines, old(reader.index), parse)
  {
    ghost var start := reader.index;
    var tableName := GetHeader(reader);
    var scoreEntries, ok := ReadEntries(reader, parse);
    if !ok {
      TableAtNone(reader.lines, start, reader.index, parse);
      return None;
    }
    TableAtSome(reader.lines, start, reader.index, tableName, scoreEntries, parse);
    var sorted := SortList(scoreEntries);
    return Some(Table(tableName, sorted));
  }

  /** The tables announced from line `i` on, and whether the sheet was read to its end. */
  function Tables(lines: seq<string>, i: nat, parse: string -> Option<real>): (r: (seq<Table>, bool))
    requires i <= |lines|
    decreases |lines| - i
  {
    if i == |lines| then ([], true)
    else
      var step := TableAt(lines, i, parse);
      if step.0.None? then ([], false)
      else
        var rest := Tables(lines, step.1, parse);
        ([step.0.value] + rest.0, rest.1)
  }

  /** The lines a table takes up: its header and one per entry. */
  function LinesUsed(tables: seq<Table>): nat
  {
    if tables == [] then 0 else 1 + |tables[0].entries| + LinesUsed(tables[1..])
  }

  /** A sheet read to its end is cut into tables with no line left over or used twice. */
  lemma {:induction false} TablesCover(lines: seq<string>, i: nat, parse: string -> Option<real>)
    requires i <= |lines|
    ensures Tables(lines, i, parse).1 ==> LinesUsed(Tables(lines, i, parse).0) == |lines| - i
    decreases |lines| - i
  {
    if i < |lines| {
      var (t, j) := TableAt(lines, i, parse);
      if t.Some? {
        TableAtMeaning(lines, i, parse);
        TablesCover(lines, j, parse);
        var ts := Tables(lines, i, parse).0;
        assert ts[0] == t.value && ts[1..] == Tables(lines, j, parse).0;
      }
    }
  }

  /** Every table after the one the sheet opens with is named by a header starting with "Table". */
  lemma {:induction false} TablesNamed(lines: seq<string>, i: nat, parse: string -> Option<real>)
    requires i <= |lines|
    requires i < |lines| ==> IsHeader(lines[i])
    ensures forall k :: 0 <= k < |Tables(lines, i, parse).0| ==> "Table" <= Tables(lines, i, parse).0[k].name
    decreases |lines| - i
  {
    if i < |lines| {
      var (t, j) := TableAt(lines, i, parse);
      if t.Some? {
        TableAtMeaning(lines, i, parse);
        TablesNamed(lines, j, parse);
        var ts := Tables(lines, i, parse).0;
        assert ts[0] == t.value && ts[1..] == Tables(lines, j, parse).0;
        forall k | 0 <= k < |ts| ensures "Table" <= ts[k].name {
          if k > 0 {
            assert ts[k] == ts[1..][k - 1];
          }
        }
      }
    }
  }

  /** `tables` were announced before line `i`, and the rest of the sheet announces the others. */
  ghost predicate ReadUpTo(lines: seq<string>, i: nat, tables: seq<Table>, parse: string -> Option<real>)
    requires i <= |lines|
  {
    Tables(lines, 0, parse) == (tables + Tables(lines, i, parse).0, Tables(lines, i, parse).1)
  }

  /** Where the table at line `i` cannot be read, nothing after it is announced. */
  lemma TablesStop(lines: seq<string>, i: nat, parse: string -> Option<real>, tables: seq<Table>, j: nat)
    requires i < |lines| && TableAt(lines, i, parse) == (None, j)
    requires ReadUpTo(lines, i, tables, parse)
    ensures Tables(lines, 0, parse) == (tables, false)
  {
    assert Tables(lines, i, parse) == ([], false);
    assert tables + [] == tables;
  }

  /** The table at line `i` is announced, then the tables from where it ends. */
  lemma TablesNext(lines: seq<string>, i: nat, parse: string -> Option<real>, tables: seq<Table>, t: Table, j: nat)
    requires i < |lines| && TableAt(lines, i, parse) == (Some(t), j)
    requires ReadUpTo(lines, i, tables, parse)
    ensures ReadUpTo(lines, j, tables + [t], parse)
  {
    var rest := Tables(lines, j, parse);
    TablesUnfold(lines, i, parse, t, j);
    AppendAssoc(tables, [t], rest.0);
  }

  lemma TablesUnfold(lines: seq<string>, i: nat, parse: string -> Option<real>, t: Table, j: nat)
    requires i < |lines| && TableAt(lines, i, parse) == (Some(t), j)
    ensures Tables(lines, i, parse) == ([t] + Tables(lines, j, parse).0, Tables(lines, j, parse).1)
  {
  }

  /** Before the first table, nothing has been announced. */
  lemma ReadNothing(lines: seq<string>, parse: string -> Option<real>)
    ensures ReadUpTo(lines, 0, [], parse)
  {
    assert [] + Tables(lines, 0, parse).0 == Tables(lines, 0, parse).0;
  }

  /** Once every line is consumed, the tables read so far are the whole announcement. */
  lemma ReadAll(lines: seq<string>, tables: seq<Table>, parse: string -> Option<real>)
    requires ReadUpTo(lines, |lines|, tables, parse)
    ensures Tables(lines, 0, parse) == (tables, true)
  {
    assert tables + [] == tables;
  }

  /**
   * The program's main loop: tables are processed until the reader reaches
   * the end; it stops early where an entry cannot be built (the source
   * raises there). Each table consumes at least its header, so it ends.
   */
  method Announce(lines: seq<string>, parse: string -> Option<real>) returns (tables: seq<Table>, completed: bool)
    ensures (tables, completed) == Tables(lines, 0, parse)
  {
    var lineReader := new LineReader(lines);
    tables := [];
    ReadNothing(lines, parse);
    while !lineReader.EndReached()
      invariant lineReader.Valid() && lineReader.lines == lines
      invariant ReadUpTo(lines, lineReader.index, tables, parse)
      decreases |lines| - lineReader.index
    {
      ghost var i := lineReader.index;
      var t := ProcessTable(lineReader, parse);
      if t.None? {
        TablesStop(lines, i, parse, tables, lineReader.index);
        return tables, false;
      }
      TablesNext(lines, i, parse, tables, t.value, lineReader.index);
      tables := tables + [t.value];
    }
    ReadAll(lines, tables, parse);
    completed := true;
  }
}
