/** Printing a list of objects as CSV, and reading it back by section 2 of
    RFC 4180 with line feeds as record ends. */
module Csv {
  import opened Wrappers
  import opened Text

  /** A cell's value as text; Nil for JSON null. */
  datatype Cell = Nil | Value(text: ByteString)

  type Item = map<ByteString, Cell>

  type Row = seq<ByteString>

  // ----- printing -----

  predicate IsSpecial(c: Byte) { c == ',' || c == '"' || c == '\n' }

  predicate HasSpecial(s: ByteString) { exists i :: 0 <= i < |s| && IsSpecial(s[i]) }

  function Doubled(s: ByteString): ByteString {
    if s == [] then []
    else (if s[0] == '"' then ['"', '"'] else [s[0]]) + Doubled(s[1..])
  }

  function Quoted(s: ByteString): ByteString {
    if HasSpecial(s) then ['"'] + Doubled(s) + ['"'] else s
  }

  /** The fields as they are, with commas between. */
  function Bare(fields: Row): ByteString {
    if fields == [] then []
    else if |fields| == 1 then fields[0]
    else fields[0] + [','] + Bare(fields[1..])
  }

  function QuotedAll(fields: Row): Row {
    seq(|fields|, i requires 0 <= i < |fields| => Quoted(fields[i]))
  }

  function Records(rows: seq<Row>): ByteString {
    if rows == [] then [] else Bare(QuotedAll(rows[0])) + ['\n'] + Records(rows[1..])
  }

  /** The header is printed without quoting. */
  function Output(keys: Row, rows: seq<Row>): ByteString {
    Bare(keys) + ['\n'] + Records(rows)
  }

  /** Under each key stands the text the item holds there, and nothing when the
      key is missing or null. */
  ghost predicate IsRow(item: Item, keys: Row, row: Row) {
    && |row| == |keys|
    && forall k :: 0 <= k < |keys| ==>
         if keys[k] in item && item[keys[k]] != Nil then item[keys[k]] == Value(row[k]) else row[k] == []
  }

  /** A header of the keys, and a row for every item. */
  ghost predicate IsTable(items: seq<Item>, keys: Row, table: seq<Row>) {
    && |table| == 1 + |items| && table[0] == keys
    && forall i :: 0 <= i < |items| ==> IsRow(items[i], keys, table[1 + i])
  }

  function AllKeys(items: seq<Item>): set<ByteString> {
    set i, k | 0 <= i < |items| && k in items[i] :: k
  }

  /** The sorted keys of all objects are the columns.  What is printed reads back
      as the table of keys and cells if and only if no key needs quoting; without
      a column it is one empty line for the header and one for each object. */
  method PrintCsv(items: seq<Item>) returns (text: ByteString, ghost table: seq<Row>)
    ensures items == [] ==> text == []
    ensures items != [] ==>
      && table != [] && IsTable(items, table[0], table)
      && Ascending(table[0]) && (forall key :: key in table[0] <==> exists i :: 0 <= i < |items| && key in items[i])
      && text == Output(table[0], table[1..])
      && (table[0] == [] ==> |text| == |table| && forall k :: 0 <= k < |text| ==> text[k] == '\n')
      && (table[0] != [] ==> (ReadAll(text) == Some(table) <==> NoKeyIsSpecial(table[0])))
  {
    hide Bare, QuotedAll, IsRow, Records, AllKeys, Ascending, Elements, ReadAll, NoKeyIsSpecial, Output;
    table := [];
    if |items| == 0 {
      return [], table;
    }
    var columns := SortedKeys(items);
    table := [columns];
    text := Bare(columns) + ['\n'];
    NoRecords();
    assert table[1..] == [];
    for n := 0 to |items|
      invariant |table| == 1 + n && table[0] == columns
      invariant forall i :: 0 <= i < n ==> IsRow(items[i], columns, table[1 + i])
      invariant text == Bare(columns) + ['\n'] + Records(table[1..])
    {
      var line, row := PrintRow(items[n], columns);
      RecordsAppend(table[1..], row);
      assert (table + [row])[1..] == table[1..] + [row];
      table := table + [row];
      text := text + line + ['\n'];
    }
    TableReadsBack(items, columns, table);
  }

  /** The printed table reads back exactly when its keys need no quoting. */
  lemma TableReadsBack(items: seq<Item>, keys: Row, table: seq<Row>)
    requires IsTable(items, keys, table)
    ensures var text := Output(keys, table[1..]);
      && text == Bare(keys) + ['\n'] + Records(table[1..])
      && (keys != [] ==> (ReadAll(text) == Some(table) <==> NoKeyIsSpecial(keys)))
      && (keys == [] ==> |text| == |table| && forall k :: 0 <= k < |text| ==> text[k] == '\n')
  {
    hide Bare, Records, ReadAll, NoKeyIsSpecial;
    var rows := table[1..];
    assert table == [keys] + rows;
    forall i | 0 <= i < |rows| ensures rows[i] == [] <==> keys == [] {
      assert IsRow(items[i], keys, table[1 + i]);
    }
    if keys != [] {
      OutputReadsBackExactlyWhenKeysArePlain(keys, rows);
    } else {
      EmptyLines(rows);
      assert Bare([]) == [] by { NoField(); }
    }
  }

  lemma NoField()
    ensures Bare([]) == [] && QuotedAll([]) == []
  {
  }

  lemma {:induction false} EmptyLines(rows: seq<Row>)
    requires forall i :: 0 <= i < |rows| ==> rows[i] == []
    ensures |Records(rows)| == |rows| && forall k :: 0 <= k < |rows| ==> Records(rows)[k] == '\n'
  {
    if rows != [] {
      NoField();
      EmptyLines(rows[1..]);
    }
  }

  lemma NoRecords()
    ensures Records([]) == []
  {
  }

  lemma {:induction false} RecordsAppend(rows: seq<Row>, row: Row)
    ensures Records(rows + [row]) == Records(rows) + Bare(QuotedAll(row)) + ['\n']
  {
    if rows == [] {
      assert rows + [row] == [row];
    } else {
      assert (rows + [row])[1..] == rows[1..] + [row];
      RecordsAppend(rows[1..], row);
    }
  }

  method SortedKeys(items: seq<Item>) returns (keys: Row)
    ensures Ascending(keys) && forall key :: key in keys <==> exists i :: 0 <= i < |items| && key in items[i]
  {
    keys := [];
    var rest := AllKeys(items);
    while rest != {}
      invariant rest <= AllKeys(items) && Ascending(keys) && Elements(keys) == AllKeys(items) - rest
      decreases |rest|
    {
      var key :| key in rest;
      rest := rest - {key};
      assert key !in Elements(keys);
      keys := InsertKey(keys, key);
    }
    assert forall key :: key in keys <==> key in Elements(keys);
  }

  lemma OneRecord(row: Row)
    ensures Records([row]) == Bare(QuotedAll(row)) + ['\n']
  {
  }

  /** The line reads back as the item's cells under the keys. */
  method PrintRow(item: Item, keys: Row) returns (line: ByteString, ghost row: Row)
    ensures IsRow(item, keys, row) && line == Bare(QuotedAll(row))
    ensures keys != [] ==> ReadAll(line + ['\n']) == Some([row])
    ensures keys != [] ==>
      var table := ReadAll(line + ['\n']); table.Some? && |table.value| == 1 && IsRow(item, keys, table.value[0])
  {
    var vals: Row := [];
    row := [];
    for i := 0 to |keys|
      invariant IsRow(item, keys[..i], row) && vals == QuotedAll(row)
    {
      if keys[i] !in item || item[keys[i]].Nil? {
        vals := vals + [[]];
        row := row + [[]];
      } else {
        var s := item[keys[i]].text;
        row := row + [s];
        if HasSpecial(s) {
          s := ['"'] + Doubled(s) + ['"'];
        }
        vals := vals + [s];
      }
    }
    line := Bare(vals);
    assert keys[..|keys|] == keys;
    if keys != [] {
      RowsReadBack([row]);
      assert Records([row]) == line + ['\n'] by { OneRecord(row); }
    }
  }

  // ----- reading -----

  datatype Read<T> = Read(value: T, rest: ByteString)

  /** An unquoted field up to the comma or line feed that ends it. */
  function ReadRaw(text: ByteString): (r: Option<Read<ByteString>>)
    ensures r.Some? ==> |r.value.rest| <= |text|
  {
    if text == [] || text[0] == '"' then None
    else if text[0] == ',' || text[0] == '\n' then Some(Read([], text))
    else
      match ReadRaw(text[1..])
      case None => None
      case Some(Read(v, rest)) => Some(Read([text[0]] + v, rest))
  }

  /** The rest of a quoted field, after its opening quote. */
  function ReadQuoted(text: ByteString): (r: Option<Read<ByteString>>)
    ensures r.Some? ==> |r.value.rest| < |text|
    decreases |text|
  {
    if text == [] then None
    else if text[0] != '"' then
      match ReadQuoted(text[1..])
      case None => None
      case Some(Read(v, rest)) => Some(Read([text[0]] + v, rest))
    else if |text| > 1 && text[1] == '"' then
      match ReadQuoted(text[2..])
      case None => None
      case Some(Read(v, rest)) => Some(Read(['"'] + v, rest))
    else Some(Read([], text[1..]))
  }

  function ReadField(text: ByteString): (r: Option<Read<ByteString>>)
    ensures r.Some? ==> |r.value.rest| <= |text|
  {
    if text != [] && text[0] == '"' then ReadQuoted(text[1..]) else ReadRaw(text)
  }

  function ReadRecord(text: ByteString): (r: Option<Read<Row>>)
    ensures r.Some? ==> |r.value.rest| < |text|
    decreases |text|
  {
    match ReadField(text)
    case None => None
    case Some(Read(v, rest)) =>
      if rest == [] then None
      else if rest[0] == '\n' then Some(Read([v], rest[1..]))
      else if rest[0] != ',' then None
      else
        match ReadRecord(rest[1..])
        case None => None
        case Some(Read(more, end)) => Some(Read([v] + more, end))
  }

  function ReadAll(text: ByteString): Option<seq<Row>>
    decreases |text|
  {
    if text == [] then Some([])
    else
      match ReadRecord(text)
      case None => None
      case Some(Read(row, rest)) =>
        match ReadAll(rest)
        case None => None
        case Some(rows) => Some([row] + rows)
  }

  // ----- rows read back -----

  predicate EndsField(t: ByteString) { t != [] && (t[0] == ',' || t[0] == '\n') }

  lemma {:induction false} RawReadsBack(s: ByteString, t: ByteString)
    requires !HasSpecial(s) && EndsField(t)
    ensures ReadRaw(s + t) == Some(Read(s, t))
  {
    if s == [] {
      assert s + t == t;
    } else {
      assert (s + t)[1..] == s[1..] + t;
      assert forall i :: 0 <= i < |s[1..]| ==> s[1..][i] == s[i + 1];
      assert !IsSpecial(s[0]);
      assert [s[0]] + s[1..] == s;
      RawReadsBack(s[1..], t);
    }
  }

  lemma QuotedStep(text: ByteString, head: ByteString, rest: ByteString)
    requires text == head + rest && (head == ['"', '"'] || (|head| == 1 && head[0] != '"'))
    requires ReadQuoted(rest).Some?
    ensures ReadQuoted(text) == Some(Read([head[0]] + ReadQuoted(rest).value.value, ReadQuoted(rest).value.rest))
  {
    assert text[|head|..] == rest;
  }

  lemma {:induction false} QuotedReadsBack(s: ByteString, t: ByteString)
    requires EndsField(t)
    ensures ReadQuoted(Doubled(s) + ['"'] + t) == Some(Read(s, t))
  {
    var text := Doubled(s) + ['"'] + t;
    if s == [] {
      assert text == ['"'] + t;
      assert text[1..] == t;
    } else {
      hide ReadQuoted;
      var rest := Doubled(s[1..]) + ['"'] + t;
      var head: ByteString := if s[0] == '"' then ['"', '"'] else [s[0]];
      QuotedReadsBack(s[1..], t);
      assert text == head + rest;
      QuotedStep(text, head, rest);
      assert [s[0]] + s[1..] == s;
    }
  }

  lemma FieldReadsBack(s: ByteString, t: ByteString)
    requires EndsField(t)
    ensures ReadField(Quoted(s) + t) == Some(Read(s, t))
  {
    hide ReadQuoted, ReadRaw, Doubled, HasSpecial;
    if HasSpecial(s) {
      QuotedReadsBack(s, t);
      assert (Quoted(s) + t)[1..] == Doubled(s) + ['"'] + t;
    } else {
      RawReadsBack(s, t);
      PlainStart(s);
    }
  }

  lemma PlainStart(s: ByteString)
    requires !HasSpecial(s)
    ensures s != [] ==> !IsSpecial(s[0])
  {
  }

  lemma {:induction false} RecordReadsBack(fields: Row, t: ByteString)
    requires fields != []
    ensures ReadRecord(Bare(QuotedAll(fields)) + ['\n'] + t) == Some(Read(fields, t))
  {
    hide Quoted, ReadField;
    var text := Bare(QuotedAll(fields)) + ['\n'] + t;
    if |fields| == 1 {
      FieldReadsBack(fields[0], ['\n'] + t);
      assert text == Quoted(fields[0]) + (['\n'] + t);
      assert (['\n'] + t)[1..] == t && [fields[0]] == fields;
    } else {
      var rest := Bare(QuotedAll(fields[1..])) + ['\n'] + t;
      assert QuotedAll(fields)[1..] == QuotedAll(fields[1..]);
      FieldReadsBack(fields[0], [','] + rest);
      assert text == Quoted(fields[0]) + ([','] + rest);
      assert [fields[0]] + fields[1..] == fields;
      RecordReadsBack(fields[1..], t);
    }
  }

  /** Rows of at least one column read back exactly, whatever their cells hold. */
  lemma {:induction false} RowsReadBack(rows: seq<Row>)
    requires forall i :: 0 <= i < |rows| ==> rows[i] != []
    ensures ReadAll(Records(rows)) == Some(rows)
  {
    hide ReadRecord, Bare;
    if rows != [] {
      RecordReadsBack(rows[0], Records(rows[1..]));
      RowsReadBack(rows[1..]);
      assert [rows[0]] + rows[1..] == rows;
    }
  }

  lemma {:induction false} ReadRowsHaveAColumn(text: ByteString)
    requires ReadAll(text).Some?
    ensures forall i :: 0 <= i < |ReadAll(text).value| ==> ReadAll(text).value[i] != []
    decreases |text|
  {
    hide ReadField;
    if text != [] {
      ReadRowsHaveAColumn(ReadRecord(text).value.rest);
    }
  }

  /** Without a column a row is an empty line, which reads as one empty field. */
  lemma RowsReadBackExactlyWithColumns(rows: seq<Row>)
    ensures ReadAll(Records(rows)) == Some(rows) <==> forall i :: 0 <= i < |rows| ==> rows[i] != []
  {
    if forall i :: 0 <= i < |rows| ==> rows[i] != [] {
      RowsReadBack(rows);
    } else if ReadAll(Records(rows)).Some? {
      ReadRowsHaveAColumn(Records(rows));
    }
  }

  // ----- the header reads back exactly when no key needs quoting -----

  lemma {:induction false} RawIsShortest(text: ByteString)
    requires ReadRaw(text).Some?
    ensures var r := ReadRaw(text).value;
      |text| - |r.rest| == |r.value| && !HasSpecial(r.value)
  {
    if text[0] != ',' && text[0] != '\n' {
      RawIsShortest(text[1..]);
      var v := ReadRaw(text[1..]).value.value;
      assert forall i :: 0 < i < |v| + 1 ==> ([text[0]] + v)[i] == v[i - 1];
    }
  }

  lemma {:induction false} QuotedIsShortest(text: ByteString)
    requires ReadQuoted(text).Some?
    ensures var r := ReadQuoted(text).value; |text| - |r.rest| == |Doubled(r.value)| + 1
    decreases |text|
  {
    if text[0] != '"' {
      QuotedIsShortest(text[1..]);
      var v := ReadQuoted(text[1..]).value.value;
      assert ([text[0]] + v)[1..] == v;
    } else if |text| > 1 && text[1] == '"' {
      QuotedIsShortest(text[2..]);
      var v := ReadQuoted(text[2..]).value.value;
      assert (['"'] + v)[1..] == v;
    }
  }

  lemma {:induction false} DoubledIsLonger(s: ByteString)
    ensures |Doubled(s)| >= |s|
  {
    if s != [] {
      DoubledIsLonger(s[1..]);
    }
  }

  /** No text shorter than the printed one reads as the same field. */
  lemma FieldIsShortest(text: ByteString)
    requires ReadField(text).Some?
    ensures var r := ReadField(text).value; |text| - |r.rest| >= |Quoted(r.value)|
  {
    if text != [] && text[0] == '"' {
      QuotedIsShortest(text[1..]);
      DoubledIsLonger(ReadQuoted(text[1..]).value.value);
    } else {
      RawIsShortest(text);
    }
  }

  lemma {:induction false} RecordIsShortest(text: ByteString)
    requires ReadRecord(text).Some?
    ensures var r := ReadRecord(text).value; r.value != [] && |text| - |r.rest| >= |Bare(QuotedAll(r.value))| + 1
    decreases |text|
  {
    hide Quoted, ReadField;
    FieldIsShortest(text);
    var Read(v, rest) := ReadField(text).value;
    if rest[0] == ',' {
      RecordIsShortest(rest[1..]);
      var more := ReadRecord(rest[1..]).value.value;
      assert QuotedAll([v] + more) == [Quoted(v)] + QuotedAll(more);
      assert ([Quoted(v)] + QuotedAll(more))[1..] == QuotedAll(more);
    }
  }

  lemma {:induction false} RowsAreShortest(text: ByteString)
    requires ReadAll(text).Some?
    ensures |text| >= |Records(ReadAll(text).value)|
    decreases |text|
  {
    hide ReadRecord, Bare;
    if text != [] {
      RecordIsShortest(text);
      var rest := ReadRecord(text).value.rest;
      RowsAreShortest(rest);
      var row, rows := ReadRecord(text).value.value, ReadAll(rest).value;
      assert ([row] + rows)[1..] == rows;
    }
  }

  ghost predicate NoKeyIsSpecial(keys: Row) {
    forall i :: 0 <= i < |keys| ==> !HasSpecial(keys[i])
  }

  lemma {:induction false} QuotingLengthens(fields: Row)
    ensures |Bare(QuotedAll(fields))| >= |Bare(fields)|
    ensures !NoKeyIsSpecial(fields) ==> |Bare(QuotedAll(fields))| > |Bare(fields)|
  {
    if fields != [] {
      DoubledIsLonger(fields[0]);
      assert QuotedAll(fields)[1..] == QuotedAll(fields[1..]);
      QuotingLengthens(fields[1..]);
      if NoKeyIsSpecial(fields[1..]) && !HasSpecial(fields[0]) {
        assert forall i :: 0 < i < |fields| ==> fields[i] == fields[1..][i - 1];
      }
    }
  }

  /** The whole output, header included, reads back as the keys and the rows if
      and only if no key holds a comma, a quote or a line feed. */
  lemma OutputReadsBackExactlyWhenKeysArePlain(keys: Row, rows: seq<Row>)
    requires keys != [] && forall i :: 0 <= i < |rows| ==> rows[i] != []
    ensures ReadAll(Output(keys, rows)) == Some([keys] + rows) <==> NoKeyIsSpecial(keys)
  {
    hide Bare, Records, ReadRecord, QuotedAll;
    var text := Output(keys, rows);
    if NoKeyIsSpecial(keys) {
      PlainKeysAreUnquoted(keys);
      RecordReadsBack(keys, Records(rows));
      RowsReadBack(rows);
    } else if ReadRecord(text).Some? && ReadRecord(text).value.value == keys {
      RecordIsShortest(text);
      QuotingLengthens(keys);
      var rest := ReadRecord(text).value.rest;
      if ReadAll(rest).Some? {
        RowsAreShortest(rest);
        assert ([keys] + ReadAll(rest).value)[1..] == ReadAll(rest).value && ([keys] + rows)[1..] == rows;
      }
    } else if ReadRecord(text).Some? && ReadAll(ReadRecord(text).value.rest).Some? {
      assert ReadAll(text).value[0] == ReadRecord(text).value.value && ([keys] + rows)[0] == keys;
    }
  }

  lemma PlainKeysAreUnquoted(keys: Row)
    requires NoKeyIsSpecial(keys)
    ensures QuotedAll(keys) == keys
  {
  }

  /** A key with a comma in it prints, and reads back, as two columns. */
  lemma CommaSplitsAKey(a: ByteString, b: ByteString, rows: seq<Row>)
    requires !HasSpecial(a) && !HasSpecial(b) && forall i :: 0 <= i < |rows| ==> rows[i] != []
    ensures Output([a + [','] + b], rows) == Output([a, b], rows)
    ensures ReadAll(Output([a + [','] + b], rows)) == Some([[a, b]] + rows)
  {
    hide Records, ReadAll, HasSpecial;
    assert [a, b][1..] == [b] && Bare([b]) == b;
    assert Bare([a, b]) == a + [','] + b;
    assert Bare([a + [','] + b]) == a + [','] + b;
    OutputReadsBackExactlyWhenKeysArePlain([a, b], rows);
  }
}
