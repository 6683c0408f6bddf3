/** CSV output, and a reader for it by section 2 of RFC 4180. */
module Csv {
  import opened Wrappers
  import opened Sequences

  const CRLF := "\r\n"

  /** The texts that parse as floating-point numbers; the model does not look into that. */
  type Numbers = set<string>

  /** A cell a spreadsheet would run as a formula. */
  predicate IsFormula(numbers: Numbers, f: string) {
    f != "" && f[0] in {'=', '+', '-', '@', '\t', '\r'} && f !in numbers
  }

  function Defused(numbers: Numbers, f: string): string {
    if IsFormula(numbers, f) then "'" + f else f
  }

  predicate IsSpecial(c: char) {
    c == ',' || c == '"' || c == '\n' || c == '\r'
  }

  predicate NeedsQuotes(f: string) {
    exists i | 0 <= i < |f| :: IsSpecial(f[i])
  }

  /** Each `"` doubled. */
  function Doubled(f: string): string {
    if f == "" then "" else (if f[0] == '"' then "\"\"" else [f[0]]) + Doubled(f[1..])
  }

  function Field(f: string): string {
    if NeedsQuotes(f) then "\"" + Doubled(f) + "\"" else f
  }

  /** The fields with commas between them. */
  function Fields(numbers: Numbers, fields: seq<string>): string {
    if fields == [] then ""
    else if |fields| == 1 then Field(Defused(numbers, fields[0]))
    else Field(Defused(numbers, fields[0])) + "," + Fields(numbers, fields[1..])
  }

  /** One record. */
  function Record(numbers: Numbers, fields: seq<string>): string {
    Fields(numbers, fields) + CRLF
  }

  /** Records one after another. */
  function Records(numbers: Numbers, rows: seq<seq<string>>): string {
    if rows == [] then "" else Record(numbers, rows[0]) + Records(numbers, rows[1..])
  }

  // ---------- a reader ----------

  /** Something read, and what follows it. */
  datatype Read<T> = Read(value: T, rest: string)

  /** An escaped field behind its opening quote: up to a quote that is not doubled. */
  function ReadEscaped(s: string): (r: Option<Read<string>>)
    ensures r.Some? ==> |r.value.rest| < |s|
    decreases |s|
  {
    if s == "" then None
    else if s[0] != '"' then
      match ReadEscaped(s[1..])
      case None => None
      case Some(r) => Some(Read([s[0]] + r.value, r.rest))
    else if |s| > 1 && s[1] == '"' then
      match ReadEscaped(s[2..])
      case None => None
      case Some(r) => Some(Read("\"" + r.value, r.rest))
    else Some(Read("", s[1..]))
  }

  /** What ends a field that is not escaped. */
  predicate EndsField(c: char) {
    c in {',', '"', '\r', '\n'}
  }

  /** A field that is not escaped: everything up to a comma, a quote or a line break. */
  function ReadPlain(s: string): (r: Read<string>)
    ensures |r.rest| <= |s|
  {
    if s == "" || EndsField(s[0]) then Read("", s)
    else
      var r := ReadPlain(s[1..]);
      Read([s[0]] + r.value, r.rest)
  }

  function ReadField(s: string): (r: Option<Read<string>>)
    ensures r.Some? ==> |r.value.rest| <= |s|
  {
    if s != "" && s[0] == '"' then ReadEscaped(s[1..]) else Some(ReadPlain(s))
  }

  /** Fields separated by commas, ended by a line break; the last record of a file may do without. */
  function ReadRecord(s: string): (r: Option<Read<seq<string>>>)
    ensures r.Some? ==> r.value.rest == s == "" || |r.value.rest| < |s|
    decreases |s|
  {
    match ReadField(s)
    case None => None
    case Some(f) =>
      if f.rest == "" then Some(Read([f.value], ""))
      else if f.rest[0] == ',' then
        match ReadRecord(f.rest[1..])
        case None => None
        case Some(r) => Some(Read([f.value] + r.value, r.rest))
      else if CRLF <= f.rest then Some(Read([f.value], f.rest[2..]))
      else None
  }

  function ReadRecords(s: string): Option<seq<seq<string>>>
    decreases |s|
  {
    if s == "" then Some([])
    else
      match ReadRecord(s)
      case None => None
      case Some(r) =>
        match ReadRecords(r.rest)
        case None => None
        case Some(rows) => Some([r.value] + rows)
  }

  // ---------- round trip ----------

  lemma {:induction false} ReadDoubled(f: string, rest: string)
    requires rest == "" || rest[0] != '"'
    ensures ReadEscaped(Doubled(f) + "\"" + rest) == Some(Read(f, rest))
  {
    var s := Doubled(f) + "\"" + rest;
    if f == "" {
      assert s[1..] == rest;
    } else {
      var more := Doubled(f[1..]) + "\"" + rest;
      ReadDoubled(f[1..], rest);
      assert if f[0] == '"' then s == "\"\"" + more else s == [f[0]] + more;
      assert if f[0] == '"' then s[2..] == more else s[1..] == more;
      assert [f[0]] + f[1..] == f;
    }
  }

  lemma {:induction false} ReadUnquoted(f: string, rest: string)
    requires !NeedsQuotes(f) && rest != "" && EndsField(rest[0])
    ensures ReadPlain(f + rest) == Read(f, rest)
  {
    var s := f + rest;
    if f == "" {
      assert s == rest;
    } else {
      assert !IsSpecial(f[0]) && !EndsField(f[0]);
      assert forall i | 0 <= i < |f[1..]| :: f[1..][i] == f[i + 1];
      ReadUnquoted(f[1..], rest);
      assert s[1..] == f[1..] + rest;
      assert [f[0]] + f[1..] == f;
    }
  }

  /** A written field reads back as it was, whatever it contains. */
  lemma ReadWritten(f: string, rest: string)
    requires rest != "" && (rest[0] == ',' || rest[0] == '\r')
    ensures ReadField(Field(f) + rest) == Some(Read(f, rest))
  {
    if NeedsQuotes(f) {
      var inner := Doubled(f) + "\"" + rest;
      assert Field(f) + rest == "\"" + inner;
      assert ("\"" + inner)[1..] == inner;
      ReadDoubled(f, rest);
    } else {
      ReadUnquoted(f, rest);
      var s := f + rest;
      assert s[0] == if f != "" then f[0] else rest[0];
      assert f != "" ==> !IsSpecial(f[0]);
    }
  }

  /** What a written row reads back as: formulas defused, and an empty row as one empty field. */
  function Seen(numbers: Numbers, row: seq<string>): seq<string> {
    if row == [] then [""] else DefusedAll(numbers, row)
  }

  function DefusedAll(numbers: Numbers, row: seq<string>): (r: seq<string>)
    ensures |r| == |row|
  {
    if row == [] then [] else [Defused(numbers, row[0])] + DefusedAll(numbers, row[1..])
  }

  function SeenAll(numbers: Numbers, rows: seq<seq<string>>): (r: seq<seq<string>>)
    ensures |r| == |rows|
  {
    if rows == [] then [] else [Seen(numbers, rows[0])] + SeenAll(numbers, rows[1..])
  }

  lemma ReadLastField(f: string, rest: string)
    ensures ReadRecord(Field(f) + (CRLF + rest)) == Some(Read([f], rest))
  {
    var end := CRLF + rest;
    assert end[0] == '\r' && CRLF <= end && end[2..] == rest;
    ReadWritten(f, end);
  }

  lemma ReadNextField(f: string, more: string)
    requires ReadRecord(more).Some?
    ensures var r := ReadRecord(more).value;
      ReadRecord(Field(f) + ("," + more)) == Some(Read([f] + r.value, r.rest))
  {
    var end := "," + more;
    assert end[0] == ',' && end[1..] == more;
    ReadWritten(f, end);
  }

  /** A record is its first field, and then the line break or a comma and the record of the other fields. */
  lemma RecordShape(numbers: Numbers, row: seq<string>, rest: string)
    ensures var f := if row == [] then "" else Defused(numbers, row[0]);
      Record(numbers, row) + rest
      == if |row| > 1 then Field(f) + ("," + (Record(numbers, row[1..]) + rest)) else Field(f) + (CRLF + rest)
  {
    if |row| > 1 {
      var a, b, c := Field(Defused(numbers, row[0])), Fields(numbers, row[1..]), CRLF + rest;
      assert Record(numbers, row) + rest == a + "," + b + c;
      assert Record(numbers, row[1..]) + rest == b + c;
    }
  }

  lemma {:induction false} ReadRow(numbers: Numbers, row: seq<string>, rest: string)
    ensures ReadRecord(Record(numbers, row) + rest) == Some(Read(Seen(numbers, row), rest))
    decreases |row|
  {
    RecordShape(numbers, row, rest);
    if |row| > 1 {
      ReadRow(numbers, row[1..], rest);
      ReadNextField(Defused(numbers, row[0]), Record(numbers, row[1..]) + rest);
    } else {
      var f := if row == [] then "" else Defused(numbers, row[0]);
      ReadLastField(f, rest);
      assert |row| == 1 ==> DefusedAll(numbers, row[1..]) == [];
      assert Seen(numbers, row) == [f];
    }
  }

  /** Reading written records gives the rows back. */
  lemma {:induction false} ReadWrittenRecords(numbers: Numbers, rows: seq<seq<string>>)
    ensures ReadRecords(Records(numbers, rows)) == Some(SeenAll(numbers, rows))
  {
    if rows != [] {
      ReadRow(numbers, rows[0], Records(numbers, rows[1..]));
      ReadWrittenRecords(numbers, rows[1..]);
    }
  }

  function DefusedRows(numbers: Numbers, rows: seq<seq<string>>): (r: seq<seq<string>>)
    ensures |r| == |rows|
  {
    if rows == [] then [] else [DefusedAll(numbers, rows[0])] + DefusedRows(numbers, rows[1..])
  }

  lemma {:induction false} SeenOrDefused(numbers: Numbers, rows: seq<seq<string>>)
    ensures SeenAll(numbers, rows) == DefusedRows(numbers, rows) <==> forall i | 0 <= i < |rows| :: rows[i] != []
  {
    if rows != [] {
      var rest := rows[1..];
      SeenOrDefused(numbers, rest);
      assert forall i | 0 < i < |rows| :: rows[i] == rest[i - 1];
      var a, b := SeenAll(numbers, rows), DefusedRows(numbers, rows);
      assert a[1..] == SeenAll(numbers, rest) && b[1..] == DefusedRows(numbers, rest);
      assert a[0] == b[0] <==> rows[0] != [];
      assert a == [a[0]] + a[1..] && b == [b[0]] + b[1..];
    }
  }

  /** CSV round trip: the rows come back, formulas defused, exactly when none of them is empty. */
  lemma RoundTripExactlyWhen(numbers: Numbers, rows: seq<seq<string>>)
    ensures ReadRecords(Records(numbers, rows)) == Some(DefusedRows(numbers, rows))
      <==> forall i | 0 <= i < |rows| :: rows[i] != []
  {
    ReadWrittenRecords(numbers, rows);
    SeenOrDefused(numbers, rows);
  }

  // ---------- structured data ----------

  /** A JSON value; `text` is its compact form, which the model does not look into. */
  datatype Json =
    | Null
    | Scalar(text: string)
    | Text(value: string)
    | Array(items: seq<Json>, text: string)
    | Object(members: seq<(string, Json)>, text: string)

  function Cell(v: Json): string {
    match v
    case Null => ""
    case Text(s) => s
    case Scalar(text) => text
    case Array(_, text) => text
    case Object(_, text) => text
  }

  function Items(v: Json): seq<Json> {
    match v
    case Array(items, _) => items
    case Null => []
    case _ => [v]
  }

  function Keys(v: Json): seq<string> {
    if v.Object? then KeysOf(v.members) else []
  }

  function KeysOf(members: seq<(string, Json)>): seq<string> {
    if members == [] then [] else [members[0].0] + KeysOf(members[1..])
  }

  function Member(members: seq<(string, Json)>, key: string): Option<Json> {
    if members == [] then None else if members[0].0 == key then Some(members[0].1) else Member(members[1..], key)
  }

  /** The cell for a column: the value of that key, or nothing. */
  function CellFor(v: Json, key: string): string {
    if v.Object? && Member(v.members, key).Some? then Cell(Member(v.members, key).value) else ""
  }

  /** The keys of all items, one after another. */
  function AllKeys(items: seq<Json>): seq<string> {
    if items == [] then [] else Keys(items[0]) + AllKeys(items[1..])
  }

  /** `seen`, then each key that is not there yet. */
  function FirstSeen(seen: seq<string>, keys: seq<string>): seq<string>
    decreases |keys|
  {
    if keys == [] then seen
    else FirstSeen(if keys[0] in seen then seen else seen + [keys[0]], keys[1..])
  }

  function Row(v: Json, cols: seq<string>): seq<string> {
    if cols == [] then [] else [CellFor(v, cols[0])] + Row(v, cols[1..])
  }

  function Rows(items: seq<Json>, cols: seq<string>): seq<seq<string>> {
    if items == [] then [] else [Row(items[0], cols)] + Rows(items[1..], cols)
  }

  function SingleCells(items: seq<Json>): seq<seq<string>> {
    if items == [] then [] else [[Cell(items[0])]] + SingleCells(items[1..])
  }

  predicate AllObjects(items: seq<Json>) {
    forall i | 0 <= i < |items| :: items[i].Object?
  }

  /** The table a value is written as: header and rows. */
  function TableOf(v: Json): seq<seq<string>> {
    var items := Items(v);
    if items == [] then []
    else if !AllObjects(items) then [["value"]] + SingleCells(items)
    else
      var cols := FirstSeen([], AllKeys(items));
      [cols] + Rows(items, cols)
  }

  lemma {:induction false} RecordsSnoc(numbers: Numbers, rows: seq<seq<string>>, row: seq<string>)
    ensures Records(numbers, rows + [row]) == Records(numbers, rows) + Record(numbers, row)
  {
    if rows == [] {
      assert rows + [row] == [row] && [row][1..] == [];
      assert Record(numbers, row) + "" == Record(numbers, row);
    } else {
      RecordsSnoc(numbers, rows[1..], row);
      assert (rows + [row])[1..] == rows[1..] + [row];
      Associative(Record(numbers, rows[0]), Records(numbers, rows[1..]), Record(numbers, row));
    }
  }

  /** Push each key that is not there yet. */
  method AddKeys(seen: seq<string>, keys: seq<string>) returns (cols: seq<string>)
    ensures cols == FirstSeen(seen, keys)
  {
    cols := seen;
    var left := keys;
    while left != []
      invariant FirstSeen(cols, left) == FirstSeen(seen, keys)
      decreases |left|
    {
      if left[0] !in cols {
        cols := cols + [left[0]];
      }
      left := left[1..];
    }
  }

  lemma {:induction false} FirstSeenConcat(seen: seq<string>, a: seq<string>, b: seq<string>)
    ensures FirstSeen(seen, a + b) == FirstSeen(FirstSeen(seen, a), b)
    decreases |a|
  {
    if a == [] {
      assert a + b == b;
    } else {
      assert (a + b)[1..] == a[1..] + b;
      FirstSeenConcat(if a[0] in seen then seen else seen + [a[0]], a[1..], b);
    }
  }

  /** The columns, in the order their keys first come up. */
  method Columns(items: seq<Json>) returns (cols: seq<string>)
    ensures cols == FirstSeen([], AllKeys(items))
  {
    cols := [];
    var left := items;
    while left != []
      invariant FirstSeen(cols, AllKeys(left)) == FirstSeen([], AllKeys(items))
      decreases |left|
    {
      FirstSeenConcat(cols, Keys(left[0]), AllKeys(left[1..]));
      cols := AddKeys(cols, Keys(left[0]));
      left := left[1..];
    }
  }

  /** CSV for structured data. */
  method FromValue(numbers: Numbers, v: Json) returns (out: string)
    ensures out == Records(numbers, TableOf(v))
  {
    var items := Items(v);
    if items == [] {
      return "";
    }
    ghost var table;
    if !AllObjects(items) {
      out := Record(numbers, ["value"]);
      table := [["value"]];
      RecordsSnoc(numbers, [], ["value"]);
      var left := items;
      while left != []
        invariant out == Records(numbers, table) && table + SingleCells(left) == TableOf(v)
        decreases |left|
      {
        RecordsSnoc(numbers, table, [Cell(left[0])]);
        Associative(table, [[Cell(left[0])]], SingleCells(left[1..]));
        out := out + Record(numbers, [Cell(left[0])]);
        table := table + [[Cell(left[0])]];
        left := left[1..];
      }
      assert table + [] == table;
      return;
    }
    var cols := Columns(items);
    out := Record(numbers, cols);
    table := [cols];
    RecordsSnoc(numbers, [], cols);
    var left := items;
    while left != []
      invariant out == Records(numbers, table) && table + Rows(left, cols) == TableOf(v)
      decreases |left|
    {
      var cells := Row(left[0], cols);
      RecordsSnoc(numbers, table, cells);
      Associative(table, [cells], Rows(left[1..], cols));
      out := out + Record(numbers, cells);
      table := table + [cells];
      left := left[1..];
    }
    assert table + [] == table;
  }

  // ---------- what the table is ----------

  lemma {:induction false} FirstSeenIs(seen: seq<string>, keys: seq<string>)
    requires forall i, j | 0 <= i < j < |seen| :: seen[i] != seen[j]
    ensures var r := FirstSeen(seen, keys);
      && (forall i, j | 0 <= i < j < |r| :: r[i] != r[j])
      && (forall k :: k in r <==> k in seen || k in keys)
      && seen <= r
    decreases |keys|
  {
    if keys != [] {
      FirstSeenIs(if keys[0] in seen then seen else seen + [keys[0]], keys[1..]);
    }
  }

  /** The columns of the first items come first: keys are in the order they first come up. */
  lemma FirstSeenOrder(front: seq<string>, back: seq<string>)
    ensures FirstSeen([], front) <= FirstSeen([], front + back)
  {
    FirstSeenConcat([], front, back);
    FirstSeenIs([], front);
    FirstSeenIs(FirstSeen([], front), back);
  }

  lemma {:induction false} RowIs(v: Json, cols: seq<string>)
    ensures |Row(v, cols)| == |cols|
    ensures forall c | 0 <= c < |cols| :: Row(v, cols)[c] == CellFor(v, cols[c])
  {
    if cols != [] {
      RowIs(v, cols[1..]);
    }
  }

  lemma {:induction false} RowsAre(items: seq<Json>, cols: seq<string>)
    ensures |Rows(items, cols)| == |items|
    ensures forall r | 0 <= r < |items| :: Rows(items, cols)[r] == Row(items[r], cols)
  {
    if items != [] {
      RowsAre(items[1..], cols);
    }
  }

  /** A list of objects is written as a rectangular table: the header has each key once, in the order they first come up,
      and the cell of row r in column c is the value of that key in object r. */
  lemma TableIsRectangular(v: Json)
    requires Items(v) != [] && AllObjects(Items(v))
    ensures var items, table := Items(v), TableOf(v);
      var cols, rows := table[0], table[1..];
      && |rows| == |items|
      && (forall i, j | 0 <= i < j < |cols| :: cols[i] != cols[j])
      && (forall k :: k in cols <==> k in AllKeys(items))
      && (forall r | 0 <= r < |rows| :: |rows[r]| == |cols|)
      && (forall r, c | 0 <= r < |rows| && 0 <= c < |cols| :: rows[r][c] == CellFor(items[r], cols[c]))
  {
    var items := Items(v);
    var cols := FirstSeen([], AllKeys(items));
    FirstSeenIs([], AllKeys(items));
    assert TableOf(v)[0] == cols && TableOf(v)[1..] == Rows(items, cols);
    CellsAre(items, cols);
  }

  lemma CellsAre(items: seq<Json>, cols: seq<string>)
    ensures var rows := Rows(items, cols);
      && |rows| == |items|
      && (forall r | 0 <= r < |rows| :: |rows[r]| == |cols|)
      && (forall r, c | 0 <= r < |rows| && 0 <= c < |cols| :: rows[r][c] == CellFor(items[r], cols[c]))
  {
    RowsAre(items, cols);
    forall r | 0 <= r < |items| ensures |Row(items[r], cols)| == |cols|
      && forall c | 0 <= c < |cols| :: Row(items[r], cols)[c] == CellFor(items[r], cols[c])
    {
      RowIs(items[r], cols);
    }
  }

  /** The written table reads back exactly when it has columns: not from objects without any keys. */
  lemma TableReadsBackExactlyWhen(numbers: Numbers, v: Json)
    requires Items(v) != []
    ensures ReadRecords(Records(numbers, TableOf(v))) == Some(DefusedRows(numbers, TableOf(v)))
      <==> (AllObjects(Items(v)) ==> AllKeys(Items(v)) != [])
  {
    var items, table := Items(v), TableOf(v);
    RoundTripExactlyWhen(numbers, table);
    if AllObjects(items) {
      TableIsRectangular(v);
      if AllKeys(items) == [] {
        assert table[0] == [];
      } else {
        assert AllKeys(items)[0] in table[0];
        assert forall i | 0 < i < |table| :: table[i] == table[1..][i - 1];
      }
    } else {
      SinglesAre(items);
    }
  }

  lemma {:induction false} SinglesAre(items: seq<Json>)
    ensures |SingleCells(items)| == |items|
    ensures forall r | 0 <= r < |items| :: SingleCells(items)[r] == [Cell(items[r])]
  {
    if items != [] {
      SinglesAre(items[1..]);
    }
  }

  // ---------- what is written ----------

  /** A cell is defused with a `'` in front exactly when it starts like a formula and is not a number. */
  lemma DefusedExactlyWhen(numbers: Numbers, f: string)
    ensures Defused(numbers, f) == if f != "" && f[0] in "=+-@\t\r" && f !in numbers then "'" + f else f
  {
  }

  /** A field is quoted exactly when it holds a comma, a quote or a line break character. */
  lemma QuotedExactlyWhen(f: string)
    ensures (exists i :: 0 <= i < |f| && f[i] in ",\"\n\r") <==> Field(f) != f
    ensures Field(f) != f ==> Field(f) == "\"" + Doubled(f) + "\""
  {
    forall i | 0 <= i < |f| ensures IsSpecial(f[i]) <==> f[i] in ",\"\n\r" {
    }
    DoubledLength(f);
  }

  lemma {:induction false} DoubledLength(f: string)
    ensures |Doubled(f)| >= |f|
  {
    if f != "" {
      DoubledLength(f[1..]);
    }
  }

  /** Fields are joined by commas and a record ends with CR LF. */
  lemma RecordIs(numbers: Numbers, a: string, b: string)
    ensures Record(numbers, []) == "\r\n" && Record(numbers, [a]) == Field(Defused(numbers, a)) + "\r\n"
    ensures Record(numbers, [a, b]) == Field(Defused(numbers, a)) + "," + Field(Defused(numbers, b)) + "\r\n"
  {
    assert [a, b][1..] == [b];
    var x, y := Field(Defused(numbers, a)), Field(Defused(numbers, b));
    assert Fields(numbers, [b]) == y && Fields(numbers, [a, b]) == x + "," + y;
    assert "" + CRLF == CRLF;
  }

  lemma QuotedFieldsExample()
    ensures Field("a,b") == "\"a,b\"" && Field("c\"d") == "\"c\"\"d\""
  {
    assert "a,b"[1] == ',' && "c\"d"[1] == '"';
    assert "a,b"[1..] == ",b" && ",b"[1..] == "b" && "b"[1..] == "";
    assert Doubled("b") == "b" && Doubled(",b") == ",b" && Doubled("a,b") == "a,b";
    assert "c\"d"[1..] == "\"d" && "\"d"[1..] == "d" && "d"[1..] == "";
    assert Doubled("d") == "d" && Doubled("\"d") == "\"\"d" && Doubled("c\"d") == "c\"\"d";
  }

  /** Nothing for `null`, a string as it is, anything else as compact JSON. */
  lemma CellsOf(s: string, text: string, items: seq<Json>, members: seq<(string, Json)>)
    ensures Cell(Null) == "" && Cell(Text(s)) == s && Cell(Scalar(text)) == text
    ensures Cell(Array(items, text)) == text && Cell(Object(members, text)) == text
  {
  }

  /** The cell of an object for a key: its first member of that name, or nothing. */
  lemma {:induction false} CellForIs(members: seq<(string, Json)>, text: string, key: string, k: nat)
    requires k <= |members| && forall j | 0 <= j < k :: members[j].0 != key
    requires k < |members| ==> members[k].0 == key
    ensures CellFor(Object(members, text), key) == if k < |members| then Cell(members[k].1) else ""
    decreases k
  {
    if k > 0 {
      CellForIs(members[1..], text, key, k - 1);
    }
  }

  /** Nothing is written for nothing; values of which one is no object make one column; one value is a list of one. */
  lemma TablesOf(v: Json, items: seq<Json>, text: string)
    ensures TableOf(Null) == [] && TableOf(Array([], text)) == []
    ensures !v.Array? && !v.Null? ==> TableOf(v) == TableOf(Array([v], text))
    ensures items != [] && !AllObjects(items) ==>
      var table := TableOf(Array(items, text));
      && |table| == |items| + 1 && table[0] == ["value"]
      && forall r | 0 <= r < |items| :: table[r + 1] == [Cell(items[r])]
  {
    SinglesAre(items);
  }

  /** The keys of a list of objects: those of each, one after another. */
  lemma {:induction false} KeysAre(members: seq<(string, Json)>, text: string, rest: seq<Json>)
    ensures |KeysOf(members)| == |members| && forall i | 0 <= i < |members| :: KeysOf(members)[i] == members[i].0
    ensures AllKeys([Object(members, text)] + rest) == KeysOf(members) + AllKeys(rest)
  {
    assert ([Object(members, text)] + rest)[1..] == rest;
    if members != [] {
      KeysAre(members[1..], text, rest);
    }
  }
}
