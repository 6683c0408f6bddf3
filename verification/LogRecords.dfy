/** Records of one day's file: headers with their continuation lines, forwards and backwards. */
module LogRecords {
  import opened Wrappers
  import opened Sequences
  import opened Bytes
  import opened LogLines
  import opened Cursor

  datatype Event = Event(ts: string, level: string, target: string, message: string, fields: Option<string>, spans: seq<string>)

  datatype Record = Record(id: string, event: Event)

  /** A record with the offset of its first line. */
  datatype Entry = Entry(offset: nat, record: Record)

  /** One day's log: the JSON twin when there is one, else the human log. */
  datatype DayFile = DayFile(date: string, content: seq<byte>, json: bool)

  /** The decoders of single lines; every result below holds for any of them. */
  datatype Parsers = Parsers(decode: Table<seq<byte>, string>, json: Table<string, Event>, header: Table<string, Event>)

  function TrimEndCr(s: string): string {
    if s != [] && s[|s| - 1] == '\r' then TrimEndCr(s[..|s| - 1]) else s
  }

  function Text(p: Parsers, line: Line): string {
    TrimEndCr(Find(p.decode, line.text).GetOr(""))
  }

  /** The event a line starts: always its own in the JSON form, only for a header in the human form. */
  function Starts(p: Parsers, day: DayFile, line: Line): Option<Event> {
    Find(if day.json then p.json else p.header, Text(p, line))
  }

  /** `message` with each line of `extra` below it. */
  function Append(message: string, extra: seq<string>): string
    decreases |extra|
  {
    if extra == [] then message else Append(message + "\n" + extra[0], extra[1..])
  }

  function MakeEntry(day: DayFile, line: Line, event: Event, extra: seq<string>): Entry {
    var e := if day.json then event else event.(message := Append(event.message, extra));
    Entry(line.offset, Record(FormatId(day.date, line.offset), e))
  }

  function Texts(p: Parsers, lines: seq<Line>): seq<string> {
    seq(|lines|, i requires 0 <= i < |lines| => Text(p, lines[i]))
  }

  /** How many lines at the front start no record. */
  function Run(p: Parsers, day: DayFile, lines: seq<Line>): (n: nat)
    ensures n <= |lines|
  {
    if lines == [] || Starts(p, day, lines[0]).Some? then 0 else 1 + Run(p, day, lines[1..])
  }

  /** The simple form: each header takes the lines up to the next one; lines above the first header are dropped. */
  function ForwardRecords(p: Parsers, day: DayFile, lines: seq<Line>): seq<Entry> {
    if lines == [] then []
    else
      match Starts(p, day, lines[0])
      case None => ForwardRecords(p, day, lines[1..])
      case Some(event) =>
        var n := Run(p, day, lines[1..]);
        [MakeEntry(day, lines[0], event, Texts(p, lines[1..1 + n]))] + ForwardRecords(p, day, lines[1..])
  }

  /** The last record of `day.content[..end]`, given the continuation lines already met below, last first. */
  function LastRecord(p: Parsers, day: DayFile, end: nat, pending: seq<string>): (r: Option<Entry>)
    requires end <= |day.content|
    ensures r.Some? ==> r.value.offset < end && r.value.record.id == FormatId(day.date, r.value.offset)
    decreases end
  {
    match LastLine(day.content, end)
    case None => None
    case Some(line) =>
      match Starts(p, day, line)
      case Some(event) => Some(MakeEntry(day, line, event, Reverse(pending)))
      case None => LastRecord(p, day, line.offset, if day.json then pending else pending + [Text(p, line)])
  }

  /** The records of `day.content[..end]` from the last to the first. */
  function BackRecords(p: Parsers, day: DayFile, end: nat): seq<Entry>
    requires end <= |day.content|
  {
    match LastRecord(p, day, end, [])
    case None => []
    case Some(e) => [e] + BackRecords(p, day, e.offset)
  }

  /** The order the reader meets a run of continuation lines in. */
  function Pending(p: Parsers, day: DayFile, run: seq<Line>): seq<string> {
    if day.json then [] else Reverse(Texts(p, run))
  }

  lemma {:induction false} ReverseTwice<T>(s: seq<T>)
    ensures Reverse(Reverse(s)) == s
  {
    if s != [] {
      ReverseConcat(Reverse(s[1..]), [s[0]]);
      ReverseTwice(s[1..]);
    }
  }

  /** No line of the run starts a record. */
  ghost predicate IsRun(p: Parsers, day: DayFile, run: seq<Line>) {
    forall i | 0 <= i < |run| :: Starts(p, day, run[i]).None?
  }

  lemma {:induction false} RunAlone(p: Parsers, day: DayFile, run: seq<Line>)
    requires IsRun(p, day, run)
    ensures Run(p, day, run) == |run|
    ensures ForwardRecords(p, day, run) == []
  {
    if run != [] {
      RunAlone(p, day, run[1..]);
    }
  }

  lemma {:induction false} RunStops(p: Parsers, day: DayFile, a: seq<Line>, h: Line, b: seq<Line>)
    requires Starts(p, day, h).Some?
    ensures Run(p, day, a + [h] + b) == Run(p, day, a)
  {
    var all := a + [h] + b;
    if a != [] {
      assert all[1..] == a[1..] + [h] + b;
      RunStops(p, day, a[1..], h, b);
    }
  }

  /** A header cuts the simple form in two. */
  lemma {:induction false} ForwardRecordsSplit(p: Parsers, day: DayFile, a: seq<Line>, h: Line, b: seq<Line>)
    requires Starts(p, day, h).Some?
    ensures ForwardRecords(p, day, a + [h] + b) == ForwardRecords(p, day, a) + ForwardRecords(p, day, [h] + b)
  {
    var all := a + [h] + b;
    if a == [] {
      assert all == [h] + b;
    } else {
      assert all[1..] == a[1..] + [h] + b;
      var below, rest := ForwardRecords(p, day, a[1..]), ForwardRecords(p, day, [h] + b);
      assert ForwardRecords(p, day, all[1..]) == below + rest by {
        ForwardRecordsSplit(p, day, a[1..], h, b);
      }
      if Starts(p, day, a[0]).Some? {
        RunStops(p, day, a[1..], h, b);
        var n := Run(p, day, a[1..]);
        assert all[1..1 + n] == a[1..1 + n];
        var one := [MakeEntry(day, a[0], Starts(p, day, a[0]).value, Texts(p, a[1..1 + n]))];
        assert ForwardRecords(p, day, all) == one + (below + rest);
        Associative(one, below, rest);
      }
    }
  }

  /** A header followed by a run is one record. */
  lemma OneRecord(p: Parsers, day: DayFile, h: Line, run: seq<Line>)
    requires Starts(p, day, h).Some? && IsRun(p, day, run)
    ensures ForwardRecords(p, day, [h] + run) == [MakeEntry(day, h, Starts(p, day, h).value, Reverse(Pending(p, day, run)))]
  {
    var all := [h] + run;
    assert all[1..] == run && all[1..1 + |run|] == run;
    RunAlone(p, day, run);
    ReverseTwice(Texts(p, run));
  }

  /** A header and its run, below everything above. */
  lemma HeaderBelow(p: Parsers, day: DayFile, above: seq<Line>, h: Line, run: seq<Line>)
    requires Starts(p, day, h).Some? && IsRun(p, day, run)
    ensures ForwardRecords(p, day, above + [h] + run) ==
      ForwardRecords(p, day, above) + [MakeEntry(day, h, Starts(p, day, h).value, Reverse(Pending(p, day, run)))]
  {
    ForwardRecordsSplit(p, day, above, h, run);
    OneRecord(p, day, h, run);
  }

  /** One more line on top of a run that is being gathered. */
  lemma PendingGrows(p: Parsers, day: DayFile, line: Line, run: seq<Line>)
    ensures Pending(p, day, [line] + run) == if day.json then [] else Pending(p, day, run) + [Text(p, line)]
  {
    assert Texts(p, [line] + run) == [Text(p, line)] + Texts(p, run);
  }

  /** A line without a header joins the run below it. */
  lemma RunGrows(p: Parsers, day: DayFile, above: seq<Line>, line: Line, run: seq<Line>)
    requires Starts(p, day, line).None? && IsRun(p, day, run)
    ensures above + [line] + run == above + ([line] + run) && IsRun(p, day, [line] + run)
    ensures Pending(p, day, [line] + run) == if day.json then [] else Pending(p, day, run) + [Text(p, line)]
  {
    PendingGrows(p, day, line, run);
  }

  /** Gathering a run from below and then finding its header is one step of the simple form. */
  lemma {:induction false} LastOfForwardRecords(p: Parsers, day: DayFile, end: nat, run: seq<Line>)
    requires end <= |day.content| && IsRun(p, day, run)
    ensures ForwardRecords(p, day, ForwardLines(day.content, 0, end) + run) ==
      match LastRecord(p, day, end, Pending(p, day, run))
      case None => []
      case Some(e) => ForwardRecords(p, day, ForwardLines(day.content, 0, e.offset)) + [e]
    decreases end
  {
    LastOfForward(day.content, end);
    match LastLine(day.content, end)
    case None =>
      RunAlone(p, day, run);
      assert [] + run == run;
    case Some(line) =>
      var above := ForwardLines(day.content, 0, line.offset);
      if Starts(p, day, line).Some? {
        HeaderBelow(p, day, above, line, run);
      } else {
        RunGrows(p, day, above, line, run);
        LastOfForwardRecords(p, day, line.offset, [line] + run);
      }
  }

  /** Assembling records backwards gives the forward records in reverse. */
  lemma {:induction false} BackRecordsAreForwardReversed(p: Parsers, day: DayFile, end: nat)
    requires end <= |day.content|
    ensures BackRecords(p, day, end) == Reverse(ForwardRecords(p, day, ForwardLines(day.content, 0, end)))
    decreases end
  {
    LastOfForwardRecords(p, day, end, []);
    var lines := ForwardLines(day.content, 0, end);
    assert lines + [] == lines;
    assert Pending(p, day, []) == [];
    match LastRecord(p, day, end, [])
    case None =>
    case Some(e) =>
      BackRecordsAreForwardReversed(p, day, e.offset);
      ReverseConcat(ForwardRecords(p, day, ForwardLines(day.content, 0, e.offset)), [e]);
  }

  /** The reader's position only matters through the last line before it. */
  lemma SameLastRecord(p: Parsers, day: DayFile, a: nat, b: nat, pending: seq<string>)
    requires a <= |day.content| && b <= |day.content|
    requires LastLine(day.content, a) == LastLine(day.content, b)
    ensures LastRecord(p, day, a, pending) == LastRecord(p, day, b, pending)
  {
  }

  /** Bytes at or after `end` play no part. */
  lemma {:induction false} LastRecordPrefix(p: Parsers, a: DayFile, b: DayFile, end: nat, pending: seq<string>)
    requires a.date == b.date && a.json == b.json
    requires end <= |a.content| && end <= |b.content| && a.content[..end] == b.content[..end]
    ensures LastRecord(p, a, end, pending) == LastRecord(p, b, end, pending)
    decreases end
  {
    LastLinePrefix(a.content, b.content, end);
    match LastLine(a.content, end)
    case None =>
    case Some(line) =>
      assert a.content[..line.offset] == a.content[..end][..line.offset] == b.content[..line.offset];
      if Starts(p, a, line).None? {
        LastRecordPrefix(p, a, b, line.offset, if a.json then pending else pending + [Text(p, line)]);
      }
  }

  lemma {:induction false} BackRecordsPrefix(p: Parsers, a: DayFile, b: DayFile, end: nat)
    requires a.date == b.date && a.json == b.json
    requires end <= |a.content| && end <= |b.content| && a.content[..end] == b.content[..end]
    ensures BackRecords(p, a, end) == BackRecords(p, b, end)
    decreases end
  {
    LastRecordPrefix(p, a, b, end, []);
    match LastRecord(p, a, end, [])
    case None =>
    case Some(e) =>
      assert a.content[..e.offset] == a.content[..end][..e.offset] == b.content[..e.offset];
      BackRecordsPrefix(p, a, b, e.offset);
  }

  // ---------- what a record holds ----------

  /** Where line `k` of `extra` is joined to the message. */
  function JoinedAt(message: string, extra: seq<string>, k: nat): nat
    requires k <= |extra|
  {
    if k == 0 then |message| else JoinedAt(message, extra, k - 1) + 1 + |extra[k - 1]|
  }

  /** The message first, then each further line behind a line feed, in order. */
  ghost predicate IsJoined(r: string, message: string, extra: seq<string>) {
    && message <= r && |r| == JoinedAt(message, extra, |extra|)
    && forall k | 0 <= k < |extra| :: LineJoined(r, JoinedAt(message, extra, k), extra[k])
  }

  predicate LineJoined(r: string, at: nat, line: string) {
    at + 1 + |line| <= |r| && r[at] == '\n' && r[at + 1..at + 1 + |line|] == line
  }

  lemma {:induction false} JoinedLater(message: string, extra: seq<string>, k: nat)
    requires 0 < k <= |extra|
    ensures JoinedAt(message, extra, k) == JoinedAt(message + "\n" + extra[0], extra[1..], k - 1)
  {
    if k > 1 {
      JoinedLater(message, extra, k - 1);
    }
  }

  lemma FirstJoined(r: string, message: string, line: string)
    requires message + "\n" + line <= r
    ensures message <= r && LineJoined(r, |message|, line)
  {
    var more := message + "\n" + line;
    assert more == r[..|more|];
    assert more[..|message|] == message && more[|message|] == '\n' && more[|message| + 1..] == line;
    assert r[|message| + 1..|message| + 1 + |line|] == more[|message| + 1..];
  }

  lemma {:induction false} AppendStarts(message: string, extra: seq<string>)
    ensures message <= Append(message, extra) && |Append(message, extra)| == JoinedAt(message, extra, |extra|)
    decreases |extra|
  {
    if extra != [] {
      AppendStarts(message + "\n" + extra[0], extra[1..]);
      JoinedLater(message, extra, |extra|);
    }
  }

  lemma {:induction false} LineIsJoined(message: string, extra: seq<string>, k: nat)
    requires k < |extra|
    ensures LineJoined(Append(message, extra), JoinedAt(message, extra, k), extra[k])
    decreases |extra|
  {
    var more := message + "\n" + extra[0];
    if k > 0 {
      LineIsJoined(more, extra[1..], k - 1);
      JoinedLater(message, extra, k);
    } else {
      AppendStarts(more, extra[1..]);
      FirstJoined(Append(message, extra), message, extra[0]);
    }
  }

  lemma AppendIsJoined(message: string, extra: seq<string>)
    ensures IsJoined(Append(message, extra), message, extra)
  {
    AppendStarts(message, extra);
    forall k | 0 <= k < |extra| ensures LineJoined(Append(message, extra), JoinedAt(message, extra, k), extra[k]) {
      LineIsJoined(message, extra, k);
    }
  }

  lemma AppendExample()
    ensures Append("a", ["b", "c"]) == "a\nb\nc"
  {
    assert ["b", "c"][1..] == ["c"] && ["c"][1..] == [];
    assert Append("a\nb", ["c"]) == "a\nb\nc";
  }

  /** Trailing carriage returns go, all of them, and nothing else. */
  lemma {:induction false} TrimEndCrIs(s: string)
    ensures var t := TrimEndCr(s);
      && t <= s && (t == "" || t[|t| - 1] != '\r') && forall k | |t| <= k < |s| :: s[k] == '\r'
  {
    if s != [] && s[|s| - 1] == '\r' {
      TrimEndCrIs(s[..|s| - 1]);
      assert forall k | 0 <= k < |s| - 1 :: s[..|s| - 1][k] == s[k];
    }
  }

  /** How many of the first `n` lines start a record. */
  function Headers(p: Parsers, day: DayFile, lines: seq<Line>, n: nat): nat
    requires n <= |lines|
    decreases n
  {
    if n == 0 then 0 else Headers(p, day, lines, n - 1) + if Starts(p, day, lines[n - 1]).Some? then 1 else 0
  }

  lemma {:induction false} HeadersTail(p: Parsers, day: DayFile, lines: seq<Line>, n: nat)
    requires 0 < n <= |lines|
    ensures Headers(p, day, lines, n) == (if Starts(p, day, lines[0]).Some? then 1 else 0) + Headers(p, day, lines[1..], n - 1)
    decreases n
  {
    if n > 1 {
      HeadersTail(p, day, lines, n - 1);
      assert lines[1..][n - 2] == lines[n - 1];
    }
  }

  lemma {:induction false} RunIs(p: Parsers, day: DayFile, lines: seq<Line>, n: nat)
    requires n <= |lines| && IsRun(p, day, lines[..n]) && (n < |lines| ==> Starts(p, day, lines[n]).Some?)
    ensures Run(p, day, lines) == n
  {
    if n > 0 {
      assert Starts(p, day, lines[0]).None? by { assert lines[..n][0] == lines[0]; }
      var front, all := lines[1..][..n - 1], lines[..n];
      assert front == all[1..];
      RunIs(p, day, lines[1..], n - 1);
    }
  }

  /** The record of the header at `i`, whose run ends at `j`: its place among the records is that of the header among the
      headers; a JSON record is what its line says; a human one has the lines of its run below its message. */
  ghost predicate IsRecordOf(p: Parsers, day: DayFile, lines: seq<Line>, i: nat, j: nat, e: Entry)
    requires i < j <= |lines| && Starts(p, day, lines[i]).Some?
  {
    var event := Starts(p, day, lines[i]).value;
    && e.offset == lines[i].offset && e.record.id == day.date + "@" + Decimal(lines[i].offset)
    && if day.json then e.record.event == event
       else
         && e.record.event == event.(message := e.record.event.message)
         && IsJoined(e.record.event.message, event.message, Texts(p, lines[i + 1..j]))
  }

  lemma FirstRecordIs(p: Parsers, day: DayFile, lines: seq<Line>, j: nat)
    requires 0 < j <= |lines| && Starts(p, day, lines[0]).Some?
    requires IsRun(p, day, lines[1..j]) && (j < |lines| ==> Starts(p, day, lines[j]).Some?)
    ensures var r := ForwardRecords(p, day, lines);
      |r| > 0 && IsRecordOf(p, day, lines, 0, j, r[0])
  {
    assert lines[1..][..j - 1] == lines[1..j];
    RunIs(p, day, lines[1..], j - 1);
    AppendIsJoined(Starts(p, day, lines[0]).value.message, Texts(p, lines[1..j]));
  }

  /** Without the first line, the same records from there on. */
  lemma LaterRecord(p: Parsers, day: DayFile, lines: seq<Line>, i: nat, j: nat)
    requires 0 < i < j <= |lines|
    ensures var rest := lines[1..];
      && rest[i - 1] == lines[i] && rest[i..j - 1] == lines[i + 1..j] && (j < |lines| ==> rest[j - 1] == lines[j])
      && (var r, s := ForwardRecords(p, day, lines), ForwardRecords(p, day, rest);
          var n, m := Headers(p, day, lines, i), Headers(p, day, rest, i - 1);
          m < |s| ==> n < |r| && r[n] == s[m])
  {
    HeadersTail(p, day, lines, i);
  }

  lemma {:induction false} RecordsAre(p: Parsers, day: DayFile, lines: seq<Line>, i: nat, j: nat)
    requires i < j <= |lines| && Starts(p, day, lines[i]).Some?
    requires IsRun(p, day, lines[i + 1..j]) && (j < |lines| ==> Starts(p, day, lines[j]).Some?)
    ensures var r, n := ForwardRecords(p, day, lines), Headers(p, day, lines, i);
      n < |r| && IsRecordOf(p, day, lines, i, j, r[n])
    decreases |lines|
  {
    if i > 0 {
      LaterRecord(p, day, lines, i, j);
      RecordsAre(p, day, lines[1..], i - 1, j - 1);
    } else {
      FirstRecordIs(p, day, lines, j);
    }
  }

  /** There are no other records than those of the headers. */
  lemma {:induction false} CountRecords(p: Parsers, day: DayFile, lines: seq<Line>)
    ensures |ForwardRecords(p, day, lines)| == Headers(p, day, lines, |lines|)
  {
    if lines != [] {
      HeadersTail(p, day, lines, |lines|);
      CountRecords(p, day, lines[1..]);
    }
  }

  /** What starts a record: a line that parses in the form of its file, without its trailing carriage returns. */
  lemma StartsExactlyWhen(p: Parsers, day: DayFile, line: Line, event: Event)
    ensures var text := TrimEndCr(if line.text in p.decode then p.decode[line.text] else "");
      Starts(p, day, line) == Some(event) <==>
        if day.json then text in p.json && p.json[text] == event else text in p.header && p.header[text] == event
  {
  }
}
