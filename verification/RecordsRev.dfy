/** The backward record reader, on top of the backward line reader. */
module RecordsRev {
  import opened Wrappers
  import opened Sequences
  import opened LogLines
  import opened RevLines
  import opened LogRecords
  import Cursor

  class RecordsRev {
    const p: Parsers
    const day: DayFile
    const lines: RevLines
    /** Continuation lines met since the last record, last first. */
    var pending: seq<string>

    ghost predicate Valid()
      reads this, lines
    {
      lines.Valid() && lines.file == day.content && pending == []
    }

    constructor (p: Parsers, day: DayFile, end: Option<nat>, block: nat)
      ensures Valid() && fresh(lines) && this.p == p && this.day == day
      ensures lines.end == lines.Pos() == Min(end.GetOr(|day.content|), |day.content|)
      ensures lines.block == Max(block, MIN_BLOCK) && lines.bytesRead == 0
    {
      this.p, this.day, this.pending := p, day, [];
      this.lines := new RevLines(day.content, end, block);
    }

    /** Put the gathered lines below the message, in file order, and forget them. */
    method Drain(message: string) returns (r: string)
      modifies this`pending
      ensures pending == [] && r == Append(message, Reverse(old(pending)))
    {
      r := message;
      while pending != []
        invariant Append(r, Reverse(pending)) == Append(message, Reverse(old(pending)))
        decreases |pending|
      {
        var n := |pending| - 1;
        ReverseConcat(pending[..n], [pending[n]]);
        assert pending == pending[..n] + [pending[n]];
        r := r + "\n" + pending[n];
        pending := pending[..n];
      }
    }

    /** The last record not yet returned. A reader opened at its offset would go on exactly as this one does. */
    method NextRecord() returns (r: Option<Record>, ghost entry: Option<Entry>)
      requires Valid()
      modifies this, lines
      ensures Valid()
      ensures entry == LastRecord(p, day, old(lines.Pos()), [])
      ensures r == match entry case None => None case Some(e) => Some(e.record)
      ensures match entry
        case None => lines.bytesRead == lines.end
        case Some(e) =>
          && lines.Pos() <= e.offset < old(lines.Pos())
          && LastLine(day.content, lines.Pos()) == LastLine(day.content, e.offset)
          && lines.bytesRead == BytesFor(lines.end, lines.block, e.offset)
    {
      ghost var goal := LastRecord(p, day, lines.Pos(), []);
      var next := lines.NextLine();
      while next.Some?
        invariant lines.Valid() && lines.file == day.content && lines.Pos() <= old(lines.Pos())
        invariant day.json ==> pending == []
        invariant match next
          case None => goal == None && lines.bytesRead == lines.end
          case Some(line) =>
            && lines.Pos() <= line.offset < old(lines.Pos()) && line.offset < lines.end
            && LastLine(day.content, lines.Pos()) == LastLine(day.content, line.offset)
            && lines.bytesRead == BytesFor(lines.end, lines.block, line.offset)
            && goal == (match Starts(p, day, line)
              case Some(event) => Some(MakeEntry(day, line, event, Reverse(pending)))
              case None => LastRecord(p, day, line.offset, if day.json then pending else pending + [Text(p, line)]))
        decreases next.Some?, lines.Pos()
      {
        var line := next.value;
        match Starts(p, day, line) {
          case Some(event) =>
            entry := goal;
            if day.json {
              r := Some(Record(Cursor.FormatId(day.date, line.offset), event));
            } else {
              var message := Drain(event.message);
              r := Some(Record(Cursor.FormatId(day.date, line.offset), event.(message := message)));
            }
            return;
          case None =>
            if !day.json {
              pending := pending + [Text(p, line)];
            }
        }
        SameLastRecord(p, day, line.offset, lines.Pos(), pending);
        next := lines.NextLine();
      }
      pending := [];
      r, entry := None, None;
    }
  }
}
