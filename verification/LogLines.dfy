/** Lines of a log file with the byte offset each starts at, from the front and from the back. */
module LogLines {
  import opened Wrappers
  import opened Sequences
  import opened Bytes

  const NEWLINE: byte := 10

  datatype Line = Line(offset: nat, text: seq<byte>)

  /** Where the piece that starts at `from` stops: at the first newline, or at `end`. */
  function PieceEnd(s: seq<byte>, from: nat, end: nat): (k: nat)
    requires from <= end <= |s|
    ensures from <= k <= end
    decreases end - from
  {
    if from == end || s[from] == NEWLINE then from else PieceEnd(s, from + 1, end)
  }

  lemma {:induction false} PieceEndIs(s: seq<byte>, from: nat, end: nat, k: nat)
    requires from <= k <= end <= |s|
    ensures PieceEnd(s, from, end) == k <==>
      (k < end ==> s[k] == NEWLINE) && forall i | from <= i < k :: s[i] != NEWLINE
    decreases end - from
  {
    if from < end && s[from] != NEWLINE && from < k {
      PieceEndIs(s, from + 1, end, k);
    }
  }

  /** Where the last piece before `end` starts: after the last newline, or at 0. */
  function PieceStart(s: seq<byte>, end: nat): (k: nat)
    requires end <= |s|
    ensures k <= end
  {
    if end == 0 || s[end - 1] == NEWLINE then end else PieceStart(s, end - 1)
  }

  lemma {:induction false} PieceStartIs(s: seq<byte>, end: nat, k: nat)
    requires k <= end <= |s|
    ensures PieceStart(s, end) == k <==>
      (k > 0 ==> s[k - 1] == NEWLINE) && forall i | k <= i < end :: s[i] != NEWLINE
    decreases end
  {
    if k < end && s[end - 1] != NEWLINE {
      PieceStartIs(s, end - 1, k);
    }
  }

  /** The piece `s[from..end]`, unless it is empty. */
  function Piece(s: seq<byte>, from: nat, end: nat): seq<Line>
    requires from <= end <= |s|
  {
    if from == end then [] else [Line(from, s[from..end])]
  }

  /** The simple form: split `s[from..end]` at newlines and drop the empty pieces. */
  function ForwardLines(s: seq<byte>, from: nat, end: nat): seq<Line>
    requires from <= end <= |s|
    decreases end - from
  {
    var k := PieceEnd(s, from, end);
    if k == end then Piece(s, from, k) else Piece(s, from, k) + ForwardLines(s, k + 1, end)
  }

  /** The last line of `s[..end]`, if any: the last piece that is not empty. */
  function LastLine(s: seq<byte>, end: nat): (r: Option<Line>)
    requires end <= |s|
    ensures r.Some? ==> r.value.offset < end
  {
    var k := PieceStart(s, end);
    if k < end then Some(Line(k, s[k..end]))
    else if k == 0 then None
    else LastLine(s, k - 1)
  }

  /** The lines of `s[..end]` from the last to the first. */
  function BackLines(s: seq<byte>, end: nat): seq<Line>
    requires end <= |s|
  {
    match LastLine(s, end)
    case None => []
    case Some(line) => [line] + BackLines(s, line.offset)
  }

  /** The simple form splits at any newline. */
  lemma {:induction false} ForwardSplit(s: seq<byte>, from: nat, k: nat, end: nat)
    requires from <= k < end <= |s| && s[k] == NEWLINE
    ensures ForwardLines(s, from, end) == ForwardLines(s, from, k) + ForwardLines(s, k + 1, end)
    decreases k - from
  {
    var j := PieceEnd(s, from, end);
    assert PieceEnd(s, from, k) == j <= k by {
      PieceEndIs(s, from, end, j);
      PieceEndIs(s, from, k, j);
    }
    if j < k {
      var one, front, back := Piece(s, from, j), ForwardLines(s, j + 1, k), ForwardLines(s, k + 1, end);
      assert ForwardLines(s, from, end) == one + (front + back) by {
        ForwardSplit(s, j + 1, k, end);
      }
      assert ForwardLines(s, from, k) == one + front;
      Associative(one, front, back);
    }
  }

  /** The last line of the backward reader is the last one of the simple form. */
  lemma {:induction false} LastOfForward(s: seq<byte>, end: nat)
    requires end <= |s|
    ensures ForwardLines(s, 0, end) ==
      match LastLine(s, end)
      case None => []
      case Some(line) => ForwardLines(s, 0, line.offset) + [line]
  {
    var k := PieceStart(s, end);
    PieceStartIs(s, end, k);
    PieceEndIs(s, k, end, end);
    assert ForwardLines(s, k, end) == Piece(s, k, end);
    if k > 0 {
      ForwardSplit(s, 0, k - 1, end);
      ForwardSplit(s, 0, k - 1, k);
      if k == end {
        LastOfForward(s, k - 1);
      }
    }
  }

  /** Reading backwards yields the split lines in reverse. */
  lemma {:induction false} BackwardIsForwardReversed(s: seq<byte>, end: nat)
    requires end <= |s|
    ensures BackLines(s, end) == Reverse(ForwardLines(s, 0, end))
  {
    LastOfForward(s, end);
    match LastLine(s, end)
    case None =>
    case Some(line) =>
      BackwardIsForwardReversed(s, line.offset);
      ReverseConcat(ForwardLines(s, 0, line.offset), [line]);
  }

  /** A line is a maximal stretch without newlines, at its true offset. */
  ghost predicate InPlace(l: Line, s: seq<byte>, end: nat)
    requires end <= |s|
  {
    && l.offset < l.offset + |l.text| <= end
    && l.text == s[l.offset..l.offset + |l.text|]
    && NEWLINE !in l.text
    && (l.offset > 0 ==> s[l.offset - 1] == NEWLINE)
    && (l.offset + |l.text| < end ==> s[l.offset + |l.text|] == NEWLINE)
  }

  lemma {:induction false} LastLineInPlace(s: seq<byte>, end: nat)
    requires end <= |s|
    ensures LastLine(s, end).Some? ==> InPlace(LastLine(s, end).value, s, end)
    ensures LastLine(s, end).None? ==> forall i | 0 <= i < end :: s[i] == NEWLINE
  {
    var k := PieceStart(s, end);
    PieceStartIs(s, end, k);
    if 0 < k == end {
      LastLineInPlace(s, k - 1);
    }
  }

  /** Reading may resume at the start of any line: the newline in front of it changes nothing. */
  lemma ResumeAtLineStart(s: seq<byte>, end: nat)
    requires 0 < end <= |s| && s[end - 1] == NEWLINE
    ensures LastLine(s, end) == LastLine(s, end - 1)
    ensures BackLines(s, end) == BackLines(s, end - 1)
  {
  }

  /** Bytes at or after `end` play no part. */
  lemma {:induction false} LastLinePrefix(s: seq<byte>, t: seq<byte>, end: nat)
    requires end <= |s| && end <= |t| && s[..end] == t[..end]
    ensures LastLine(s, end) == LastLine(t, end)
  {
    var k := PieceStart(s, end);
    assert forall i | 0 <= i < end :: s[i] == s[..end][i] == t[i];
    PieceStartIs(s, end, k);
    PieceStartIs(t, end, k);
    assert s[k..end] == t[k..end];
    if 0 < k == end {
      assert s[..k - 1] == s[..end][..k - 1] == t[..k - 1];
      LastLinePrefix(s, t, k - 1);
    }
  }

  // ---------- the simple form, byte by byte ----------

  /** A piece of `s[from..end]` that is not empty: between newlines, which are bytes 10, or the ends of the range. */
  ghost predicate IsPiece(s: seq<byte>, from: nat, end: nat, l: Line)
    requires from <= end <= |s|
  {
    var stop := l.offset + |l.text|;
    && from <= l.offset < stop <= end && l.text == s[l.offset..stop]
    && (forall i | l.offset <= i < stop :: s[i] != 10)
    && (l.offset == from || s[l.offset - 1] == 10) && (stop == end || s[stop] == 10)
  }

  /** The lines are exactly those pieces. */
  lemma {:induction false} LineExactlyWhen(s: seq<byte>, from: nat, end: nat, l: Line)
    requires from <= end <= |s|
    ensures l in ForwardLines(s, from, end) <==> IsPiece(s, from, end, l)
    decreases end - from
  {
    var k := PieceEnd(s, from, end);
    PieceEndIs(s, from, end, k);
    FirstPiece(s, from, k, end, l);
    if k < end {
      LineExactlyWhen(s, k + 1, end, l);
      LaterPiece(s, from, k, end, l);
    }
  }

  lemma LaterPiece(s: seq<byte>, from: nat, k: nat, end: nat, l: Line)
    requires from <= k < end <= |s| && s[k] == 10
    ensures IsPiece(s, k + 1, end, l) <==> IsPiece(s, from, end, l) && l.offset > k
  {
  }

  ghost predicate Ascends(r: seq<Line>, from: nat) {
    && (forall i | 0 <= i < |r| :: from <= r[i].offset)
    && (forall i, j | 0 <= i < j < |r| :: r[i].offset < r[j].offset)
  }

  lemma OneInFront(l: Line, rest: seq<Line>, from: nat)
    requires from <= l.offset && Ascends(rest, l.offset + 1)
    ensures Ascends([l] + rest, from)
  {
    var r := [l] + rest;
    assert forall i | 0 < i < |r| :: r[i] == rest[i - 1];
  }

  /** They come from the front to the back. */
  lemma {:induction false} LinesAscend(s: seq<byte>, from: nat, end: nat)
    requires from <= end <= |s|
    ensures Ascends(ForwardLines(s, from, end), from)
    decreases end - from
  {
    var k := PieceEnd(s, from, end);
    if k < end {
      LinesAscend(s, k + 1, end);
      PieceInFront(s, from, k, end, ForwardLines(s, k + 1, end));
    }
  }

  lemma PieceInFront(s: seq<byte>, from: nat, k: nat, end: nat, rest: seq<Line>)
    requires from <= k < end <= |s| && Ascends(rest, k + 1)
    ensures Ascends(Piece(s, from, k) + rest, from)
  {
    if from < k {
      OneInFront(Line(from, s[from..k]), rest, from);
    } else {
      assert Piece(s, from, k) + rest == rest;
    }
  }

  lemma FirstPiece(s: seq<byte>, from: nat, k: nat, end: nat, l: Line)
    requires from <= k <= end <= |s| && (k < end ==> s[k] == 10) && forall i | from <= i < k :: s[i] != 10
    ensures l in Piece(s, from, k) <==> IsPiece(s, from, end, l) && l.offset <= k
  {
    if IsPiece(s, from, end, l) && l.offset <= k {
      assert l.offset == from;
      var stop := l.offset + |l.text|;
      assert stop == k;
    }
  }

  lemma LinesExample()
    ensures ForwardLines([65, 10, 10, 66], 0, 4) == [Line(0, [65]), Line(3, [66])]
  {
    var s: seq<byte> := [65, 10, 10, 66];
    assert s[0..1] == [65] && s[3..4] == [66];
    assert PieceEnd(s, 0, 4) == 1 && PieceEnd(s, 2, 4) == 2 && PieceEnd(s, 3, 4) == 4;
    assert ForwardLines(s, 3, 4) == [Line(3, [66])];
    assert ForwardLines(s, 2, 4) == [] + ForwardLines(s, 3, 4);
    assert ForwardLines(s, 0, 4) == Piece(s, 0, 1) + ForwardLines(s, 2, 4);
  }
}
