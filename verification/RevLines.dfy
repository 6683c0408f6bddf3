/** The block-wise backward line reader. */
module RevLines {
  import opened Wrappers
  import opened Sequences
  import opened Bytes
  import opened LogLines

  const MIN_BLOCK := 16

  /** The next block boundary below `p`. */
  function Below(p: nat, block: nat): (q: nat)
    requires block > 0
    ensures q <= p && p - q <= block
    ensures p > 0 ==> q < p
  {
    p - Min(block, p)
  }

  /** How far down a reader that starts at `p` must read, in whole blocks, to see the byte before `offset`. */
  function ReadDown(p: nat, block: nat, offset: nat): (q: nat)
    requires block > 0 && offset <= p
    ensures q <= offset <= q + block || (q == p && offset == p)
    ensures q < offset || q == 0
  {
    if p == 0 || p < offset then p
    else if Below(p, block) < offset then Below(p, block)
    else ReadDown(Below(p, block), block, offset)
  }

  /** The bytes a reader opened at `end` has read once it returns the line at `offset`. */
  function BytesFor(end: nat, block: nat, offset: nat): (n: nat)
    requires block > 0 && offset <= end
    ensures end - offset <= n <= end && n <= end - offset + block
    ensures offset > 0 ==> n > end - offset
  {
    end - ReadDown(end, block, offset)
  }

  /** `q` is a multiple of `block` below `p`, or 0. */
  ghost predicate Boundary(p: nat, block: nat, q: nat)
    requires block > 0
  {
    q == p || (p > 0 && Boundary(Below(p, block), block, q))
  }

  lemma {:induction false} BoundaryStep(p: nat, block: nat, q: nat)
    requires block > 0 && q > 0 && Boundary(p, block, q)
    ensures q <= p && Boundary(p, block, Below(q, block))
  {
    if q != p {
      BoundaryStep(Below(p, block), block, q);
    }
  }

  lemma {:induction false} ReadDownVia(p: nat, block: nat, q: nat, offset: nat)
    requires block > 0 && Boundary(p, block, q) && offset <= q <= p
    requires q > 0
    ensures ReadDown(p, block, offset) == ReadDown(q, block, offset)
  {
    if q != p {
      BoundaryStep(Below(p, block), block, q);
      ReadDownVia(Below(p, block), block, q, offset);
    }
  }

  /** `chunk` holds the file's bytes from `start` up to `end`. */
  ghost predicate Holds(s: seq<byte>, chunk: seq<byte>, start: nat, end: nat) {
    start <= end <= |s| && chunk == s[start..end]
  }

  /** The last newline of a chunk is the last newline of the file up to the chunk's end. */
  lemma PieceStartInChunk(s: seq<byte>, chunk: seq<byte>, start: nat, end: nat)
    requires Holds(s, chunk, start, end)
    ensures var k := PieceStart(chunk, |chunk|);
      if k > 0 || start == 0 then PieceStart(s, end) == start + k
      else forall i | 0 <= i < |chunk| :: chunk[i] != NEWLINE
  {
    var k := PieceStart(chunk, |chunk|);
    PieceStartIs(chunk, |chunk|, k);
    assert forall j | start <= j < end :: s[j] == chunk[j - start];
    PieceStartIs(s, end, start + k);
  }

  /** Cutting a chunk in front of its last newline, which is at `k - 1`. */
  lemma CutChunk(s: seq<byte>, chunk: seq<byte>, start: nat, end: nat, k: nat)
    requires Holds(s, chunk, start, end) && 0 < k == PieceStart(chunk, |chunk|)
    ensures chunk[k..] == s[start + k..end]
    ensures Holds(s, chunk[..k][..k - 1], start, start + k - 1)
    ensures chunk[..k][..k - 1] == chunk[..k - 1]
    ensures s[start + k - 1] == chunk[k - 1] == NEWLINE
  {
    PieceStartIs(chunk, |chunk|, k);
    assert chunk[..k - 1] == s[start..start + k - 1];
  }

  /** A chunk with the bytes in front of it. */
  lemma JoinChunk(s: seq<byte>, chunk: seq<byte>, start: nat, mid: nat, end: nat)
    requires Holds(s, chunk, mid, end) && start <= mid
    ensures Holds(s, s[start..mid] + chunk, start, end)
  {
    assert s[start..mid] + s[mid..end] == s[start..end];
  }

  /** Taking the last piece, and the newline in front of it, off the file. */
  lemma StepBack(s: seq<byte>, end: nat, k: nat)
    requires end <= |s| && 0 < k == PieceStart(s, end)
    ensures LastLine(s, end) == if k == end then LastLine(s, k - 1) else Some(Line(k, s[k..end]))
    ensures LastLine(s, k) == LastLine(s, k - 1)
  {
    PieceStartIs(s, end, k);
    ResumeAtLineStart(s, k);
  }

  /** The last piece before `end` starts at `offset`, behind a newline. */
  ghost predicate EndsBehind(s: seq<byte>, end: nat, offset: nat)
    requires 0 < offset <= end <= |s|
  {
    && LastLine(s, offset) == LastLine(s, offset - 1)
    && LastLine(s, end) == if offset == end then LastLine(s, offset - 1) else Some(Line(offset, s[offset..end]))
  }

  /** What a newline at `k - 1` of the chunk, the last one, says about the file. */
  lemma FoundNewline(s: seq<byte>, chunk: seq<byte>, start: nat, end: nat, k: nat)
    requires Holds(s, chunk, start, end) && k == PieceStart(chunk, |chunk|) > 0
    ensures EndsBehind(s, end, start + k)
  {
    PieceStartInChunk(s, chunk, start, end);
    StepBack(s, end, start + k);
  }

  class RevLines {
    /** The file, as far as it was written when it was opened. */
    const file: seq<byte>
    const block: nat
    ghost const end: nat
    var chunk: seq<byte>
    var chunkStart: nat
    var bytesRead: nat
    /** Where `chunk` ended its last read: every newline left in it is below. */
    ghost var above: nat

    ghost predicate Valid()
      reads this
    {
      && block >= MIN_BLOCK
      && Holds(file, chunk, chunkStart, Pos()) && Pos() <= end <= |file|
      && bytesRead == end - chunkStart
      && chunkStart <= above <= end && Boundary(end, block, above)
      && (if bytesRead == 0 then above == end else above > 0 && chunkStart == Below(above, block))
      && (forall i | above <= chunkStart + i && 0 <= i < |chunk| :: chunk[i] != NEWLINE)
    }

    /** The end of the part of the file whose lines are still to come. */
    ghost function Pos(): nat
      reads this
    {
      chunkStart + |chunk|
    }

    /** Where the reader stands, and how much it has read, after returning `r` from position `from`. */
    ghost predicate Returned(r: Option<Line>, from: nat)
      requires Valid()
      reads this
    {
      match r
      case None => Pos() == 0 && bytesRead == end
      case Some(line) =>
        && Pos() <= line.offset < from <= end
        && LastLine(file, Pos()) == LastLine(file, line.offset)
        && bytesRead == BytesFor(end, block, line.offset)
    }

    constructor (file: seq<byte>, end: Option<nat>, block: nat)
      ensures Valid() && this.file == file && this.block == Max(block, 16)
      ensures this.end == Pos() == Min(end.GetOr(|file|), |file|)
      ensures bytesRead == 0
    {
      this.file, this.block := file, Max(block, MIN_BLOCK);
      this.chunk, this.bytesRead := [], 0;
      var e := Min(end.GetOr(|file|), |file|);
      this.chunkStart, this.end, this.above := e, e, e;
    }

    /** The last block read was needed to see the newline at `k - 1`. */
    lemma ReadExactly(k: nat)
      requires Valid() && k == PieceStart(chunk, |chunk|) > 0
      ensures bytesRead == BytesFor(end, block, chunkStart + k)
    {
      PieceStartIs(chunk, |chunk|, k);
      assert chunkStart < chunkStart + k <= above;
      ReadDownVia(end, block, above, chunkStart + k);
    }

    /** Take what follows the last newline, which is at `k - 1`, and that newline off the chunk. */
    method SplitOff(k: nat) returns (line: seq<byte>)
      requires Valid() && k == PieceStart(chunk, |chunk|) > 0
      modifies this`chunk
      ensures Valid() && Pos() == chunkStart + k - 1
      ensures line == file[chunkStart + k..old(Pos())]
    {
      CutChunk(file, chunk, chunkStart, Pos(), k);
      line := chunk[k..];
      chunk := chunk[..k];
      chunk := chunk[..k - 1];
    }

    /** The whole chunk is the first line of the file, unless it is empty. */
    method TakeFirst() returns (r: Option<Line>)
      requires Valid() && PieceStart(chunk, |chunk|) == 0 == chunkStart
      modifies this`chunk
      ensures Valid() && r == LastLine(file, old(Pos())) && Returned(r, old(Pos()))
    {
      PieceStartInChunk(file, chunk, chunkStart, Pos());
      r := if chunk == [] then None else Some(Line(0, chunk));
      chunk := [];
    }

    /** Put the block below in front of a chunk without newlines. */
    method ReadBlock()
      requires Valid() && chunkStart > 0
      requires PieceStart(chunk, |chunk|) == 0
      modifies this
      ensures Valid() && Pos() == old(Pos()) && chunkStart < old(chunkStart)
    {
      var take := Min(block, chunkStart);
      var start := chunkStart - take;
      var buf := file[start..start + take];
      JoinChunk(file, chunk, start, chunkStart, Pos());
      bytesRead := bytesRead + take;
      PieceStartIs(chunk, |chunk|, 0);
      assert Boundary(end, block, chunkStart) by {
        if bytesRead != take { BoundaryStep(end, block, above); }
      }
      above := chunkStart;
      chunk := buf + chunk;
      chunkStart := start;
    }

    /** Take the last piece off the chunk; it is a line unless it is empty. */
    method TakeLast(k: nat) returns (r: Option<Line>)
      requires Valid() && k == PieceStart(chunk, |chunk|) > 0
      modifies this`chunk
      ensures Valid() && Pos() < old(Pos())
      ensures if r.Some? then r == LastLine(file, old(Pos())) && Returned(r, old(Pos()))
        else LastLine(file, Pos()) == LastLine(file, old(Pos()))
    {
      var offset := chunkStart + k;
      FoundNewline(file, chunk, chunkStart, Pos(), k);
      ReadExactly(k);
      var line := SplitOff(k);
      assert Pos() == offset - 1;
      r := if line == [] then None else Some(Line(offset, line));
    }

    /** One turn: a line off the end of the chunk, or one more block in front of it. */
    method Turn() returns (done: bool, r: Option<Line>)
      requires Valid()
      modifies this
      ensures Valid() && Pos() <= old(Pos())
      ensures done ==> r == LastLine(file, old(Pos())) && Returned(r, old(Pos()))
      ensures !done ==> LastLine(file, Pos()) == LastLine(file, old(Pos()))
      ensures !done ==> chunkStart < old(chunkStart) || (chunkStart == old(chunkStart) && |chunk| < old(|chunk|))
    {
      var k := PieceStart(chunk, |chunk|);
      if k > 0 {
        r := TakeLast(k);
        done := r.Some?;
      } else if chunkStart == 0 {
        r := TakeFirst();
        done := true;
      } else {
        ReadBlock();
        done, r := false, None;
      }
    }

    /** The last line not yet returned, and exactly how much was read to find it. */
    method NextLine() returns (r: Option<Line>)
      requires Valid()
      modifies this
      ensures Valid() && Pos() <= old(Pos())
      ensures r == LastLine(file, old(Pos())) && Returned(r, old(Pos()))
    {
      var done := false;
      r := None;
      while !done
        invariant Valid() && Pos() <= old(Pos())
        invariant if done then r == LastLine(file, old(Pos())) && Returned(r, old(Pos()))
                  else LastLine(file, Pos()) == LastLine(file, old(Pos()))
        decreases !done, chunkStart, |chunk|
      {
        done, r := Turn();
      }
    }
  }
}
