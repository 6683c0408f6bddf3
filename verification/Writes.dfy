/** Writing blocks into a zero-filled file, in any order. */
module Writes {
  import opened Bytes
  import opened Sequences

  datatype Write = Write(off: nat, data: seq<byte>)

  function Zeros(n: nat): (r: seq<byte>)
    ensures |r| == n && forall k | 0 <= k < n :: r[k] == 0
  {
    if n == 0 then [] else Zeros(n - 1) + [0]
  }

  /** Seek and write: a gap behind the end fills with zeros; writing nothing changes nothing. */
  function WriteAt(s: seq<byte>, w: Write): seq<byte> {
    if w.data == [] then s
    else
      var end := w.off + |w.data|;
      var front := if w.off <= |s| then s[..w.off] else s + Zeros(w.off - |s|);
      front + w.data + if end < |s| then s[end..] else []
  }

  function WriteAll(s: seq<byte>, ws: seq<Write>): seq<byte>
    decreases |ws|
  {
    if ws == [] then s else WriteAll(WriteAt(s, ws[0]), ws[1..])
  }

  predicate Covers(w: Write, p: nat) {
    w.off <= p < w.off + |w.data|
  }

  /** Where two writes overlap they write the same. */
  ghost predicate Agree(v: Write, w: Write) {
    forall p: nat | Covers(v, p) && Covers(w, p) :: v.data[p - v.off] == w.data[p - w.off]
  }

  ghost predicate AllAgree(ws: set<Write>) {
    forall v, w | v in ws && w in ws :: Agree(v, w)
  }

  ghost predicate Covered(ws: set<Write>, p: nat) {
    exists w :: w in ws && Covers(w, p)
  }

  /** `r` is `base` with exactly the writes `ws` in it, and nothing else. */
  ghost predicate IsImage(r: seq<byte>, base: seq<byte>, ws: set<Write>) {
    && |base| <= |r| && (|r| == |base| || Covered(ws, |r| - 1))
    && (forall w, p: nat | w in ws && Covers(w, p) :: p < |r| && r[p] == w.data[p - w.off])
    && (forall p: nat | p < |r| && !Covered(ws, p) :: r[p] == if p < |base| then base[p] else 0)
  }

  /** One write, byte by byte. */
  lemma WriteAtBytes(s: seq<byte>, w: Write)
    ensures var r := WriteAt(s, w);
      && |r| == (if w.data == [] then |s| else Max(|s|, w.off + |w.data|))
      && (forall p: nat | p < |r| :: r[p] == if Covers(w, p) then w.data[p - w.off] else if p < |s| then s[p] else 0)
  {
  }

  /** The last byte behind `base` is one that was written. */
  lemma NewEnd(r: seq<byte>, base: seq<byte>, ws: set<Write>, w: Write)
    requires |base| <= |r| && (|r| == |base| || Covered(ws, |r| - 1))
    ensures |WriteAt(r, w)| == |base| || Covered(ws + {w}, |WriteAt(r, w)| - 1)
  {
    WriteAtBytes(r, w);
    var n, all := |WriteAt(r, w)|, ws + {w};
    if n != |base| {
      if n == |r| && |r| != |base| {
        var v :| v in ws && Covers(v, |r| - 1);
        assert v in all;
      } else {
        assert w in all && Covers(w, n - 1);
      }
    }
  }

  lemma OneMoreWrite(r: seq<byte>, base: seq<byte>, ws: set<Write>, w: Write)
    requires IsImage(r, base, ws) && AllAgree(ws + {w})
    ensures IsImage(WriteAt(r, w), base, ws + {w})
  {
    WriteAtBytes(r, w);
    NewEnd(r, base, ws, w);
    var r', all := WriteAt(r, w), ws + {w};
    forall v, p: nat | v in all && Covers(v, p) ensures p < |r'| && r'[p] == v.data[p - v.off] {
      if Covers(w, p) {
        assert Agree(v, w);
      }
    }
    forall p: nat | Covered(ws, p) || Covers(w, p) ensures Covered(all, p) {
      var v :| v in all && Covers(v, p);
    }
  }

  function Elements(ws: seq<Write>): set<Write> {
    if ws == [] then {} else {ws[0]} + Elements(ws[1..])
  }

  /** Writing a list that agrees with itself and with what is there leaves exactly those writes. */
  lemma {:induction false} WriteAllIsImage(r: seq<byte>, base: seq<byte>, done: set<Write>, ws: seq<Write>)
    requires IsImage(r, base, done) && AllAgree(done + Elements(ws))
    ensures IsImage(WriteAll(r, ws), base, done + Elements(ws))
    decreases |ws|
  {
    if ws == [] {
      assert done + Elements(ws) == done;
    } else {
      var more := done + {ws[0]};
      assert more + Elements(ws[1..]) == done + Elements(ws);
      assert AllAgree(more) by {
        forall v, w | v in more && w in more ensures Agree(v, w) {
          assert v in done + Elements(ws) && w in done + Elements(ws);
        }
      }
      OneMoreWrite(r, base, done, ws[0]);
      WriteAllIsImage(WriteAt(r, ws[0]), base, more, ws[1..]);
    }
  }

  /** Each byte of `r` is one that some write puts there; only where none does, it is as in `base`. There is nothing behind
      `base` and the writes. */
  ghost predicate Comes(r: seq<byte>, base: seq<byte>, ws: set<Write>) {
    && |base| <= |r| && (|r| == |base| || Covered(ws, |r| - 1))
    && (forall w, p: nat | w in ws && Covers(w, p) :: p < |r|)
    && (forall p: nat | p < |r| :: ByteComes(r[p], p, base, ws))
  }

  ghost predicate ByteComes(x: byte, p: nat, base: seq<byte>, ws: set<Write>) {
    if Covered(ws, p) then exists w :: w in ws && Covers(w, p) && x == w.data[p - w.off]
    else x == if p < |base| then base[p] else 0
  }

  lemma OneMoreComes(r: seq<byte>, base: seq<byte>, ws: set<Write>, w: Write)
    requires Comes(r, base, ws)
    ensures Comes(WriteAt(r, w), base, ws + {w})
  {
    WriteAtBytes(r, w);
    var r', all := WriteAt(r, w), ws + {w};
    NewEnd(r, base, ws, w);
    forall p: nat | p < |r'| ensures ByteComes(r'[p], p, base, all) {
      if Covers(w, p) {
        assert w in all;
      } else if p < |r| {
        assert ByteComes(r[p], p, base, ws);
        SameCover(ws, w, p);
        if Covered(ws, p) {
          var v :| v in ws && Covers(v, p) && r[p] == v.data[p - v.off];
          assert v in all;
        }
      } else {
        SameCover(ws, w, p);
        assert !Covered(ws, p);
      }
    }
  }

  lemma SameCover(ws: set<Write>, w: Write, p: nat)
    requires !Covers(w, p)
    ensures Covered(ws + {w}, p) <==> Covered(ws, p)
  {
    if Covered(ws, p) {
      var v :| v in ws && Covers(v, p);
      assert v in ws + {w};
    }
  }

  /** Writing any list, also one whose writes overlap, leaves no byte behind or in between that none of them wrote. */
  lemma {:induction false} WriteAllComes(r: seq<byte>, base: seq<byte>, done: set<Write>, ws: seq<Write>)
    requires Comes(r, base, done)
    ensures Comes(WriteAll(r, ws), base, done + Elements(ws))
    decreases |ws|
  {
    if ws == [] {
      assert done + Elements(ws) == done;
    } else {
      var more := done + {ws[0]};
      assert more + Elements(ws[1..]) == done + Elements(ws);
      OneMoreComes(r, base, done, ws[0]);
      WriteAllComes(WriteAt(r, ws[0]), base, more, ws[1..]);
    }
  }

  lemma ImageLength(a: seq<byte>, b: seq<byte>, base: seq<byte>, ws: set<Write>)
    requires IsImage(a, base, ws) && IsImage(b, base, ws)
    ensures |b| <= |a|
  {
    if |b| != |base| {
      var w :| w in ws && Covers(w, |b| - 1);
      assert |b| - 1 < |a|;
    }
  }

  /** The image of a set of writes is unique, so their order does not matter. */
  lemma ImageIsUnique(a: seq<byte>, b: seq<byte>, base: seq<byte>, ws: set<Write>)
    requires IsImage(a, base, ws) && IsImage(b, base, ws)
    ensures a == b
  {
    ImageLength(a, b, base, ws);
    ImageLength(b, a, base, ws);
    forall p: nat | p < |a| ensures a[p] == b[p] {
      if Covered(ws, p) {
        var w :| w in ws && Covers(w, p);
      }
    }
  }

  lemma NoWrites(base: seq<byte>)
    ensures IsImage(base, base, {})
  {
  }
}
