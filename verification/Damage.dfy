/** Restored files against the originals: where the gaps are, and what is between them. */
module Damage {
  import opened Wrappers
  import opened Sequences
  import opened Bytes
  import opened BlockIndex
  import opened RestorePlan
  import opened Writes
  import opened Restore

  // ---------- where a gap is ----------

  /** Where block number `k` is placed. */
  function Place(hd: Header, index: Index, blocks: seq<string>, off: Option<nat>, k: nat): Option<nat>
    requires k < |blocks|
    decreases k
  {
    if k == 0 then off else Place(hd, index, blocks[1..], NextOffset(hd, index, blocks[0], off), k - 1)
  }

  lemma {:induction false} PlannedAtPlace(hd: Header, index: Index, i: nat, blocks: seq<string>, off: Option<nat>, k: nat)
    requires k < |blocks|
    ensures var plan := FilePlan(hd, index, i, blocks, off, []);
      |plan| == |blocks| && plan[k] == PlanBlock(index, i, blocks[k], Place(hd, index, blocks, off, k))
    decreases |blocks|
  {
    var next := NextOffset(hd, index, blocks[0], off);
    assert FilePlan(hd, index, i, blocks, off, [])[1..] == FilePlan(hd, index, i, blocks[1..], next, []);
    if |blocks| > 1 {
      PlannedAtPlace(hd, index, i, blocks[1..], next, if k > 0 then k - 1 else 0);
    }
  }

  lemma {:induction false} PlacesGrow(hd: Header, index: Index, blocks: seq<string>, off: Option<nat>, k: nat)
    requires k < |blocks| && Place(hd, index, blocks, off, k).Some?
    ensures off.Some? && off.value <= Place(hd, index, blocks, off, k).value
    decreases k
  {
    if k > 0 {
      PlacesGrow(hd, index, blocks[1..], NextOffset(hd, index, blocks[0], off), k - 1);
    }
  }

  /** A byte between the place of a block and the next place. */
  predicate InBlock(hd: Header, index: Index, hash: string, off: nat, p: nat) {
    off <= p && (Advance(hd, index, hash).Some? ==> p < off + Advance(hd, index, hash).value)
  }

  /** When a block is lost, nothing else is written between its place and the next one. */
  lemma {:induction false} NotCovered(b: Backup, index: Index, i: nat, blocks: seq<string>, off: Option<nat>, k: nat, p: nat)
    requires SizesFit(b, index, i, blocks, off) && k < |blocks|
    requires var at := Place(b.hd, index, blocks, off, k);
      && at.Some? && Fetch(b, PlanBlock(index, i, blocks[k], at)).None?
      && InBlock(b.hd, index, blocks[k], at.value, p)
    ensures !Covered(Elements(WritesTo(b, i, FilePlan(b.hd, index, i, blocks, off, []))), p)
    decreases k
  {
    var next := NextOffset(b.hd, index, blocks[0], off);
    WritesStep(b, index, i, blocks, off);
    if k == 0 {
      WritesFrom(b, index, i, blocks[1..], next);
    } else {
      PlacesGrow(b.hd, index, blocks[1..], next, k - 1);
      NotCovered(b, index, i, blocks[1..], next, k - 1, p);
    }
  }

  /** Where a block is lost, the file is zero from its place to the next one, or to the end when the next is unknown. */
  lemma GapIsZero(b: Backup, index: Index, entries: seq<Entry>, i: nat, k: nat, p: nat)
    requires i < |entries| && IsWritten(entries[i]) && Run(b, index, entries).1
    requires SizesFit(b, index, i, entries[i].blocks, Some(0)) && k < |entries[i].blocks|
    requires var at := Place(b.hd, index, entries[i].blocks, Some(0), k);
      && at.Some? && Fetch(b, PlanBlock(index, i, entries[i].blocks[k], at)).None?
      && InBlock(b.hd, index, entries[i].blocks[k], at.value, p)
    ensures var st := Run(b, index, entries).0;
      i in st.files && (p < |st.files[i]| ==> st.files[i][p] == 0)
  {
    RestoredFileIs(b, index, entries, i);
    NotCovered(b, index, i, entries[i].blocks, Some(0), k, p);
  }

  // ---------- against the original ----------

  /** What the index says of sizes is true; of the last block nothing need be known. */
  ghost predicate TrueSizes(hd: Header, index: Index, blocks: seq<string>, original: seq<seq<byte>>)
    requires |original| == |blocks|
  {
    forall k | 0 <= k < |blocks| - 1 && Advance(hd, index, blocks[k]).Some? ::
      Advance(hd, index, blocks[k]).value == |original[k]|
  }

  /** Nothing but the original has the hash of an original block. */
  ghost predicate NoCollision(hd: Header, blocks: seq<string>, original: seq<seq<byte>>)
    requires |original| == |blocks|
  {
    forall k, data | 0 <= k < |blocks| && Find(hd.blockHash, data) == Some(blocks[k]) :: data == original[k]
  }

  function TotalSize(original: seq<seq<byte>>): nat {
    if original == [] then 0 else |original[0]| + TotalSize(original[1..])
  }

  function Join(original: seq<seq<byte>>): seq<byte> {
    if original == [] then [] else original[0] + Join(original[1..])
  }

  /** The original with the blocks that are not written zeroed out. */
  function Expected(b: Backup, index: Index, i: nat, blocks: seq<string>, original: seq<seq<byte>>, off: Option<nat>): seq<seq<byte>>
    requires |original| == |blocks|
  {
    if blocks == [] then []
    else
      [if Fetch(b, PlanBlock(index, i, blocks[0], off)).Some? then original[0] else Zeros(|original[0]|)]
      + Expected(b, index, i, blocks[1..], original[1..], NextOffset(b.hd, index, blocks[0], off))
  }

  lemma {:induction false} ZerosJoin(n: nat, m: nat)
    ensures Zeros(n) + Zeros(m) == Zeros(n + m)
  {
  }

  /** Leaving `n` zeros alone. */
  lemma FillZeros(front: seq<byte>, n: nat, size: nat)
    requires |front| + n <= size
    ensures Filled(front, size) == Filled(front + Zeros(n), size)
  {
    var r := size - |front| - n;
    ZerosJoin(n, r);
    Associative(front, Zeros(n), Zeros(r));
    assert Zeros(0) == [];
    assert front + Zeros(n) + [] == front + Zeros(n);
    assert front + [] == front;
  }

  /** A fetched block is the original, at a known position. */
  lemma FetchedIsOriginal(b: Backup, index: Index, i: nat, hash: string, off: Option<nat>, original: seq<byte>)
    requires forall data | Find(b.hd.blockHash, data) == Some(hash) :: data == original
    ensures var data := Fetch(b, PlanBlock(index, i, hash, off));
      data.Some? ==> off.Some? && data.value == original
  {
  }

  /** The first block of what is left. */
  lemma OneBlock(b: Backup, index: Index, i: nat, blocks: seq<string>, original: seq<seq<byte>>, off: Option<nat>, front: seq<byte>, size: nat)
    requires |original| == |blocks| > 0 && (off.Some? ==> off.value == |front|) && |front| + |original[0]| <= size
    requires NoCollision(b.hd, blocks, original)
    ensures var next := NextOffset(b.hd, index, blocks[0], off);
      var data := if Fetch(b, PlanBlock(index, i, blocks[0], off)).Some? then original[0] else Zeros(|original[0]|);
      WriteAll(Filled(front, size), WritesTo(b, i, FilePlan(b.hd, index, i, blocks, off, [])))
      == WriteAll(Filled(front + data, size), WritesTo(b, i, FilePlan(b.hd, index, i, blocks[1..], next, [])))
  {
    FetchedIsOriginal(b, index, i, blocks[0], off, original[0]);
    if Fetch(b, PlanBlock(index, i, blocks[0], off)).Some? {
      InOrderStep(b, index, i, blocks, front, size, original[0]);
    } else {
      WritesStep(b, index, i, blocks, off);
      FillZeros(front, |original[0]|, size);
    }
  }

  /** In plan order, the blocks that are there fill the file to what is expected. */
  lemma {:induction false} FillExpected(b: Backup, index: Index, i: nat, blocks: seq<string>, original: seq<seq<byte>>,
                                        off: Option<nat>, front: seq<byte>, size: nat)
    requires |original| == |blocks| && TrueSizes(b.hd, index, blocks, original) && NoCollision(b.hd, blocks, original)
    requires blocks != [] && off.Some? ==> off.value == |front|
    requires |front| + TotalSize(original) <= size
    ensures WriteAll(Filled(front, size), WritesTo(b, i, FilePlan(b.hd, index, i, blocks, off, [])))
      == Filled(front + Join(Expected(b, index, i, blocks, original, off)), size)
    decreases |blocks|
  {
    if blocks == [] {
      assert front + [] == front;
    } else {
      var next := NextOffset(b.hd, index, blocks[0], off);
      var data := if Fetch(b, PlanBlock(index, i, blocks[0], off)).Some? then original[0] else Zeros(|original[0]|);
      var rest := Expected(b, index, i, blocks[1..], original[1..], next);
      OneBlock(b, index, i, blocks, original, off, front, size);
      Tails(b.hd, index, blocks, original);
      FillExpected(b, index, i, blocks[1..], original[1..], next, front + data, size);
      assert ([data] + rest)[1..] == rest;
      Associative(front, data, Join(rest));
    }
  }

  lemma Tails(hd: Header, index: Index, blocks: seq<string>, original: seq<seq<byte>>)
    requires |original| == |blocks| > 0 && TrueSizes(hd, index, blocks, original) && NoCollision(hd, blocks, original)
    ensures TrueSizes(hd, index, blocks[1..], original[1..]) && NoCollision(hd, blocks[1..], original[1..])
    ensures |blocks| > 1 && Advance(hd, index, blocks[0]).Some? ==> Advance(hd, index, blocks[0]).value == |original[0]|
  {
    assert forall k | 0 <= k < |blocks[1..]| :: blocks[1..][k] == blocks[k + 1] && original[1..][k] == original[k + 1];
  }

  lemma {:induction false} TrueSizesFit(b: Backup, index: Index, i: nat, blocks: seq<string>, original: seq<seq<byte>>, off: Option<nat>)
    requires |original| == |blocks| && TrueSizes(b.hd, index, blocks, original) && NoCollision(b.hd, blocks, original)
    ensures SizesFit(b, index, i, blocks, off)
    decreases |blocks|
  {
    if blocks != [] {
      Tails(b.hd, index, blocks, original);
      FetchedIsOriginal(b, index, i, blocks[0], off, original[0]);
      TrueSizesFit(b, index, i, blocks[1..], original[1..], NextOffset(b.hd, index, blocks[0], off));
    }
  }

  /** The planned blocks that cannot be written. */
  function LostBlocks(b: Backup, plan: seq<Planned>): set<nat> {
    set k: nat | k < |plan| && Fetch(b, plan[k]).None?
  }

  lemma {:induction false} LostAreCounted(b: Backup, i: nat, plan: seq<Planned>)
    requires forall k | 0 <= k < |plan| :: plan[k].job.file == i
    ensures |LostBlocks(b, plan)| == Lost(b, i, plan)
    decreases |plan|
  {
    if plan == [] {
      assert LostBlocks(b, plan) == {};
    } else {
      var n := |plan| - 1;
      var front, last := plan[..n], plan[n];
      assert plan == front + [last];
      assert [last][1..] == [];
      WritesToConcat(b, i, front, [last]);
      LostAreCounted(b, i, front);
      LastLost(b, plan);
    }
  }

  lemma LastLost(b: Backup, plan: seq<Planned>)
    requires plan != []
    ensures var n := |plan| - 1;
      |LostBlocks(b, plan)| == |LostBlocks(b, plan[..n])| + if Fetch(b, plan[n]).None? then 1 else 0
  {
    var n := |plan| - 1;
    assert LostBlocks(b, plan) == LostBlocks(b, plan[..n]) + if Fetch(b, plan[n]).None? then {n} else {};
  }

  /** A damaged file is the original with the blocks that were not written zeroed out, whichever those are and in whatever
      order the volumes come; and their number is reported. */
  lemma DamagedFileIs(b: Backup, index: Index, entries: seq<Entry>, i: nat, original: seq<seq<byte>>)
    requires i < |entries| && IsWritten(entries[i]) && Run(b, index, entries).1
    requires |original| == |entries[i].blocks| && TotalSize(original) <= entries[i].size
    requires TrueSizes(b.hd, index, entries[i].blocks, original) && NoCollision(b.hd, entries[i].blocks, original)
    ensures var st, e := Run(b, index, entries).0, entries[i];
      && i in st.files
      && st.files[i] == Filled(Join(Expected(b, index, i, e.blocks, original, Some(0))), e.size)
      && Missing(st, i) == |LostBlocks(b, OwnPlan(b, index, entries, i))|
  {
    var e, own := entries[i], OwnPlan(b, index, entries, i);
    TrueSizesFit(b, index, i, e.blocks, original, Some(0));
    InPlanOrder(b, index, entries, i);
    FillExpected(b, index, i, e.blocks, original, Some(0), [], e.size);
    assert Filled([], e.size) == Zeros(e.size);
    assert [] + Join(Expected(b, index, i, e.blocks, original, Some(0))) == Join(Expected(b, index, i, e.blocks, original, Some(0)));
    LostOfOwn(b, index, i, e.blocks);
    WrittenOrLost(b, index, i, e.blocks, Some(0));
  }

  lemma LostOfOwn(b: Backup, index: Index, i: nat, blocks: seq<string>)
    ensures var own := FilePlan(b.hd, index, i, blocks, Some(0), []);
      |LostBlocks(b, own)| == Lost(b, i, own)
  {
    var own := FilePlan(b.hd, index, i, blocks, Some(0), []);
    forall k | 0 <= k < |own| ensures own[k].job.file == i {
      if blocks != [] {
        PlannedAtPlace(b.hd, index, i, blocks, Some(0), 0);
        PlannedAtPlace(b.hd, index, i, blocks, Some(0), k);
      }
    }
    LostAreCounted(b, i, own);
  }

  /** Block by block: the original, or zeros. */
  lemma {:induction false} ExpectedAt(b: Backup, index: Index, i: nat, blocks: seq<string>, original: seq<seq<byte>>, off: Option<nat>, k: nat)
    requires |original| == |blocks| && k < |blocks|
    ensures var r, at := Expected(b, index, i, blocks, original, off), Place(b.hd, index, blocks, off, k);
      && |r| == |original|
      && r[k] == if Fetch(b, PlanBlock(index, i, blocks[k], at)).Some? then original[k] else Zeros(|original[k]|)
    decreases |blocks|
  {
    if |blocks| > 1 {
      ExpectedAt(b, index, i, blocks[1..], original[1..], NextOffset(b.hd, index, blocks[0], off), if k > 0 then k - 1 else 0);
    }
  }

  /** When nothing is missing, the file is the original. */
  lemma NothingMissing(b: Backup, index: Index, entries: seq<Entry>, i: nat, original: seq<seq<byte>>)
    requires i < |entries| && IsWritten(entries[i]) && Run(b, index, entries).1
    requires |original| == |entries[i].blocks| && TotalSize(original) <= entries[i].size
    requires TrueSizes(b.hd, index, entries[i].blocks, original) && NoCollision(b.hd, entries[i].blocks, original)
    requires Missing(Run(b, index, entries).0, i) == 0
    ensures var st := Run(b, index, entries).0;
      i in st.files && st.files[i] == Filled(Join(original), entries[i].size)
  {
    var e, own := entries[i], OwnPlan(b, index, entries, i);
    DamagedFileIs(b, index, entries, i, original);
    var r := Expected(b, index, i, e.blocks, original, Some(0));
    assert r == original by {
      if e.blocks != [] { ExpectedAt(b, index, i, e.blocks, original, Some(0), 0); }
      forall k: nat | k < |original| ensures r[k] == original[k] {
        ExpectedAt(b, index, i, e.blocks, original, Some(0), k);
        PlannedAtPlace(b.hd, index, i, e.blocks, Some(0), k);
        assert k !in LostBlocks(b, own);
      }
    }
  }

  lemma {:induction false} SizesAddUp(original: seq<seq<byte>>)
    ensures |Join(original)| == TotalSize(original)
  {
    if original != [] {
      SizesAddUp(original[1..]);
    }
  }

  lemma Behind(a: seq<byte>, b: seq<byte>, at: nat, n: nat)
    requires at + n <= |b|
    ensures (a + b)[|a| + at..|a| + at + n] == b[at..at + n]
  {
  }

  /** Joined blocks stand one behind the other. */
  lemma {:induction false} JoinAt(original: seq<seq<byte>>, k: nat)
    requires k < |original|
    ensures var at := TotalSize(original[..k]);
      at + |original[k]| <= |Join(original)| && Join(original)[at..at + |original[k]|] == original[k]
    decreases k
  {
    SizesAddUp(original);
    if k > 0 {
      var rest := original[1..];
      JoinAt(rest, k - 1);
      assert original[..k][1..] == rest[..k - 1] && original[..k][0] == original[0];
      var at := TotalSize(rest[..k - 1]);
      Behind(original[0], Join(rest), at, |original[k]|);
    }
  }
}
