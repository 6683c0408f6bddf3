/** Which block goes where in which file, and the same jobs grouped by the volume they are read from. */
module RestorePlan {
  import opened Wrappers
  import opened Bytes
  import opened BlockIndex

  datatype EntryKind = File | Dir | Symlink | Unknown

  /** An entry of a version's file list; `hash` is empty when the list has none. */
  datatype Entry = Entry(kind: EntryKind, size: nat, blocks: seq<string>, hash: string)

  /** The repository header; hashing is a table, as the model does not look into it. */
  datatype Header = Header(variable: bool, blockSize: nat, blockHash: Table<seq<byte>, string>, fileHash: Table<seq<byte>, string>)

  /** Block `hash` goes to `off` in the file of entry `file`. */
  datatype Job = Job(file: nat, off: nat, hash: string)

  datatype Planned = Planned(volume: Option<string>, job: Job)

  datatype Group = Group(volume: Option<string>, jobs: seq<Job>)

  /** Everything but folders and links is written as a file. */
  predicate IsWritten(e: Entry) {
    e.kind != Dir && e.kind != Symlink
  }

  /** The size of a block, if it is listed and a number. */
  function KnownSize(index: Index, hash: string): Option<nat> {
    var size: Option<Size> := Find(index.sizes, hash);
    match size
    case Some(Number(n)) => Some(n)
    case _ => None
  }

  /** How far a block moves the position: the fixed size, or the block's own, when that is known. */
  function Advance(hd: Header, index: Index, hash: string): Option<nat> {
    if hd.variable then KnownSize(index, hash) else Some(hd.blockSize)
  }

  function NextOffset(hd: Header, index: Index, hash: string, off: Option<nat>): Option<nat> {
    match (off, Advance(hd, index, hash))
    case (Some(o), Some(n)) => Some(o + n)
    case _ => None
  }

  /** The size of a content-defined block at a known position is one that cannot be added to it. */
  predicate Misfit(hd: Header, index: Index, hash: string, off: Option<nat>) {
    hd.variable && off.Some? && Find(index.sizes, hash) == Some(Unfit)
  }

  /** No block of the file is a misfit: planning it raises nothing. */
  predicate Fits(hd: Header, index: Index, blocks: seq<string>, off: Option<nat>) {
    blocks == [] || (!Misfit(hd, index, blocks[0], off) && Fits(hd, index, blocks[1..], NextOffset(hd, index, blocks[0], off)))
  }

  /** The first file from `i` on that cannot be planned, or their number. */
  function FirstMisfit(hd: Header, index: Index, entries: seq<Entry>, i: nat): (n: nat)
    requires i <= |entries|
    ensures i <= n <= |entries|
    decreases |entries| - i
  {
    if i == |entries| || (IsWritten(entries[i]) && !Fits(hd, index, entries[i].blocks, Some(0))) then i
    else FirstMisfit(hd, index, entries, i + 1)
  }

  /** A block at a known position is read from its volume; behind a block of unknown size it cannot be placed. */
  function PlanBlock(index: Index, file: nat, hash: string, off: Option<nat>): Planned {
    match off
    case Some(o) => Planned(Find(index.volumes, hash), Job(file, o, hash))
    case None => Planned(None, Job(file, 0, hash))
  }

  /** One file's blocks from `off` on; then `rest`. */
  function FilePlan(hd: Header, index: Index, file: nat, blocks: seq<string>, off: Option<nat>, rest: seq<Planned>): seq<Planned> {
    if blocks == [] then rest
    else
      [PlanBlock(index, file, blocks[0], off)]
      + FilePlan(hd, index, file, blocks[1..], NextOffset(hd, index, blocks[0], off), rest)
  }

  /** The whole plan, file by file. */
  function PlanFrom(hd: Header, index: Index, entries: seq<Entry>, i: nat): seq<Planned>
    requires i <= |entries|
    decreases |entries| - i
  {
    if i == |entries| then []
    else if !IsWritten(entries[i]) then PlanFrom(hd, index, entries, i + 1)
    else FilePlan(hd, index, i, entries[i].blocks, Some(0), PlanFrom(hd, index, entries, i + 1))
  }

  /** `jobs.setdefault(volume, []).append(job)`: groups keep the order their volumes first came up in. */
  function AddJob(groups: seq<Group>, p: Planned): seq<Group> {
    if groups == [] then [Group(p.volume, [p.job])]
    else if groups[0].volume == p.volume then [Group(p.volume, groups[0].jobs + [p.job])] + groups[1..]
    else [groups[0]] + AddJob(groups[1..], p)
  }

  function GroupAll(groups: seq<Group>, plan: seq<Planned>): seq<Group>
    decreases |plan|
  {
    if plan == [] then groups else GroupAll(AddJob(groups, plan[0]), plan[1..])
  }

  /** One turn of the plan loop; with fixed blocks the position is computed afresh for every block. */
  method PlanOne(hd: Header, index: Index, file: nat, bi: nat, h: string, before: seq<Group>, offBefore: Option<nat>, ghost at: Option<nat>)
    returns (jobs: seq<Group>, off: Option<nat>, raised: bool)
    requires at == if hd.variable then offBefore else Some(bi * hd.blockSize)
    ensures raised <==> Misfit(hd, index, h, at)
    ensures !raised ==> jobs == AddJob(before, PlanBlock(index, file, h, at))
    ensures !raised && hd.variable ==> off == NextOffset(hd, index, h, at)
  {
    jobs, off, raised := before, offBefore, false;
    if !hd.variable {
      off := Some(bi * hd.blockSize);
    } else if off.None? {
      // Unknown size of an earlier block: position unknown.
      jobs := AddJob(jobs, Planned(None, Job(file, 0, h)));
      return;
    }
    jobs := AddJob(jobs, Planned(Find(index.volumes, h), Job(file, off.value, h)));
    if hd.variable {
      if Find(index.sizes, h) == Some(Unfit) {
        raised := true;
        return;
      }
      off := if KnownSize(index, h).Some? then Some(off.value + KnownSize(index, h).value) else None;
    }
  }

  lemma NextMultiple(bi: nat, n: nat)
    ensures bi * n + n == (bi + 1) * n
  {
  }

  /** One file's part of the plan loop. */
  method PlanFile(hd: Header, index: Index, file: nat, blocks: seq<string>, before: seq<Group>, ghost rest: seq<Planned>)
    returns (jobs: seq<Group>, raised: bool)
    ensures !raised <==> Fits(hd, index, blocks, Some(0))
    ensures !raised ==> GroupAll(jobs, rest) == GroupAll(before, FilePlan(hd, index, file, blocks, Some(0), rest))
  {
    jobs, raised := before, false;
    var off: Option<nat> := Some(0);
    ghost var left, at := blocks, off;
    for bi := 0 to |blocks|
      invariant left == blocks[bi..]
      invariant at == if hd.variable then off else Some(bi * hd.blockSize)
      invariant Fits(hd, index, left, at) <==> Fits(hd, index, blocks, Some(0))
      invariant GroupAll(jobs, FilePlan(hd, index, file, left, at, rest))
        == GroupAll(before, FilePlan(hd, index, file, blocks, Some(0), rest))
    {
      GroupStep(jobs, hd, index, file, left, at, rest);
      FitsStep(hd, index, left, at);
      jobs, off, raised := PlanOne(hd, index, file, bi, blocks[bi], jobs, off, at);
      if raised {
        return;
      }
      NextMultiple(bi, hd.blockSize);
      left, at := left[1..], NextOffset(hd, index, blocks[bi], at);
    }
  }

  lemma FitsStep(hd: Header, index: Index, blocks: seq<string>, off: Option<nat>)
    requires blocks != []
    ensures Fits(hd, index, blocks, off) <==>
      !Misfit(hd, index, blocks[0], off) && Fits(hd, index, blocks[1..], NextOffset(hd, index, blocks[0], off))
  {
  }

  lemma GroupStep(jobs: seq<Group>, hd: Header, index: Index, file: nat, blocks: seq<string>, off: Option<nat>, rest: seq<Planned>)
    requires blocks != []
    ensures GroupAll(jobs, FilePlan(hd, index, file, blocks, off, rest))
      == GroupAll(AddJob(jobs, PlanBlock(index, file, blocks[0], off)),
        FilePlan(hd, index, file, blocks[1..], NextOffset(hd, index, blocks[0], off), rest))
  {
    var plan := FilePlan(hd, index, file, blocks, off, rest);
    assert plan[1..] == FilePlan(hd, index, file, blocks[1..], NextOffset(hd, index, blocks[0], off), rest);
  }

  /** With fixed blocks, block number k goes to k times the block size. */
  lemma {:induction false} FixedBlocksAt(hd: Header, index: Index, file: nat, blocks: seq<string>, off: nat, k: nat)
    requires !hd.variable && k < |blocks|
    ensures var plan := FilePlan(hd, index, file, blocks, Some(off), []);
      |plan| == |blocks| && plan[k] == Planned(Find(index.volumes, blocks[k]), Job(file, off + k * hd.blockSize, blocks[k]))
    decreases |blocks|
  {
    var rest := FilePlan(hd, index, file, blocks[1..], Some(off + hd.blockSize), []);
    if |blocks| > 1 {
      FixedBlocksAt(hd, index, file, blocks[1..], off + hd.blockSize, if k > 0 then k - 1 else 0);
    }
    if k > 0 {
      Distribute(off, k, hd.blockSize);
    }
  }

  lemma Distribute(off: nat, k: nat, n: nat)
    requires k > 0
    ensures off + n + (k - 1) * n == off + k * n
  {
  }

  /** The bytes of the blocks in front, when all their sizes are known. */
  function SizeSum(index: Index, blocks: seq<string>): Option<nat> {
    if blocks == [] then Some(0)
    else
      match (KnownSize(index, blocks[0]), SizeSum(index, blocks[1..]))
      case (Some(n), Some(m)) => Some(n + m)
      case _ => None
  }

  /** With content-defined blocks, each goes behind the sum of the sizes in front of it; behind an unknown size, nowhere.
      (A size that cannot be added ends the plan before that.) */
  lemma {:induction false} VariableBlocksAt(hd: Header, index: Index, file: nat, blocks: seq<string>, off: nat, k: nat)
    requires hd.variable && k < |blocks|
    ensures var plan := FilePlan(hd, index, file, blocks, Some(off), []);
      |plan| == |blocks| && plan[k] ==
        match SizeSum(index, blocks[..k])
        case Some(n) => Planned(Find(index.volumes, blocks[k]), Job(file, off + n, blocks[k]))
        case None => Planned(None, Job(file, 0, blocks[k]))
    decreases |blocks|
  {
    var next := NextOffset(hd, index, blocks[0], Some(off));
    if next.None? {
      UnplacedBlocks(hd, index, file, blocks[1..]);
    } else if |blocks| > 1 {
      VariableBlocksAt(hd, index, file, blocks[1..], next.value, if k > 0 then k - 1 else 0);
    }
    if k > 0 {
      assert blocks[..k][0] == blocks[0] && blocks[..k][1..] == blocks[1..][..k - 1];
    }
  }

  lemma {:induction false} UnplacedBlocks(hd: Header, index: Index, file: nat, blocks: seq<string>)
    ensures var plan := FilePlan(hd, index, file, blocks, None, []);
      |plan| == |blocks| && forall k | 0 <= k < |blocks| :: plan[k] == Planned(None, Job(file, 0, blocks[k]))
  {
    if blocks != [] {
      UnplacedBlocks(hd, index, file, blocks[1..]);
    }
  }

  // ---------- groups ----------

  /** Everything but folders and links is written as a file. */
  lemma WrittenExactlyWhen(e: Entry)
    ensures IsWritten(e) <==> e.kind == File || e.kind == Unknown
  {
  }

  /** The jobs of one volume, in plan order. */
  function JobsOf(plan: seq<Planned>, volume: Option<string>): seq<Job> {
    if plan == [] then []
    else (if plan[0].volume == volume then [plan[0].job] else []) + JobsOf(plan[1..], volume)
  }

  lemma {:induction false} JobsSnoc(plan: seq<Planned>, p: Planned, volume: Option<string>)
    ensures JobsOf(plan + [p], volume) == JobsOf(plan, volume) + if p.volume == volume then [p.job] else []
  {
    var all := plan + [p];
    if plan == [] {
      assert all[1..] == [];
    } else {
      assert all[1..] == plan[1..] + [p] && all[0] == plan[0];
      JobsSnoc(plan[1..], p, volume);
      var one := if plan[0].volume == volume then [plan[0].job] else [];
      assert one + (JobsOf(plan[1..], volume) + if p.volume == volume then [p.job] else [])
        == one + JobsOf(plan[1..], volume) + if p.volume == volume then [p.job] else [];
    }
  }

  /** The volumes in the order they first come up. */
  function Volumes(groups: seq<Group>): seq<Option<string>> {
    if groups == [] then [] else [groups[0].volume] + Volumes(groups[1..])
  }

  function JobsIn(groups: seq<Group>, volume: Option<string>): seq<Job> {
    if groups == [] then [] else if groups[0].volume == volume then groups[0].jobs else JobsIn(groups[1..], volume)
  }

  lemma {:induction false} VolumesAre(groups: seq<Group>)
    ensures |Volumes(groups)| == |groups|
    ensures forall i | 0 <= i < |groups| :: Volumes(groups)[i] == groups[i].volume
  {
    if groups != [] {
      VolumesAre(groups[1..]);
    }
  }

  lemma {:induction false} AddJobAdds(groups: seq<Group>, p: Planned, volume: Option<string>)
    ensures Volumes(AddJob(groups, p)) == Volumes(groups) + if p.volume in Volumes(groups) then [] else [p.volume]
    ensures JobsIn(AddJob(groups, p), volume) == JobsIn(groups, volume) + if p.volume == volume then [p.job] else []
  {
    if groups != [] && groups[0].volume != p.volume {
      AddJobAdds(groups[1..], p, volume);
    }
  }

  /** The groups made from a plan: its volumes in the order they first come up, each once, with all its jobs in plan order. */
  lemma {:induction false} GroupsAre(plan: seq<Planned>, volume: Option<string>)
    ensures var groups := GroupAll([], plan);
      && (forall i, j | 0 <= i < j < |Volumes(groups)| :: Volumes(groups)[i] != Volumes(groups)[j])
      && (volume in Volumes(groups) <==> exists k :: 0 <= k < |plan| && plan[k].volume == volume)
      && JobsIn(groups, volume) == JobsOf(plan, volume)
    decreases |plan|
  {
    if plan != [] {
      var n := |plan| - 1;
      var front, p := plan[..n], plan[n];
      assert plan == front + [p];
      GroupSnoc([], front, p);
      GroupsAre(front, volume);
      GroupsAre(front, p.volume);
      AddJobAdds(GroupAll([], front), p, volume);
      JobsSnoc(front, p, volume);
    }
  }

  /** One more block: a volume that is new comes last. */
  lemma {:induction false} GroupSnoc(groups: seq<Group>, plan: seq<Planned>, p: Planned)
    ensures GroupAll(groups, plan + [p]) == AddJob(GroupAll(groups, plan), p)
    decreases |plan|
  {
    var all := plan + [p];
    if plan == [] {
      assert all[1..] == [];
    } else {
      assert all[1..] == plan[1..] + [p];
      GroupSnoc(AddJob(groups, plan[0]), plan[1..], p);
    }
  }
}
