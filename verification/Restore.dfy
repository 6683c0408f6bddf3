/** Restoring files from a backup folder, volume by volume. */
module Restore {
  import opened Wrappers
  import opened Bytes
  import opened Sequences
  import opened BlockPayload
  import opened BlockIndex
  import opened RestorePlan
  import opened Writes

  /** Everything a restore reads. */
  datatype Backup = Backup(hd: Header, lib: Library, volumes: seq<Volume>)

  function VolumeNamed(volumes: seq<Volume>, name: string): Outcome<Volume> {
    if volumes == [] then Err(Crash) else if volumes[0].name == name then Ok(volumes[0]) else VolumeNamed(volumes[1..], name)
  }

  /** The blocks a group of jobs reads from: none when the volume is unknown or unreadable. */
  function GroupBlocks(b: Backup, volume: Option<string>): Outcome<map<string, seq<byte>>> {
    match volume
    case None => Ok(map[])
    case Some(name) =>
      var v :- VolumeNamed(b.volumes, name);
      match ReadVolume(b.lib, v)
      case Ok(blocks) => Ok(blocks)
      case Err(Fail(_)) => Ok(map[])
      case Err(Crash) => Err(Crash)
  }

  /** A block that is there and has the right hash. */
  function Verified(b: Backup, blocks: map<string, seq<byte>>, hash: string): Option<seq<byte>> {
    match Find(blocks, hash)
    case None => None
    case Some(data) => if Find(b.hd.blockHash, data) == Some(hash) then Some(data) else None
  }

  /** The files being written, by entry, and how many blocks of each are missing. */
  datatype State = State(files: map<nat, seq<byte>>, missing: map<nat, nat>)

  function Missing(st: State, i: nat): nat {
    Find(st.missing, i).GetOr(0)
  }

  function DoJob(b: Backup, blocks: map<string, seq<byte>>, st: State, job: Job): State {
    match Verified(b, blocks, job.hash)
    case None => st.(missing := st.missing[job.file := Missing(st, job.file) + 1])
    case Some(data) =>
      if job.file in st.files then st.(files := st.files[job.file := WriteAt(st.files[job.file], Write(job.off, data))]) else st
  }

  function DoJobs(b: Backup, blocks: map<string, seq<byte>>, st: State, jobs: seq<Job>): State
    decreases |jobs|
  {
    if jobs == [] then st else DoJobs(b, blocks, DoJob(b, blocks, st, jobs[0]), jobs[1..])
  }

  /** All groups in order; a volume that raises another exception than the script's own ends the run there. */
  function DoGroups(b: Backup, st: State, groups: seq<Group>): (State, bool)
    decreases |groups|
  {
    if groups == [] then (st, true)
    else
      match GroupBlocks(b, groups[0].volume)
      case Err(_) => (st, false)
      case Ok(blocks) => DoGroups(b, DoJobs(b, blocks, st, groups[0].jobs), groups[1..])
  }

  // ---------- what a list of planned jobs writes ----------

  /** The verified data for a planned block, if its volume yields it. */
  function Fetch(b: Backup, p: Planned): Option<seq<byte>> {
    match GroupBlocks(b, p.volume)
    case Err(_) => None
    case Ok(blocks) => Verified(b, blocks, p.job.hash)
  }

  /** The writes into file `i`. */
  function WritesTo(b: Backup, i: nat, plan: seq<Planned>): seq<Write> {
    if plan == [] then []
    else
      var p := plan[0];
      if p.job.file == i && Fetch(b, p).Some? then [Write(p.job.off, Fetch(b, p).value)] + WritesTo(b, i, plan[1..])
      else WritesTo(b, i, plan[1..])
  }

  /** How many blocks of file `i` cannot be written. */
  function Lost(b: Backup, i: nat, plan: seq<Planned>): nat {
    if plan == [] then 0
    else (if plan[0].job.file == i && Fetch(b, plan[0]).None? then 1 else 0) + Lost(b, i, plan[1..])
  }

  function OfGroup(g: Group): seq<Planned> {
    OfJobs(g.volume, g.jobs)
  }

  function OfJobs(volume: Option<string>, jobs: seq<Job>): seq<Planned> {
    if jobs == [] then [] else [Planned(volume, jobs[0])] + OfJobs(volume, jobs[1..])
  }

  /** The jobs in the order they are done. */
  function Ungroup(groups: seq<Group>): seq<Planned> {
    if groups == [] then [] else OfGroup(groups[0]) + Ungroup(groups[1..])
  }

  lemma {:induction false} WritesToConcat(b: Backup, i: nat, p: seq<Planned>, q: seq<Planned>)
    ensures WritesTo(b, i, p + q) == WritesTo(b, i, p) + WritesTo(b, i, q)
    ensures Lost(b, i, p + q) == Lost(b, i, p) + Lost(b, i, q)
  {
    if p == [] {
      assert p + q == q;
    } else {
      var more := WritesTo(b, i, p[1..]);
      WritesToConcat(b, i, p[1..], q);
      assert (p + q)[1..] == p[1..] + q;
      if p[0].job.file == i && Fetch(b, p[0]).Some? {
        Associative([Write(p[0].job.off, Fetch(b, p[0]).value)], more, WritesTo(b, i, q));
      }
    }
  }

  lemma {:induction false} WriteAllConcat(s: seq<byte>, v: seq<Write>, w: seq<Write>)
    ensures WriteAll(s, v + w) == WriteAll(WriteAll(s, v), w)
    decreases |v|
  {
    if v == [] {
      assert v + w == w;
    } else {
      WriteAllConcat(WriteAt(s, v[0]), v[1..], w);
      assert (v + w)[1..] == v[1..] + w;
    }
  }

  lemma {:induction false} ElementsConcat(v: seq<Write>, w: seq<Write>)
    ensures Elements(v + w) == Elements(v) + Elements(w)
  {
    if v == [] {
      assert v + w == w;
    } else {
      ElementsConcat(v[1..], w);
      assert (v + w)[1..] == v[1..] + w;
    }
  }

  /** What happened to file `i`: exactly the writes of `plan`, and a count of what it lost. */
  ghost predicate Did(b: Backup, i: nat, before: State, after: State, plan: seq<Planned>) {
    && (i in after.files <==> i in before.files)
    && (i in before.files ==> after.files[i] == WriteAll(before.files[i], WritesTo(b, i, plan)))
    && Missing(after, i) == Missing(before, i) + Lost(b, i, plan)
  }

  lemma {:induction false} DoJobsDid(b: Backup, i: nat, volume: Option<string>, st: State, jobs: seq<Job>)
    requires GroupBlocks(b, volume).Ok?
    ensures Did(b, i, st, DoJobs(b, GroupBlocks(b, volume).value, st, jobs), OfJobs(volume, jobs))
    decreases |jobs|
  {
    if jobs != [] {
      var blocks := GroupBlocks(b, volume).value;
      var plan := OfJobs(volume, jobs);
      assert plan[0] == Planned(volume, jobs[0]) && plan[1..] == OfJobs(volume, jobs[1..]);
      DoJobsDid(b, i, volume, DoJob(b, blocks, st, jobs[0]), jobs[1..]);
    }
  }

  lemma DidBoth(b: Backup, i: nat, s0: State, s1: State, s2: State, p: seq<Planned>, q: seq<Planned>)
    requires Did(b, i, s0, s1, p) && Did(b, i, s1, s2, q)
    ensures Did(b, i, s0, s2, p + q)
  {
    WritesToConcat(b, i, p, q);
    if i in s0.files {
      WriteAllConcat(s0.files[i], WritesTo(b, i, p), WritesTo(b, i, q));
    }
  }

  /** A run to the end does to each file exactly what the ungrouped list says. */
  lemma {:induction false} DoGroupsDid(b: Backup, i: nat, st: State, groups: seq<Group>)
    requires DoGroups(b, st, groups).1
    ensures Did(b, i, st, DoGroups(b, st, groups).0, Ungroup(groups))
    decreases |groups|
  {
    if groups != [] {
      var g := groups[0];
      var st1 := DoJobs(b, GroupBlocks(b, g.volume).value, st, g.jobs);
      DoJobsDid(b, i, g.volume, st, g.jobs);
      DoGroupsDid(b, i, st1, groups[1..]);
      DidBoth(b, i, st, st1, DoGroups(b, st, groups).0, OfGroup(g), Ungroup(groups[1..]));
    }
  }

  /** Nothing is written that is not the verified block planned for that place. */
  lemma {:induction false} OnlyVerifiedIsWritten(b: Backup, i: nat, plan: seq<Planned>, w: Write)
    requires w in Elements(WritesTo(b, i, plan))
    ensures exists k :: 0 <= k < |plan| && IsSource(b, i, plan[k], w)
  {
    var p, rest := plan[0], plan[1..];
    if w in Elements(WritesTo(b, i, rest)) {
      OnlyVerifiedIsWritten(b, i, rest, w);
      var k :| 0 <= k < |rest| && IsSource(b, i, rest[k], w);
      assert plan[k + 1] == rest[k];
    } else {
      assert IsSource(b, i, plan[0], w);
    }
  }

  /** A planned block is the source of a write: same file, same place, its data, its hash. */
  ghost predicate IsSource(b: Backup, i: nat, p: Planned, w: Write) {
    && p.job.file == i && p.job.off == w.off
    && Fetch(b, p) == Some(w.data) && Find(b.hd.blockHash, w.data) == Some(p.job.hash)
  }

  lemma {:induction false} VolumeByName(volumes: seq<Volume>, i: nat)
    requires i < |volumes| && forall j | 0 <= j < i :: volumes[j].name != volumes[i].name
    ensures VolumeNamed(volumes, volumes[i].name) == Ok(volumes[i])
  {
    if i > 0 {
      VolumeByName(volumes[1..], i - 1);
    }
  }

  /** A needed block no index lists is written exactly when the first readable block volume that holds it has the right
      data for it: an intact copy in a later volume does not help. */
  lemma ScannedBlockExactlyWhen(b: Backup, needed: set<string>, h: string, i: nat, off: nat)
    requires forall j, k | 0 <= j < k < |b.volumes| :: b.volumes[j].name != b.volumes[k].name
    requires IndexOf(b.lib, b.volumes, needed).Ok? && h in needed && Listed(b.lib, b.volumes, h, None).None?
    ensures var holder, fetched := Holder(b.lib, b.volumes, h), Fetch(b, PlanBlock(IndexOf(b.lib, b.volumes, needed).value, i, h, Some(off)));
      && (fetched.Some? <==> holder.Some? && Find(b.hd.blockHash, ReadVolume(b.lib, holder.value).value[h]) == Some(h))
      && (fetched.Some? ==> fetched.value == ReadVolume(b.lib, holder.value).value[h])
  {
    LocatedExactlyWhen(b.lib, b.volumes, needed, h);
    HolderHolds(b.lib, b.volumes, h);
    if Holder(b.lib, b.volumes, h).Some? {
      var v := Holder(b.lib, b.volumes, h).value;
      var k :| 0 <= k < |b.volumes| && b.volumes[k] == v;
      VolumeByName(b.volumes, k);
    }
  }

  // ---------- grouping loses nothing ----------

  lemma {:induction false} OfJobsSnoc(volume: Option<string>, jobs: seq<Job>, job: Job)
    ensures OfJobs(volume, jobs + [job]) == OfJobs(volume, jobs) + [Planned(volume, job)]
  {
    if jobs == [] {
      assert jobs + [job] == [job];
    } else {
      OfJobsSnoc(volume, jobs[1..], job);
      assert (jobs + [job])[1..] == jobs[1..] + [job];
    }
  }

  /** Two lists write the same set of data into file `i` and lose as much. */
  ghost predicate SameEffect(b: Backup, i: nat, p: seq<Planned>, q: seq<Planned>) {
    Elements(WritesTo(b, i, p)) == Elements(WritesTo(b, i, q)) && Lost(b, i, p) == Lost(b, i, q)
  }

  lemma EffectConcat(b: Backup, i: nat, p: seq<Planned>, q: seq<Planned>)
    ensures Elements(WritesTo(b, i, p + q)) == Elements(WritesTo(b, i, p)) + Elements(WritesTo(b, i, q))
    ensures Lost(b, i, p + q) == Lost(b, i, p) + Lost(b, i, q)
  {
    WritesToConcat(b, i, p, q);
    ElementsConcat(WritesTo(b, i, p), WritesTo(b, i, q));
  }

  lemma {:induction false} AddJobEffect(b: Backup, i: nat, groups: seq<Group>, p: Planned)
    ensures SameEffect(b, i, Ungroup(AddJob(groups, p)), Ungroup(groups) + [p])
    decreases |groups|
  {
    EffectConcat(b, i, Ungroup(groups), [p]);
    if groups == [] {
      var g := Group(p.volume, [p.job]);
      assert [p.job][1..] == [] && OfJobs(p.volume, []) == [];
      assert OfGroup(g) == [p];
      assert Ungroup([g]) == [p] + [];
    } else {
      var g, rest := groups[0], Ungroup(groups[1..]);
      EffectConcat(b, i, OfGroup(g), rest);
      if g.volume == p.volume {
        var g' := Group(p.volume, g.jobs + [p.job]);
        OfJobsSnoc(g.volume, g.jobs, p.job);
        EffectConcat(b, i, OfGroup(g), [p]);
        EffectConcat(b, i, OfGroup(g'), rest);
        assert AddJob(groups, p)[1..] == groups[1..];
      } else {
        AddJobEffect(b, i, groups[1..], p);
        EffectConcat(b, i, rest, [p]);
        EffectConcat(b, i, OfGroup(g), Ungroup(AddJob(groups[1..], p)));
        assert AddJob(groups, p)[1..] == AddJob(groups[1..], p);
      }
    }
  }

  lemma {:induction false} GroupAllEffect(b: Backup, i: nat, groups: seq<Group>, plan: seq<Planned>)
    ensures SameEffect(b, i, Ungroup(GroupAll(groups, plan)), Ungroup(groups) + plan)
    decreases |plan|
  {
    EffectConcat(b, i, Ungroup(groups), plan);
    if plan != [] {
      var p, rest := plan[0], plan[1..];
      assert plan == [p] + rest;
      AddJobEffect(b, i, groups, p);
      GroupAllEffect(b, i, AddJob(groups, p), rest);
      EffectConcat(b, i, Ungroup(AddJob(groups, p)), rest);
      EffectConcat(b, i, Ungroup(groups), [p]);
      EffectConcat(b, i, [p], rest);
    }
  }

  // ---------- one file's share of the plan ----------

  lemma {:induction false} FilePlanConcat(hd: Header, index: Index, i: nat, blocks: seq<string>, off: Option<nat>, rest: seq<Planned>)
    ensures FilePlan(hd, index, i, blocks, off, rest) == FilePlan(hd, index, i, blocks, off, []) + rest
  {
    if blocks != [] {
      var next := NextOffset(hd, index, blocks[0], off);
      FilePlanConcat(hd, index, i, blocks[1..], next, rest);
      Associative([PlanBlock(index, i, blocks[0], off)], FilePlan(hd, index, i, blocks[1..], next, []), rest);
    }
  }

  lemma {:induction false} OtherFile(b: Backup, index: Index, i: nat, j: nat, blocks: seq<string>, off: Option<nat>, rest: seq<Planned>)
    requires i != j
    ensures WritesTo(b, i, FilePlan(b.hd, index, j, blocks, off, rest)) == WritesTo(b, i, rest)
    ensures Lost(b, i, FilePlan(b.hd, index, j, blocks, off, rest)) == Lost(b, i, rest)
  {
    if blocks != [] {
      var next := NextOffset(b.hd, index, blocks[0], off);
      var plan := FilePlan(b.hd, index, j, blocks, off, rest);
      assert plan[1..] == FilePlan(b.hd, index, j, blocks[1..], next, rest);
      OtherFile(b, index, i, j, blocks[1..], next, rest);
    }
  }

  lemma {:induction false} LaterFiles(b: Backup, index: Index, entries: seq<Entry>, i: nat, k: nat)
    requires i < k <= |entries|
    ensures WritesTo(b, i, PlanFrom(b.hd, index, entries, k)) == [] && Lost(b, i, PlanFrom(b.hd, index, entries, k)) == 0
    decreases |entries| - k
  {
    if k < |entries| {
      LaterFiles(b, index, entries, i, k + 1);
      OtherFile(b, index, i, k, entries[k].blocks, Some(0), PlanFrom(b.hd, index, entries, k + 1));
    }
  }

  /** The plan for entry `i` alone. */
  function OwnPlan(b: Backup, index: Index, entries: seq<Entry>, i: nat): seq<Planned>
    requires i < |entries|
  {
    FilePlan(b.hd, index, i, entries[i].blocks, Some(0), [])
  }

  lemma {:induction false} PlanOfFile(b: Backup, index: Index, entries: seq<Entry>, i: nat, k: nat)
    requires k <= i < |entries| && IsWritten(entries[i])
    ensures var plan, own := PlanFrom(b.hd, index, entries, k), OwnPlan(b, index, entries, i);
      WritesTo(b, i, plan) == WritesTo(b, i, own) && Lost(b, i, plan) == Lost(b, i, own)
    decreases i - k
  {
    var rest := PlanFrom(b.hd, index, entries, k + 1);
    if k < i {
      PlanOfFile(b, index, entries, i, k + 1);
      OtherFile(b, index, i, k, entries[k].blocks, Some(0), rest);
    } else {
      var own := OwnPlan(b, index, entries, i);
      LaterFiles(b, index, entries, i, k + 1);
      FilePlanConcat(b.hd, index, i, entries[i].blocks, Some(0), rest);
      WritesToConcat(b, i, own, rest);
      assert WritesTo(b, i, own) + [] == WritesTo(b, i, own);
    }
  }

  /** Every block reference is either written or counted as missing. */
  lemma {:induction false} WrittenOrLost(b: Backup, index: Index, i: nat, blocks: seq<string>, off: Option<nat>)
    ensures var plan := FilePlan(b.hd, index, i, blocks, off, []);
      |WritesTo(b, i, plan)| + Lost(b, i, plan) == |blocks|
  {
    if blocks != [] {
      var next := NextOffset(b.hd, index, blocks[0], off);
      assert FilePlan(b.hd, index, i, blocks, off, [])[1..] == FilePlan(b.hd, index, i, blocks[1..], next, []);
      WrittenOrLost(b, index, i, blocks[1..], next);
    }
  }

  // ---------- what a restored file holds ----------

  /** No verified block reaches past the place of the next one. (Of a lost block this says nothing: if its size is wrong,
      so are the places behind it.) */
  predicate SizesFit(b: Backup, index: Index, i: nat, blocks: seq<string>, off: Option<nat>) {
    blocks == []
    || (var data, step := Fetch(b, PlanBlock(index, i, blocks[0], off)), Advance(b.hd, index, blocks[0]);
        (|blocks| > 1 && data.Some? && step.Some? ==> |data.value| <= step.value)
        && SizesFit(b, index, i, blocks[1..], NextOffset(b.hd, index, blocks[0], off)))
  }

  /** One step of a file's plan. */
  lemma WritesStep(b: Backup, index: Index, i: nat, blocks: seq<string>, off: Option<nat>)
    requires blocks != []
    ensures var p, next := PlanBlock(index, i, blocks[0], off), NextOffset(b.hd, index, blocks[0], off);
      var more := WritesTo(b, i, FilePlan(b.hd, index, i, blocks[1..], next, []));
      WritesTo(b, i, FilePlan(b.hd, index, i, blocks, off, []))
        == match Fetch(b, p) case Some(data) => [Write(p.job.off, data)] + more case None => more
  {
    var next := NextOffset(b.hd, index, blocks[0], off);
    assert FilePlan(b.hd, index, i, blocks, off, [])[1..] == FilePlan(b.hd, index, i, blocks[1..], next, []);
  }

  /** Behind a position, a file is only written from there on; behind an unknown one, not at all. */
  lemma {:induction false} WritesFrom(b: Backup, index: Index, i: nat, blocks: seq<string>, off: Option<nat>)
    ensures forall w | w in Elements(WritesTo(b, i, FilePlan(b.hd, index, i, blocks, off, []))) :: off.Some? && off.value <= w.off
  {
    if blocks != [] {
      WritesStep(b, index, i, blocks, off);
      WritesFrom(b, index, i, blocks[1..], NextOffset(b.hd, index, blocks[0], off));
    }
  }

  /** Each write ends where the next one starts, or before. */
  ghost predicate Apart(ws: seq<Write>) {
    forall j, k | 0 <= j < k < |ws| :: ws[j].off + |ws[j].data| <= ws[k].off
  }

  lemma {:induction false} ElementsAre(ws: seq<Write>)
    ensures forall w :: w in Elements(ws) <==> w in ws
  {
    if ws != [] {
      ElementsAre(ws[1..]);
      assert ws == [ws[0]] + ws[1..];
    }
  }

  lemma ApartAgree(ws: seq<Write>)
    requires Apart(ws)
    ensures AllAgree(Elements(ws))
  {
    ElementsAre(ws);
    forall v, w | v in ws && w in ws ensures Agree(v, w) {
      var j :| 0 <= j < |ws| && ws[j] == v;
      var k :| 0 <= k < |ws| && ws[k] == w;
      assert j < k || j == k || k < j;
    }
  }

  /** With such sizes, no two blocks of a file overlap. */
  lemma {:induction false} BlocksApart(b: Backup, index: Index, i: nat, blocks: seq<string>, off: Option<nat>)
    requires SizesFit(b, index, i, blocks, off)
    ensures Apart(WritesTo(b, i, FilePlan(b.hd, index, i, blocks, off, [])))
  {
    if blocks != [] {
      var next := NextOffset(b.hd, index, blocks[0], off);
      var more := WritesTo(b, i, FilePlan(b.hd, index, i, blocks[1..], next, []));
      WritesStep(b, index, i, blocks, off);
      WritesFrom(b, index, i, blocks[1..], next);
      ElementsAre(more);
      BlocksApart(b, index, i, blocks[1..], next);
    }
  }

  /** The files of the first `n` entries, filled with zeros to their sizes. */
  function BlankFiles(entries: seq<Entry>, n: nat): map<nat, seq<byte>>
    requires n <= |entries|
  {
    map i: nat | i < n && IsWritten(entries[i]) :: Zeros(entries[i].size)
  }

  lemma OneMoreBlank(entries: seq<Entry>, n: nat)
    requires n < |entries|
    ensures BlankFiles(entries, n + 1) ==
      if IsWritten(entries[n]) then BlankFiles(entries, n)[n := Zeros(entries[n].size)] else BlankFiles(entries, n)
  {
  }

  /** The state a run starts from: every file of the plan blank, nothing missing. */
  function Blank(entries: seq<Entry>): State {
    State(BlankFiles(entries, |entries|), map[])
  }

  /** The state after a whole run, and whether it came to the end. A size that cannot be added ends it while the files are
      created. */
  function Run(b: Backup, index: Index, entries: seq<Entry>): (State, bool) {
    var n := FirstMisfit(b.hd, index, entries, 0);
    if n < |entries| then (State(BlankFiles(entries, n + 1), map[]), false)
    else DoGroups(b, Blank(entries), GroupAll([], PlanFrom(b.hd, index, entries, 0)))
  }

  /** What a run to the end does to one file: its own writes, in some order, into zeros. */
  lemma FileAfterRun(b: Backup, index: Index, entries: seq<Entry>, i: nat) returns (ws: seq<Write>)
    requires i < |entries| && IsWritten(entries[i]) && Run(b, index, entries).1
    ensures var st, own := Run(b, index, entries).0, OwnPlan(b, index, entries, i);
      && i in st.files && st.files[i] == WriteAll(Zeros(entries[i].size), ws)
      && Elements(ws) == Elements(WritesTo(b, i, own)) && {} + Elements(ws) == Elements(ws)
      && |WritesTo(b, i, own)| + Missing(st, i) == |entries[i].blocks|
  {
    var plan := PlanFrom(b.hd, index, entries, 0);
    var groups := GroupAll([], plan);
    ws := WritesTo(b, i, Ungroup(groups));
    DoGroupsDid(b, i, Blank(entries), groups);
    GroupAllEffect(b, i, [], plan);
    assert Ungroup([]) + plan == plan;
    PlanOfFile(b, index, entries, i, 0);
    WrittenOrLost(b, index, i, entries[i].blocks, Some(0));
  }

  /** Whatever is damaged and whatever the index says of sizes: every byte of a restored file is one of a verified block
      at its planned place, or zero where no such block goes; every block reference is either written or counted as missing. */
  lemma NothingElseIsWritten(b: Backup, index: Index, entries: seq<Entry>, i: nat)
    requires i < |entries| && IsWritten(entries[i]) && Run(b, index, entries).1
    ensures var st, own := Run(b, index, entries).0, OwnPlan(b, index, entries, i);
      && i in st.files && Comes(st.files[i], Zeros(entries[i].size), Elements(WritesTo(b, i, own)))
      && (forall w | w in Elements(WritesTo(b, i, own)) :: exists k :: 0 <= k < |own| && IsSource(b, i, own[k], w))
      && |WritesTo(b, i, own)| + Missing(st, i) == |entries[i].blocks|
  {
    var ws := FileAfterRun(b, index, entries, i);
    var own, base := OwnPlan(b, index, entries, i), Zeros(entries[i].size);
    WriteAllComes(base, base, {}, ws);
    forall w | w in Elements(WritesTo(b, i, own)) ensures exists k :: 0 <= k < |own| && IsSource(b, i, own[k], w) {
      OnlyVerifiedIsWritten(b, i, own, w);
    }
  }

  /** Damage is contained: when no verified block reaches past the place of the next one, a restored file is zeros with exactly
      its verified blocks at their planned places. */
  lemma RestoredFileIs(b: Backup, index: Index, entries: seq<Entry>, i: nat)
    requires i < |entries| && IsWritten(entries[i]) && Run(b, index, entries).1
    requires SizesFit(b, index, i, entries[i].blocks, Some(0))
    ensures var st, own := Run(b, index, entries).0, OwnPlan(b, index, entries, i);
      && i in st.files && IsImage(st.files[i], Zeros(entries[i].size), Elements(WritesTo(b, i, own)))
      && |WritesTo(b, i, own)| + Missing(st, i) == |entries[i].blocks|
  {
    var ws := FileAfterRun(b, index, entries, i);
    BlocksApart(b, index, i, entries[i].blocks, Some(0));
    ApartAgree(WritesTo(b, i, OwnPlan(b, index, entries, i)));
    var base := Zeros(entries[i].size);
    NoWrites(base);
    WriteAllIsImage(base, base, {}, ws);
  }

  /** Without overlaps, the order of the volumes does not matter. */
  lemma InPlanOrder(b: Backup, index: Index, entries: seq<Entry>, i: nat)
    requires i < |entries| && IsWritten(entries[i]) && Run(b, index, entries).1
    requires SizesFit(b, index, i, entries[i].blocks, Some(0))
    ensures var st, own := Run(b, index, entries).0, OwnPlan(b, index, entries, i);
      && i in st.files && st.files[i] == WriteAll(Zeros(entries[i].size), WritesTo(b, i, own))
      && |WritesTo(b, i, own)| + Missing(st, i) == |entries[i].blocks|
  {
    var own, base := OwnPlan(b, index, entries, i), Zeros(entries[i].size);
    var ws := WritesTo(b, i, own);
    RestoredFileIs(b, index, entries, i);
    BlocksApart(b, index, i, entries[i].blocks, Some(0));
    ApartAgree(ws);
    NoWrites(base);
    assert {} + Elements(ws) == Elements(ws);
    WriteAllIsImage(base, base, {}, ws);
    ImageIsUnique(Run(b, index, entries).0.files[i], WriteAll(base, ws), base, Elements(ws));
  }

  /** Every block of the file is there, and all but the last are as long as the step to the next one. */
  predicate AllThere(b: Backup, index: Index, i: nat, blocks: seq<string>, off: nat) {
    blocks == []
    || (var data := Fetch(b, PlanBlock(index, i, blocks[0], Some(off)));
        data.Some?
        && (|blocks| > 1 ==>
          Advance(b.hd, index, blocks[0]) == Some(|data.value|) && AllThere(b, index, i, blocks[1..], off + |data.value|)))
  }

  /** The blocks of a file, joined in order. */
  function Joined(b: Backup, index: Index, i: nat, blocks: seq<string>, off: nat): seq<byte>
    requires AllThere(b, index, i, blocks, off)
  {
    if blocks == [] then []
    else
      var data := Fetch(b, PlanBlock(index, i, blocks[0], Some(off))).value;
      if |blocks| == 1 then data else data + Joined(b, index, i, blocks[1..], off + |data|)
  }

  /** `front`, with zeros behind it up to `size`. */
  function Filled(front: seq<byte>, size: nat): seq<byte> {
    front + if |front| < size then Zeros(size - |front|) else []
  }

  lemma FillOn(front: seq<byte>, data: seq<byte>, size: nat)
    ensures WriteAt(Filled(front, size), Write(|front|, data)) == Filled(front + data, size)
  {
    if data == [] {
      assert front + data == front;
    } else {
      var s, w := Filled(front, size), Write(|front|, data);
      WriteAtBytes(s, w);
      var r, want := WriteAt(s, w), Filled(front + data, size);
      assert |r| == |want|;
      forall p: nat | p < |r| ensures r[p] == want[p] {
      }
    }
  }

  /** No block of a whole file reaches past the place of the next one, and none is lost. */
  lemma {:induction false} WholeFits(b: Backup, index: Index, i: nat, blocks: seq<string>, off: nat)
    requires AllThere(b, index, i, blocks, off)
    ensures SizesFit(b, index, i, blocks, Some(off))
    ensures Lost(b, i, FilePlan(b.hd, index, i, blocks, Some(off), [])) == 0
  {
    if blocks != [] {
      var next := NextOffset(b.hd, index, blocks[0], Some(off));
      assert FilePlan(b.hd, index, i, blocks, Some(off), [])[1..] == FilePlan(b.hd, index, i, blocks[1..], next, []);
      if |blocks| > 1 {
        WholeFits(b, index, i, blocks[1..], next.value);
      }
    }
  }

  /** One block written behind `front`. */
  lemma InOrderStep(b: Backup, index: Index, i: nat, blocks: seq<string>, front: seq<byte>, size: nat, data: seq<byte>)
    requires blocks != [] && Fetch(b, PlanBlock(index, i, blocks[0], Some(|front|))) == Some(data)
    ensures var next := NextOffset(b.hd, index, blocks[0], Some(|front|));
      WriteAll(Filled(front, size), WritesTo(b, i, FilePlan(b.hd, index, i, blocks, Some(|front|), [])))
      == WriteAll(Filled(front + data, size), WritesTo(b, i, FilePlan(b.hd, index, i, blocks[1..], next, [])))
  {
    var next := NextOffset(b.hd, index, blocks[0], Some(|front|));
    WritesStep(b, index, i, blocks, Some(|front|));
    FirstWrite(Filled(front, size), Write(|front|, data), WritesTo(b, i, FilePlan(b.hd, index, i, blocks[1..], next, [])));
    FillOn(front, data, size);
  }

  lemma FirstWrite(s: seq<byte>, w: Write, ws: seq<Write>)
    ensures WriteAll(s, [w] + ws) == WriteAll(WriteAt(s, w), ws)
  {
    assert ([w] + ws)[1..] == ws;
  }

  /** Behind `front`, the writes of `blocks` put them there, joined. */
  ghost predicate Fill(b: Backup, index: Index, i: nat, blocks: seq<string>, front: seq<byte>, size: nat)
    requires AllThere(b, index, i, blocks, |front|)
  {
    WriteAll(Filled(front, size), WritesTo(b, i, FilePlan(b.hd, index, i, blocks, Some(|front|), [])))
      == Filled(front + Joined(b, index, i, blocks, |front|), size)
  }

  lemma LastFills(b: Backup, index: Index, i: nat, blocks: seq<string>, front: seq<byte>, size: nat)
    requires |blocks| == 1 && AllThere(b, index, i, blocks, |front|)
    ensures Fill(b, index, i, blocks, front, size)
  {
    var data := Fetch(b, PlanBlock(index, i, blocks[0], Some(|front|))).value;
    InOrderStep(b, index, i, blocks, front, size, data);
    assert blocks[1..] == [];
  }

  lemma OneMoreFills(b: Backup, index: Index, i: nat, blocks: seq<string>, front: seq<byte>, size: nat, data: seq<byte>)
    requires |blocks| > 1 && AllThere(b, index, i, blocks, |front|)
    requires Fetch(b, PlanBlock(index, i, blocks[0], Some(|front|))) == Some(data)
    requires AllThere(b, index, i, blocks[1..], |front + data|) && Fill(b, index, i, blocks[1..], front + data, size)
    ensures Fill(b, index, i, blocks, front, size)
  {
    InOrderStep(b, index, i, blocks, front, size, data);
    JoinedStep(b, index, i, blocks, front, data);
  }

  lemma JoinedStep(b: Backup, index: Index, i: nat, blocks: seq<string>, front: seq<byte>, data: seq<byte>)
    requires |blocks| > 1 && AllThere(b, index, i, blocks, |front|)
    requires Fetch(b, PlanBlock(index, i, blocks[0], Some(|front|))) == Some(data)
    ensures AllThere(b, index, i, blocks[1..], |front + data|)
    ensures front + Joined(b, index, i, blocks, |front|) == (front + data) + Joined(b, index, i, blocks[1..], |front + data|)
  {
    Associative(front, data, Joined(b, index, i, blocks[1..], |front| + |data|));
  }

  /** In plan order, the blocks of a whole file fill it from the front. */
  lemma {:induction false} InOrder(b: Backup, index: Index, i: nat, blocks: seq<string>, front: seq<byte>, size: nat)
    requires AllThere(b, index, i, blocks, |front|)
    ensures Fill(b, index, i, blocks, front, size)
    decreases |blocks|
  {
    if blocks == [] {
      assert front + [] == front;
    } else if |blocks| == 1 {
      LastFills(b, index, i, blocks, front, size);
    } else {
      var data := Fetch(b, PlanBlock(index, i, blocks[0], Some(|front|))).value;
      InOrder(b, index, i, blocks[1..], front + data, size);
      OneMoreFills(b, index, i, blocks, front, size, data);
    }
  }

  /** A whole file, restored volume by volume in whatever order, is its blocks joined in order (with zeros behind them
      should the recorded size be larger), and nothing of it is missing. */
  lemma WholeFileIsJoined(b: Backup, index: Index, entries: seq<Entry>, i: nat)
    requires i < |entries| && IsWritten(entries[i]) && Run(b, index, entries).1
    requires AllThere(b, index, i, entries[i].blocks, 0)
    ensures var st := Run(b, index, entries).0;
      && i in st.files && st.files[i] == Filled(Joined(b, index, i, entries[i].blocks, 0), entries[i].size)
      && Missing(st, i) == 0
  {
    var e := entries[i];
    InOrder(b, index, i, e.blocks, [], e.size);
    WholeFits(b, index, i, e.blocks, 0);
    InPlanOrder(b, index, entries, i);
    assert Filled([], e.size) == Zeros(e.size);
    assert [] + Joined(b, index, i, e.blocks, 0) == Joined(b, index, i, e.blocks, 0);
    WrittenOrLost(b, index, i, e.blocks, Some(0));
  }

  // ---------- when a run comes to the end ----------

  predicate AllOpen(b: Backup, plan: seq<Planned>) {
    forall k | 0 <= k < |plan| :: GroupBlocks(b, plan[k].volume).Ok?
  }

  predicate GroupsOpen(b: Backup, groups: seq<Group>) {
    groups == [] || (GroupBlocks(b, groups[0].volume).Ok? && GroupsOpen(b, groups[1..]))
  }

  lemma {:induction false} FinishedMeansOpen(b: Backup, st: State, groups: seq<Group>)
    ensures DoGroups(b, st, groups).1 <==> GroupsOpen(b, groups)
    decreases |groups|
  {
    if groups != [] && GroupBlocks(b, groups[0].volume).Ok? {
      FinishedMeansOpen(b, DoJobs(b, GroupBlocks(b, groups[0].volume).value, st, groups[0].jobs), groups[1..]);
    }
  }

  lemma {:induction false} AddJobOpen(b: Backup, groups: seq<Group>, p: Planned)
    ensures GroupsOpen(b, AddJob(groups, p)) <==> GroupsOpen(b, groups) && GroupBlocks(b, p.volume).Ok?
  {
    if groups != [] {
      AddJobOpen(b, groups[1..], p);
      assert groups[0].volume != p.volume ==> AddJob(groups, p)[1..] == AddJob(groups[1..], p);
      assert groups[0].volume == p.volume ==> AddJob(groups, p)[1..] == groups[1..];
    }
  }

  lemma {:induction false} GroupAllOpen(b: Backup, groups: seq<Group>, plan: seq<Planned>)
    ensures GroupsOpen(b, GroupAll(groups, plan)) <==> GroupsOpen(b, groups) && AllOpen(b, plan)
    decreases |plan|
  {
    if plan != [] {
      AddJobOpen(b, groups, plan[0]);
      GroupAllOpen(b, AddJob(groups, plan[0]), plan[1..]);
      assert forall k | 0 <= k < |plan[1..]| :: plan[1..][k] == plan[k + 1];
      assert forall k | 0 < k < |plan| :: plan[k] == plan[1..][k - 1];
    }
  }

  /** With the index built, the run gets to the end exactly when no size that cannot be added comes up while files are
      planned, and no volume the write loop reads raises an exception the script does not catch. */
  lemma RunFinishesExactlyWhen(b: Backup, index: Index, entries: seq<Entry>)
    ensures Run(b, index, entries).1 <==>
      FirstMisfit(b.hd, index, entries, 0) == |entries| && AllOpen(b, PlanFrom(b.hd, index, entries, 0))
  {
    var plan := PlanFrom(b.hd, index, entries, 0);
    FinishedMeansOpen(b, Blank(entries), GroupAll([], plan));
    GroupAllOpen(b, [], plan);
  }

  /** `front`, then zeros up to `size`. */
  lemma FilledIs(front: seq<byte>, size: nat)
    ensures var r := Filled(front, size);
      && |r| == (if |front| < size then size else |front|) && r[..|front|] == front
      && forall p | |front| <= p < |r| :: r[p] == 0
  {
  }
}
