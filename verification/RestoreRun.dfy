/** The restore command: plan, write and report. */
module RestoreRun {
  import opened Wrappers
  import opened Bytes
  import opened BlockPayload
  import opened BlockIndex
  import opened RestorePlan
  import opened Writes
  import opened Restore

  /** The file of entry `i` is complete: nothing missing, and its recorded hash, if any, is that of its content. */
  predicate Complete(b: Backup, st: State, entries: seq<Entry>, i: nat)
    requires i < |entries|
  {
    && Missing(st, i) == 0
    && (entries[i].hash == "" || (i in st.files && Find(b.hd.fileHash, st.files[i]) == Some(entries[i].hash)))
  }

  datatype Report = Report(ok: nat, partial: nat, status: nat)

  function CountFiles(entries: seq<Entry>, n: nat): nat
    requires n <= |entries|
  {
    if n == 0 then 0 else CountFiles(entries, n - 1) + if entries[n - 1].kind == File then 1 else 0
  }

  function CountComplete(b: Backup, st: State, entries: seq<Entry>, n: nat): nat
    requires n <= |entries|
  {
    if n == 0 then 0
    else CountComplete(b, st, entries, n - 1) + if entries[n - 1].kind == File && Complete(b, st, entries, n - 1) then 1 else 0
  }

  /** What a restore reports: how many of the files are complete, how many are not, and success exactly when all are. */
  ghost predicate IsReport(b: Backup, st: State, entries: seq<Entry>, r: Report) {
    && r.ok == CountComplete(b, st, entries, |entries|)
    && r.ok + r.partial == CountFiles(entries, |entries|)
    && (r.status == 0 <==> forall i: nat | i < |entries| && entries[i].kind == File :: Complete(b, st, entries, i))
    && r.status <= 1
  }

  function Needed(entries: seq<Entry>): set<string> {
    set i, k | 0 <= i < |entries| && entries[i].kind == File && 0 <= k < |entries[i].blocks| :: entries[i].blocks[k]
  }

  /** The command gets to its report: there is something to restore, the index can be built, and the run
      comes to its end. */
  predicate Finishes(b: Backup, entries: seq<Entry>) {
    entries != []
    && var index := IndexOf(b.lib, b.volumes, Needed(entries));
    index.Ok? && Run(b, index.value, entries).1
  }

  /** The target folder, one file an entry, and the counts of missing blocks. */
  class Target {
    var files: map<nat, seq<byte>>
    var missing: map<nat, nat>

    ghost function State(): State
      reads this
    {
      Restore.State(files, missing)
    }

    constructor ()
      ensures State() == Restore.State(map[], map[])
    {
      files, missing := map[], map[];
    }

    /** Open for writing and truncate to `size`. */
    method Create(i: nat, size: nat)
      modifies this`files
      ensures files == old(files)[i := Zeros(size)]
    {
      files := files[i := Zeros(size)];
    }

    method DoJob(b: Backup, blocks: map<string, seq<byte>>, job: Job)
      modifies this
      ensures State() == Restore.DoJob(b, blocks, old(State()), job)
    {
      var data := Verified(b, blocks, job.hash);
      if data.None? {
        missing := missing[job.file := Find(missing, job.file).GetOr(0) + 1];
        return;
      }
      if job.file in files {
        files := files[job.file := WriteAt(files[job.file], Write(job.off, data.value))];
      }
    }

    method DoJobs(b: Backup, blocks: map<string, seq<byte>>, jobs: seq<Job>)
      modifies this
      ensures State() == Restore.DoJobs(b, blocks, old(State()), jobs)
    {
      var left := jobs;
      while left != []
        invariant Restore.DoJobs(b, blocks, State(), left) == Restore.DoJobs(b, blocks, old(State()), jobs)
        decreases |left|
      {
        DoJob(b, blocks, left[0]);
        left := left[1..];
      }
    }

    /** The blocks of one volume, as `read_blocks` yields them. */
    method Load(b: Backup, volume: Option<string>) returns (r: Outcome<map<string, seq<byte>>>)
      ensures r == GroupBlocks(b, volume)
    {
      if volume.None? {
        return Ok(map[]);
      }
      var v :- VolumeNamed(b.volumes, volume.value);
      match v.payload {
        case Err(Fail(_)) => r := Ok(map[]);
        case Err(Crash) => r := Err(Crash);
        case Ok(payload) =>
          r := ReadBlocks(b.lib.codec, payload);
          if r.Err? && r.error.Fail? {
            r := Ok(map[]);
          }
      }
    }

    /** The write loop; `false` when another exception than the script's own ended it. */
    method DoGroups(b: Backup, groups: seq<Group>) returns (finished: bool)
      modifies this
      ensures (State(), finished) == Restore.DoGroups(b, old(State()), groups)
    {
      var left := groups;
      while left != []
        invariant Restore.DoGroups(b, State(), left) == Restore.DoGroups(b, old(State()), groups)
        decreases |left|
      {
        var blocks := Load(b, left[0].volume);
        if blocks.Err? {
          return false;
        }
        DoJobs(b, blocks.value, left[0].jobs);
        left := left[1..];
      }
      finished := true;
    }

    /** The plan loop: create the files and collect the jobs; a size that cannot be added ends it. */
    method Plan(b: Backup, index: Index, entries: seq<Entry>) returns (jobs: seq<Group>, raised: bool)
      requires State() == Restore.State(map[], map[])
      modifies this
      ensures var n := FirstMisfit(b.hd, index, entries, 0);
        && (raised <==> n < |entries|)
        && State() == Restore.State(BlankFiles(entries, if raised then n + 1 else n), map[])
        && (!raised ==> jobs == GroupAll([], PlanFrom(b.hd, index, entries, 0)))
    {
      jobs, raised := [], false;
      for i := 0 to |entries|
        invariant missing == map[] && files == BlankFiles(entries, i)
        invariant FirstMisfit(b.hd, index, entries, i) == FirstMisfit(b.hd, index, entries, 0)
        invariant GroupAll(jobs, PlanFrom(b.hd, index, entries, i)) == GroupAll([], PlanFrom(b.hd, index, entries, 0))
      {
        OneMoreBlank(entries, i);
        if IsWritten(entries[i]) {
          Create(i, entries[i].size);
          jobs, raised := PlanFile(b.hd, index, i, entries[i].blocks, jobs, PlanFrom(b.hd, index, entries, i + 1));
          if raised {
            return;
          }
        }
      }
    }

    method Check(b: Backup, entries: seq<Entry>, i: nat) returns (complete: bool)
      requires i < |entries|
      ensures complete <==> Complete(b, State(), entries, i)
    {
      if Find(missing, i).GetOr(0) != 0 {
        return false;
      }
      if entries[i].hash != "" {
        if i !in files || Find(b.hd.fileHash, files[i]) != Some(entries[i].hash) {
          return false;
        }
      }
      complete := true;
    }

    /** The report loop. */
    method Tell(b: Backup, entries: seq<Entry>) returns (r: Report)
      ensures IsReport(b, State(), entries, r)
    {
      var ok, partial := 0, 0;
      ghost var st := State();
      for i := 0 to |entries|
        invariant ok == CountComplete(b, st, entries, i) && ok + partial == CountFiles(entries, i)
        invariant partial == 0 <==> forall k: nat | k < i && entries[k].kind == File :: Complete(b, st, entries, k)
      {
        if entries[i].kind == File {
          var complete := Check(b, entries, i);
          if complete {
            ok := ok + 1;
          } else {
            partial := partial + 1;
          }
        }
      }
      r := Report(ok, partial, if partial == 0 then 0 else 1);
    }

    /** Restore the selected entries. */
    method RestoreAll(b: Backup, entries: seq<Entry>) returns (r: Outcome<Report>)
      requires State() == Restore.State(map[], map[])
      modifies this
      ensures match IndexOf(b.lib, b.volumes, Needed(entries))
        case Err(e) => r.Err? && (entries != [] ==> r == Err(e))
        case Ok(index) =>
          if entries == [] then r == Err(Fail("no files match"))
          else (State(), r.Ok?) == Run(b, index, entries) && (r.Ok? ==> IsReport(b, State(), entries, r.value))
      ensures r.Ok? <==> Finishes(b, entries)
    {
      if entries == [] {
        return Err(Fail("no files match"));
      }
      var index :- BuildIndex(b.lib, b.volumes, Needed(entries));
      var jobs, raised := Plan(b, index, entries);
      if raised {
        return Err(Crash);
      }
      var finished := DoGroups(b, jobs);
      if !finished {
        return Err(Crash);
      }
      var report := Tell(b, entries);
      r := Ok(report);
    }
  }

  /** Blocks are needed by files only. */
  lemma NeededExactlyWhen(entries: seq<Entry>, h: string)
    ensures h in Needed(entries) <==>
      exists i, k :: 0 <= i < |entries| && entries[i].kind == File && 0 <= k < |entries[i].blocks| && entries[i].blocks[k] == h
  {
  }

  // ---------- what a report means ----------

  lemma CompleteExactlyWhen(b: Backup, st: State, entries: seq<Entry>, i: nat)
    requires i < |entries|
    ensures Complete(b, st, entries, i) <==>
      && (i in st.missing ==> st.missing[i] == 0)
      && (entries[i].hash != "" ==>
        i in st.files && st.files[i] in b.hd.fileHash && b.hd.fileHash[st.files[i]] == entries[i].hash)
  {
  }

  function GoodFiles(b: Backup, st: State, entries: seq<Entry>, n: nat): set<nat>
    requires n <= |entries|
  {
    set i: nat | i < n && entries[i].kind == File && Complete(b, st, entries, i)
  }

  function AllFiles(entries: seq<Entry>, n: nat): set<nat>
    requires n <= |entries|
  {
    set i: nat | i < n && entries[i].kind == File
  }

  lemma {:induction false} CountsAre(b: Backup, st: State, entries: seq<Entry>, n: nat)
    requires n <= |entries|
    ensures CountComplete(b, st, entries, n) == |GoodFiles(b, st, entries, n)|
    ensures CountFiles(entries, n) == |AllFiles(entries, n)|
    decreases n
  {
    if n > 0 {
      CountsAre(b, st, entries, n - 1);
      OneMoreGood(b, st, entries, n - 1);
      OneMoreFile(entries, n - 1);
    }
  }

  lemma OneMoreGood(b: Backup, st: State, entries: seq<Entry>, n: nat)
    requires n < |entries|
    ensures |GoodFiles(b, st, entries, n + 1)| ==
      |GoodFiles(b, st, entries, n)| + if entries[n].kind == File && Complete(b, st, entries, n) then 1 else 0
  {
    var good := GoodFiles(b, st, entries, n);
    var one := if entries[n].kind == File && Complete(b, st, entries, n) then {n} else {};
    assert GoodFiles(b, st, entries, n + 1) == good + one;
  }

  lemma OneMoreFile(entries: seq<Entry>, n: nat)
    requires n < |entries|
    ensures |AllFiles(entries, n + 1)| == |AllFiles(entries, n)| + if entries[n].kind == File then 1 else 0
  {
    var one := if entries[n].kind == File then {n} else {};
    assert AllFiles(entries, n + 1) == AllFiles(entries, n) + one;
  }

  /** What the report and the exit status say of the files and counts themselves: `ok` are the files that miss no block and,
      if a hash is recorded, have a content of that hash; `partial` are the others; the status is 0 exactly without others. */
  lemma ReportMeans(b: Backup, st: State, entries: seq<Entry>, r: Report)
    requires IsReport(b, st, entries, r)
    ensures r.status == 0 <==> forall i: nat | i < |entries| && entries[i].kind == File ::
      && (i in st.missing ==> st.missing[i] == 0)
      && (entries[i].hash != "" ==>
        i in st.files && st.files[i] in b.hd.fileHash && b.hd.fileHash[st.files[i]] == entries[i].hash)
    ensures r.status == 0 || r.status == 1
    ensures r.ok == |GoodFiles(b, st, entries, |entries|)| && r.ok + r.partial == |AllFiles(entries, |entries|)|
    ensures r.status == 0 <==> r.partial == 0
  {
    forall i: nat | i < |entries| && entries[i].kind == File
      ensures Complete(b, st, entries, i) <==>
        && (i in st.missing ==> st.missing[i] == 0)
        && (entries[i].hash != "" ==>
          i in st.files && st.files[i] in b.hd.fileHash && b.hd.fileHash[st.files[i]] == entries[i].hash)
    {
      CompleteExactlyWhen(b, st, entries, i);
    }
    CountsAre(b, st, entries, |entries|);
    NonePartialExactlyWhen(b, st, entries);
  }

  lemma NonePartialExactlyWhen(b: Backup, st: State, entries: seq<Entry>)
    ensures var good, all := GoodFiles(b, st, entries, |entries|), AllFiles(entries, |entries|);
      |good| == |all| <==> forall i: nat | i < |entries| && entries[i].kind == File :: Complete(b, st, entries, i)
  {
    var good, all := GoodFiles(b, st, entries, |entries|), AllFiles(entries, |entries|);
    SameSize(good, all);
    assert good == all <==> forall i: nat | i < |entries| && entries[i].kind == File :: Complete(b, st, entries, i) by {
      if good == all {
        forall i: nat | i < |entries| && entries[i].kind == File ensures Complete(b, st, entries, i) {
          assert i in all;
        }
      }
    }
  }

  lemma SameSize(a: set<nat>, b: set<nat>)
    requires a <= b
    ensures |a| == |b| <==> a == b
  {
    assert b == a + (b - a);
  }

  /** One file with a recorded hash: its content decides. */
  lemma HashExample(b: Backup, content: seq<byte>, r: Report)
    requires b.hd.fileHash == map[[7] := "x", [8] := "y"] && (content == [7] || content == [8])
    requires IsReport(b, Restore.State(map[0 := content], map[]), [Entry(File, 1, ["h"], "x")], r)
    ensures content == [7] ==> r == Report(1, 0, 0)
    ensures content == [8] ==> r == Report(0, 1, 1)
  {
    var st, entries := Restore.State(map[0 := content], map[]), [Entry(File, 1, ["h"], "x")];
    assert entries[0].kind == File && entries[0].hash == "x";
    ReportMeans(b, st, entries, r);
    assert st.files[0] == content;
    assert CountFiles(entries, 0) == 0 && CountFiles(entries, 1) == 1;
  }
}
