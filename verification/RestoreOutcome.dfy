/** When a restore gets to its report, and examples of folders with which it does not do what one would expect. */
module RestoreOutcome {
  import opened Wrappers
  import opened Bytes
  import opened BlockPayload
  import opened BlockIndex
  import opened RestorePlan
  import opened Writes
  import opened Restore
  import opened Damage
  import opened RestoreRun
  import opened Recovery

  /** The volume that block number `k` of a file is read from, if it is located and can be placed, can be opened. */
  predicate BlockOpens(b: Backup, index: Index, blocks: seq<string>, k: nat)
    requires k < |blocks|
  {
    blocks[k] in index.volumes && Place(b.hd, index, blocks, Some(0), k).Some? ==>
      var v := VolumeNamed(b.volumes, index.volumes[blocks[k]]);
      v.Ok? && ReadVolume(b.lib, v.value) != Err(Crash)
  }

  ghost predicate FileOpens(b: Backup, index: Index, blocks: seq<string>) {
    forall k: nat | k < |blocks| :: BlockOpens(b, index, blocks, k)
  }

  lemma FileOpensExactlyWhen(b: Backup, index: Index, i: nat, blocks: seq<string>)
    ensures AllOpen(b, FilePlan(b.hd, index, i, blocks, Some(0), [])) <==> FileOpens(b, index, blocks)
  {
    var plan := FilePlan(b.hd, index, i, blocks, Some(0), []);
    if blocks != [] {
      PlannedAtPlace(b.hd, index, i, blocks, Some(0), 0);
    }
    forall k: nat | k < |blocks| ensures GroupBlocks(b, plan[k].volume).Ok? <==> BlockOpens(b, index, blocks, k) {
      PlannedAtPlace(b.hd, index, i, blocks, Some(0), k);
    }
  }

  lemma AllOpenConcat(b: Backup, p: seq<Planned>, q: seq<Planned>)
    ensures AllOpen(b, p + q) <==> AllOpen(b, p) && AllOpen(b, q)
  {
    var all := p + q;
    assert forall k | 0 <= k < |p| :: p[k] == all[k];
    assert forall k | 0 <= k < |q| :: q[k] == all[|p| + k];
  }

  lemma {:induction false} PlanOpensExactlyWhen(b: Backup, index: Index, entries: seq<Entry>, n: nat)
    requires n <= |entries|
    ensures AllOpen(b, PlanFrom(b.hd, index, entries, n)) <==>
      forall i | n <= i < |entries| && IsWritten(entries[i]) :: FileOpens(b, index, entries[i].blocks)
    decreases |entries| - n
  {
    if n < |entries| {
      var rest := PlanFrom(b.hd, index, entries, n + 1);
      PlanOpensExactlyWhen(b, index, entries, n + 1);
      if IsWritten(entries[n]) {
        FileOpensExactlyWhen(b, index, n, entries[n].blocks);
        FilePlanConcat(b.hd, index, n, entries[n].blocks, Some(0), rest);
        AllOpenConcat(b, FilePlan(b.hd, index, n, entries[n].blocks, Some(0), []), rest);
      }
    }
  }

  /** No block of a file has, at a known place, a size that cannot be added to it. */
  ghost predicate FileFits(b: Backup, index: Index, blocks: seq<string>) {
    forall k: nat | k < |blocks| :: !Misfit(b.hd, index, blocks[k], Place(b.hd, index, blocks, Some(0), k))
  }

  lemma {:induction false} FitsExactlyWhen(hd: Header, index: Index, blocks: seq<string>, off: Option<nat>)
    ensures Fits(hd, index, blocks, off) <==> forall k: nat | k < |blocks| :: !Misfit(hd, index, blocks[k], Place(hd, index, blocks, off, k))
  {
    if blocks != [] {
      var rest, next := blocks[1..], NextOffset(hd, index, blocks[0], off);
      FitsExactlyWhen(hd, index, rest, next);
      assert Place(hd, index, blocks, off, 0) == off;
      assert forall k: nat | 0 < k < |blocks| ::
        blocks[k] == rest[k - 1] && Place(hd, index, blocks, off, k) == Place(hd, index, rest, next, k - 1);
      assert forall k: nat | k < |rest| ::
        rest[k] == blocks[k + 1] && Place(hd, index, blocks, off, k + 1) == Place(hd, index, rest, next, k);
    }
  }

  lemma {:induction false} NoMisfitExactlyWhen(b: Backup, index: Index, entries: seq<Entry>, n: nat)
    requires n <= |entries|
    ensures FirstMisfit(b.hd, index, entries, n) == |entries| <==>
      forall i | n <= i < |entries| && IsWritten(entries[i]) :: FileFits(b, index, entries[i].blocks)
    decreases |entries| - n
  {
    if n < |entries| {
      FitsExactlyWhen(b.hd, index, entries[n].blocks, Some(0));
      NoMisfitExactlyWhen(b, index, entries, n + 1);
    }
  }

  /** Every file can be planned and read. */
  ghost predicate FilesGo(b: Backup, index: Index, entries: seq<Entry>) {
    forall i | 0 <= i < |entries| && IsWritten(entries[i]) ::
      FileFits(b, index, entries[i].blocks) && FileOpens(b, index, entries[i].blocks)
  }

  /** The outcome of the command: it gets to its report exactly when there is something to restore, no index volume raises
      an exception the script does not catch, nor, if a needed block is not indexed, any block volume at all, nor a volume
      that a block is to be read from, and no size that cannot be added comes up at a known place. */
  lemma FinishesExactlyWhen(b: Backup, entries: seq<Entry>)
    ensures var index := IndexOf(b.lib, b.volumes, Needed(entries));
      Finishes(b, entries) <==>
        && entries != []
        && IndexesOpen(b.lib, b.volumes)
        && (NeedsScan(b.lib, b.volumes, Needed(entries)) ==> BlocksOpen(b.lib, b.volumes))
        && (index.Ok? ==> FilesGo(b, index.value, entries))
  {
    IndexedExactlyWhen(b.lib, b.volumes, Needed(entries));
    var index := IndexOf(b.lib, b.volumes, Needed(entries));
    if index.Ok? {
      RunFinishesExactlyWhen(b, index.value, entries);
      PlanOpensExactlyWhen(b, index.value, entries, 0);
      NoMisfitExactlyWhen(b, index.value, entries, 0);
    }
  }

  lemma FolderOpensFiles(b: Backup, entries: seq<Entry>, index: Index, blocks: seq<string>)
    requires IndexOf(b.lib, b.volumes, Needed(entries)) == Ok(index)
    requires forall i | 0 <= i < |b.volumes| :: ReadVolume(b.lib, b.volumes[i]) != Err(Crash)
    ensures FileOpens(b, index, blocks)
  {
    forall k: nat | k < |blocks| ensures BlockOpens(b, index, blocks, k) {
      if blocks[k] in index.volumes {
        NamedIsThere(b.volumes, index.volumes[blocks[k]]);
      }
    }
  }

  /** In particular it does when every volume opens or fails as the script expects, and all sizes are numbers or of no use. */
  lemma OpenFolderFinishes(b: Backup, entries: seq<Entry>)
    requires entries != [] && IndexesOpen(b.lib, b.volumes)
    requires forall i | 0 <= i < |b.volumes| :: ReadVolume(b.lib, b.volumes[i]) != Err(Crash)
    requires forall i | 0 <= i < |entries| && IsWritten(entries[i]) && b.hd.variable ::
      forall h | h in entries[i].blocks :: Sized(b.lib, b.volumes, h, None) != Some(Unfit)
    ensures Finishes(b, entries)
  {
    var needed := Needed(entries);
    IndexedExactlyWhen(b.lib, b.volumes, needed);
    var index := IndexOf(b.lib, b.volumes, needed).value;
    forall i | 0 <= i < |entries| && IsWritten(entries[i])
      ensures FileFits(b, index, entries[i].blocks) && FileOpens(b, index, entries[i].blocks)
    {
      FolderOpensFiles(b, entries, index, entries[i].blocks);
      forall k: nat | k < |entries[i].blocks|
        ensures !Misfit(b.hd, index, entries[i].blocks[k], Place(b.hd, index, entries[i].blocks, Some(0), k))
      {
        assert entries[i].blocks[k] in entries[i].blocks;
        SizesComeFrom(b.lib, b.volumes, needed, entries[i].blocks[k]);
      }
    }
    FinishesExactlyWhen(b, entries);
  }

  /** The size of any block, needed or not, is the listed one, or that of a copy. */
  lemma SizesComeFrom(lib: Library, volumes: seq<Volume>, needed: set<string>, h: string)
    requires IndexOf(lib, volumes, needed).Ok?
    ensures Find(IndexOf(lib, volumes, needed).value.sizes, h) == Some(Unfit) ==> Sized(lib, volumes, h, None) == Some(Unfit)
  {
    var listed := FromIndexes(lib, volumes, EMPTY_INDEX).value;
    IndexesAre(lib, volumes, EMPTY_INDEX, h);
    if Incomplete(listed, needed, Names(volumes)) {
      BlocksAre(lib, volumes, listed, h);
    }
  }

  // ---------- examples ----------

  const ONE_BLOCK: seq<byte> := [1, 0, 0, 0, 1, 104, 0, 1, 0, 0, 0, 7]
  const WRONG_BLOCK: seq<byte> := [1, 0, 0, 0, 1, 104, 0, 1, 0, 0, 0, 8]

  const NAMES: Table<seq<byte>, string> := map[[] := "", [104] := "h"]
  const CODEC := Codec(NAMES, map[], map[], map[])
  const DOC := IndexDoc(Some("gone"), Some([Listing(Some("h"), Some(Number(1)))]))
  const LIBRARY := Library(CODEC, map[[] := Ok(DOC)])
  const HEADER := Header(false, 1, map[[7] := "h", [8] := "g"], map[])

  const GOOD := Volume("a", IsBlocks, Ok(ONE_BLOCK))
  const WRONG := Volume("b", IsBlocks, Ok(WRONG_BLOCK))
  const BROKEN := Volume("c", IsBlocks, Ok(DAMAGED))
  const LISTS := Volume("i", IsIndex, Ok([]))

  const FILE := Entry(File, 1, ["h"], "")

  lemma ExampleVolumes()
    ensures ReadVolume(LIBRARY, GOOD) == Ok(map["h" := [7]]) && ReadVolume(LIBRARY, WRONG) == Ok(map["h" := [8]])
    ensures ReadVolume(LIBRARY, BROKEN) == Err(Crash)
  {
    OneBlockDecodes(CODEC, ONE_BLOCK, 0, 7);
    assert StandsFor(CODEC, 0, [7], [7]);
    OneBlockDecodes(CODEC, WRONG_BLOCK, 0, 8);
    assert StandsFor(CODEC, 0, [8], [8]);
    DamagedStreamExample(CODEC);
  }

  lemma NeedsH()
    ensures Needed([FILE]) == {"h"}
  {
    assert [FILE][0].blocks[0] in Needed([FILE]);
  }

  /** A folder of two block volumes and no index. */
  lemma TwoVolumes(lib: Library, v: Volume, w: Volume, h: string)
    requires v.kind == IsBlocks && w.kind == IsBlocks
    ensures IndexesOpen(lib, [v, w]) && NeedsScan(lib, [v, w], {h}) && Listed(lib, [v, w], h, None) == None
    ensures Holds(lib, v, h) ==> Holder(lib, [v, w], h) == Some(v)
  {
    assert [v, w][1..] == [w] && [w][1..] == [];
    assert Listed(lib, [w], h, None) == Listed(lib, [], h, None) == None;
  }

  /** A volume that nothing needs can end the whole restore: the only needed block is in `a`, but the scan also opens `c`.
      The write loop by itself would have come to its end. */
  lemma UnneededVolumeExample()
    ensures var b := Backup(HEADER, LIBRARY, [GOOD, BROKEN]);
      !Finishes(b, [FILE]) && Run(b, Index(map["h" := "a"], map["h" := Number(1)]), [FILE]).1
  {
    var b := Backup(HEADER, LIBRARY, [GOOD, BROKEN]);
    var index := Index(map["h" := "a"], map["h" := Number(1)]);
    NeedsH();
    assert BROKEN == b.volumes[1];
    ExampleVolumes();
    assert !BlocksOpen(LIBRARY, b.volumes);
    TwoVolumes(LIBRARY, GOOD, BROKEN, "h");
    FinishesExactlyWhen(b, [FILE]);
    assert FileOpens(b, index, FILE.blocks);
    PlanOpensExactlyWhen(b, index, [FILE], 0);
    NoMisfitExactlyWhen(b, index, [FILE], 0);
    RunFinishesExactlyWhen(b, index, [FILE]);
  }

  lemma FirstHolderDecides(b: Backup, v: Volume, w: Volume, h: string)
    requires b.volumes == [v, w] && v.name != w.name && v.kind == IsBlocks && w.kind == IsBlocks
    requires ReadVolume(b.lib, v).Ok? && ReadVolume(b.lib, w).Ok? && h in ReadVolume(b.lib, v).value
    requires Find(b.hd.blockHash, ReadVolume(b.lib, v).value[h]) != Some(h)
    ensures var index := IndexOf(b.lib, b.volumes, {h});
      index.Ok? && Fetch(b, PlanBlock(index.value, 0, h, Some(0))) == None
  {
    TwoVolumes(b.lib, v, w, h);
    IndexedExactlyWhen(b.lib, b.volumes, {h});
    ScannedBlockExactlyWhen(b, {h}, h, 0, 0);
  }

  /** An intact copy in a later volume does not help: the first holder decides, and its data is wrong. */
  lemma FirstHolderExample()
    ensures var b := Backup(HEADER, LIBRARY, [WRONG, GOOD]);
      var index := IndexOf(b.lib, b.volumes, {"h"});
      && index.Ok? && Fetch(b, PlanBlock(index.value, 0, "h", Some(0))) == None
      && ReadVolume(LIBRARY, GOOD) == Ok(map["h" := [7]]) && Find(HEADER.blockHash, [7]) == Some("h")
  {
    ExampleVolumes();
    FirstHolderDecides(Backup(HEADER, LIBRARY, [WRONG, GOOD]), WRONG, GOOD, "h");
  }

  /** A block listed in a volume that is gone is not located, though another volume holds it. */
  lemma GoneVolumeExample()
    ensures var volumes := [LISTS, GOOD];
      var index := IndexOf(LIBRARY, volumes, {"h"});
      && index.Ok? && "h" !in index.value.volumes && ReadVolume(LIBRARY, GOOD) == Ok(map["h" := [7]])
  {
    var volumes := [LISTS, GOOD];
    ExampleVolumes();
    assert volumes[1..] == [GOOD] && [GOOD][1..] == [];
    IndexedExactlyWhen(LIBRARY, volumes, {"h"});
    var listing := Listing(Some("h"), Some(Number(1)));
    assert [listing][1..] == [];
    assert LastListed("gone", [listing], "h", None) == Some("gone");
    assert Listed(LIBRARY, volumes, "h", None) == Listed(LIBRARY, [GOOD], "h", Some("gone")) == Some("gone");
    assert "gone" !in Names(volumes) by {
      assert Names(volumes) == {LISTS.name, GOOD.name};
    }
    LocatedExactlyWhen(LIBRARY, volumes, {"h"}, "h");
  }

  const UNFIT_DOC := IndexDoc(Some("a"), Some([Listing(Some("h"), Some(Unfit))]))
  const UNFIT_LIBRARY := Library(CODEC, map[[] := Ok(UNFIT_DOC)])
  const CHUNKED := Header(true, 1, map[[7] := "h"], map[])

  /** A misfit in the first file: it is created, and that is all. */
  lemma MisfitEndsRun(b: Backup, index: Index, e: Entry)
    requires IsWritten(e) && e.blocks != [] && Misfit(b.hd, index, e.blocks[0], Some(0))
    ensures Run(b, index, [e]) == (Restore.State(map[0 := Zeros(e.size)], map[]), false)
  {
    assert FirstMisfit(b.hd, index, [e], 0) == 0;
    OneMoreBlank([e], 0);
    assert BlankFiles([e], 0) == map[];
  }

  /** A listed size that cannot be added, such as `null`, ends a restore from a folder whose volumes all open. */
  lemma UnfitSizeExample()
    ensures var b := Backup(CHUNKED, UNFIT_LIBRARY, [LISTS, GOOD]);
      var index := IndexOf(b.lib, b.volumes, {"h"});
      && index.Ok? && Run(b, index.value, [FILE]) == (Restore.State(map[0 := Zeros(1)], map[]), false)
      && ReadVolume(b.lib, GOOD) == Ok(map["h" := [7]]) && !Finishes(b, [FILE])
  {
    var b := Backup(CHUNKED, UNFIT_LIBRARY, [LISTS, GOOD]);
    OneBlockDecodes(CODEC, ONE_BLOCK, 0, 7);
    assert StandsFor(CODEC, 0, [7], [7]);
    NeedsH();
    UnfitIndex();
    MisfitEndsRun(b, IndexOf(b.lib, b.volumes, {"h"}).value, FILE);
  }

  lemma UnfitIndex()
    ensures var index := IndexOf(UNFIT_LIBRARY, [LISTS, GOOD], {"h"});
      index.Ok? && Find(index.value.volumes, "h") == Some("a") && Find(index.value.sizes, "h") == Some(Unfit)
  {
    var volumes := [LISTS, GOOD];
    ExampleVolumes();
    assert volumes[1..] == [GOOD] && [GOOD][1..] == [];
    IndexedExactlyWhen(UNFIT_LIBRARY, volumes, {"h"});
    var listing := Listing(Some("h"), Some(Unfit));
    assert [listing][1..] == [];
    assert LastListed("a", [listing], "h", None) == Some("a") && LastSized([listing], "h", None) == Some(Unfit);
    assert Listed(UNFIT_LIBRARY, volumes, "h", None) == Listed(UNFIT_LIBRARY, [GOOD], "h", Some("a")) == Some("a");
    assert Sized(UNFIT_LIBRARY, volumes, "h", None) == Sized(UNFIT_LIBRARY, [GOOD], "h", Some(Unfit)) == Some(Unfit);
    assert "a" in Names(volumes) by {
      assert volumes[1].name == "a";
    }
    LocatedExactlyWhen(UNFIT_LIBRARY, volumes, {"h"}, "h");
  }

  const HERE_DOC := IndexDoc(Some("a"), Some([Listing(Some("h"), Some(Number(1)))]))
  const TWO_LIBRARY := Library(CODEC, map[[] := Ok(DOC), [1] := Ok(HERE_DOC)])
  const LISTS_HERE := Volume("j", IsIndex, Ok([1]))

  /** Of two index volumes that list a block, the last one counts. */
  lemma LastListingExample()
    ensures Listed(TWO_LIBRARY, [LISTS, LISTS_HERE, GOOD], "h", None) == Some("a")
    ensures Listed(TWO_LIBRARY, [LISTS_HERE, LISTS, GOOD], "h", None) == Some("gone")
  {
    var gone, here := Listing(Some("h"), Some(Number(1))), Listing(Some("h"), Some(Number(1)));
    assert [gone][1..] == [];
    assert forall before :: LastListed("gone", [gone], "h", before) == Some("gone");
    assert forall before :: LastListed("a", [here], "h", before) == Some("a");
    assert [LISTS, LISTS_HERE, GOOD][1..] == [LISTS_HERE, GOOD] && [LISTS_HERE, LISTS, GOOD][1..] == [LISTS, GOOD];
    assert [LISTS_HERE, GOOD][1..] == [GOOD] && [LISTS, GOOD][1..] == [GOOD] && [GOOD][1..] == [];
    assert forall before :: Listed(TWO_LIBRARY, [GOOD], "h", before) == before;
    assert forall before :: Listed(TWO_LIBRARY, [LISTS_HERE, GOOD], "h", before) == Some("a");
    assert forall before :: Listed(TWO_LIBRARY, [LISTS, GOOD], "h", before) == Some("gone");
  }

  /** A listing without a size counts for the volume, and ends its list. */
  lemma PartialListingExample(index: Index)
    ensures AddDoc(index, IndexDoc(Some("a"), Some([Listing(Some("h"), None), Listing(Some("g"), Some(Number(1)))])))
      == Index(index.volumes["h" := "a"], index.sizes)
  {
  }

  /** When the index is complete, a broken volume that nothing needs is never opened. */
  lemma CompleteIndexExample()
    ensures Finishes(Backup(HEADER, TWO_LIBRARY, [LISTS_HERE, GOOD, BROKEN]), [FILE])
  {
    var b := Backup(HEADER, TWO_LIBRARY, [LISTS_HERE, GOOD, BROKEN]);
    NeedsH();
    GoodIsThere();
    var index := CompleteIndex();
    OneFileGoes(b, index, GOOD);
    FinishesExactlyWhen(b, [FILE]);
  }

  lemma OneFileGoes(b: Backup, index: Index, v: Volume)
    requires !b.hd.variable && Find(index.volumes, "h") == Some(v.name)
    requires VolumeNamed(b.volumes, v.name) == Ok(v) && ReadVolume(b.lib, v).Ok?
    ensures FilesGo(b, index, [FILE])
  {
    assert FileOpens(b, index, FILE.blocks);
    assert FileFits(b, index, FILE.blocks);
  }

  lemma GoodIsThere()
    ensures VolumeNamed([LISTS_HERE, GOOD, BROKEN], "a") == Ok(GOOD) && ReadVolume(TWO_LIBRARY, GOOD).Ok?
  {
    assert [LISTS_HERE, GOOD, BROKEN][1..] == [GOOD, BROKEN];
    ExampleVolumes();
  }

  lemma CompleteIndex() returns (index: Index)
    ensures IndexesOpen(TWO_LIBRARY, [LISTS_HERE, GOOD, BROKEN]) && !NeedsScan(TWO_LIBRARY, [LISTS_HERE, GOOD, BROKEN], {"h"})
    ensures IndexOf(TWO_LIBRARY, [LISTS_HERE, GOOD, BROKEN], {"h"}) == Ok(index) && Find(index.volumes, "h") == Some("a")
  {
    var volumes := [LISTS_HERE, GOOD, BROKEN];
    var here := Listing(Some("h"), Some(Number(1)));
    assert [here][1..] == [];
    assert LastListed("a", [here], "h", None) == Some("a") && LastSized([here], "h", None) == Some(Number(1));
    assert volumes[1..] == [GOOD, BROKEN] && [GOOD, BROKEN][1..] == [BROKEN] && [BROKEN][1..] == [];
    assert Listed(TWO_LIBRARY, [BROKEN], "h", Some("a")) == Some("a");
    assert Listed(TWO_LIBRARY, [GOOD, BROKEN], "h", Some("a")) == Some("a");
    assert Listed(TWO_LIBRARY, volumes, "h", None) == Some("a");
    assert Sized(TWO_LIBRARY, [BROKEN], "h", Some(Number(1))) == Some(Number(1));
    assert Sized(TWO_LIBRARY, [GOOD, BROKEN], "h", Some(Number(1))) == Some(Number(1));
    assert Sized(TWO_LIBRARY, volumes, "h", None) == Some(Number(1));
    assert "a" in Names(volumes) by { assert volumes[1].name == "a"; }
    IndexedExactlyWhen(TWO_LIBRARY, volumes, {"h"});
    index := IndexOf(TWO_LIBRARY, volumes, {"h"}).value;
    LocatedExactlyWhen(TWO_LIBRARY, volumes, {"h"}, "h");
  }
}
