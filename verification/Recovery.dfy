/** The whole restore against the originals: from what is in the folder to what is in the files. */
module Recovery {
  import opened Wrappers
  import opened Bytes
  import opened BlockIndex
  import opened RestorePlan
  import opened Writes
  import opened Restore
  import opened Damage
  import opened RestoreRun

  /** Volumes go by name, as in any folder. */
  ghost predicate DistinctNames(volumes: seq<Volume>) {
    forall j, k | 0 <= j < k < |volumes| :: volumes[j].name != volumes[k].name
  }

  /** This volume can be read and has the right data for `h`. */
  predicate HasRight(b: Backup, v: Volume, h: string) {
    ReadVolume(b.lib, v).Ok? && h in ReadVolume(b.lib, v).value
    && Find(b.hd.blockHash, ReadVolume(b.lib, v).value[h]) == Some(h)
  }

  /** The folder yields block `h`: the volume it is last listed in, or else the first one that holds it, has the right data. */
  predicate AtHand(b: Backup, h: string) {
    match Listed(b.lib, b.volumes, h, None)
    case Some(name) => VolumeNamed(b.volumes, name).Ok? && HasRight(b, VolumeNamed(b.volumes, name).value, h)
    case None => Holder(b.lib, b.volumes, h).Some? && HasRight(b, Holder(b.lib, b.volumes, h).value, h)
  }

  /** The size the folder gives for a block: the listed one, or else that of the first copy. */
  function SizeInFolder(b: Backup, h: string): Option<Size> {
    var sized, holder := Sized(b.lib, b.volumes, h, None), Holder(b.lib, b.volumes, h);
    if sized.Some? then sized
    else if holder.Some? then Some(Number(|ReadVolume(b.lib, holder.value).value[h]|))
    else None
  }

  /** The position of block number `k` can be known: blocks are of one size, or the folder gives the sizes in front of it. */
  ghost predicate Placed(b: Backup, blocks: seq<string>, k: nat)
    requires k < |blocks|
  {
    b.hd.variable ==> forall j | 0 <= j < k :: SizeInFolder(b, blocks[j]).Some? && SizeInFolder(b, blocks[j]).value.Number?
  }

  /** What the folder gives for sizes is true; of a file's last block nothing need be known. */
  ghost predicate TrueFolder(b: Backup, blocks: seq<string>, original: seq<seq<byte>>)
    requires |original| == |blocks|
  {
    forall k | 0 <= k < |blocks| - 1 ::
      if b.hd.variable then SizeInFolder(b, blocks[k]) in {None, Some(Unfit), Some(Number(|original[k]|))}
      else b.hd.blockSize == |original[k]|
  }

  /** Block number `k` can be put back. */
  ghost predicate Saved(b: Backup, blocks: seq<string>, k: nat)
    requires k < |blocks|
  {
    AtHand(b, blocks[k]) && Placed(b, blocks, k)
  }

  /** The original with the blocks that cannot be put back zeroed out. */
  ghost function Salvaged(b: Backup, blocks: seq<string>, original: seq<seq<byte>>): seq<seq<byte>>
    requires |original| == |blocks|
  {
    seq(|blocks|, k requires 0 <= k < |blocks| => if Saved(b, blocks, k) then original[k] else Zeros(|original[k]|))
  }

  ghost function Unsaved(b: Backup, blocks: seq<string>): set<nat> {
    set k: nat | k < |blocks| && !Saved(b, blocks, k)
  }

  lemma {:induction false} NameIsUnique(volumes: seq<Volume>, v: Volume)
    requires DistinctNames(volumes) && v in volumes
    ensures VolumeNamed(volumes, v.name) == Ok(v)
  {
    var k :| 0 <= k < |volumes| && volumes[k] == v;
    VolumeByName(volumes, k);
  }

  lemma {:induction false} NamedIsThere(volumes: seq<Volume>, name: string)
    ensures VolumeNamed(volumes, name).Ok? <==> name in Names(volumes)
    ensures VolumeNamed(volumes, name).Ok? ==> VolumeNamed(volumes, name).value in volumes
  {
    if volumes != [] {
      NamedIsThere(volumes[1..], name);
      assert Names(volumes) == {volumes[0].name} + Names(volumes[1..]) by {
        assert forall i | 0 < i < |volumes| :: volumes[i] == volumes[1..][i - 1];
        assert forall i | 0 <= i < |volumes[1..]| :: volumes[1..][i] == volumes[i + 1];
      }
    }
  }

  /** A needed block at a known place is written exactly when the folder yields it. */
  lemma FetchedExactlyWhenAtHand(b: Backup, needed: set<string>, h: string, i: nat, off: nat)
    requires DistinctNames(b.volumes) && IndexOf(b.lib, b.volumes, needed).Ok? && h in needed
    ensures Fetch(b, PlanBlock(IndexOf(b.lib, b.volumes, needed).value, i, h, Some(off))).Some? <==> AtHand(b, h)
  {
    LocatedExactlyWhen(b.lib, b.volumes, needed, h);
    match Listed(b.lib, b.volumes, h, None)
    case Some(name) => NamedIsThere(b.volumes, name);
    case None =>
      HolderHolds(b.lib, b.volumes, h);
      if Holder(b.lib, b.volumes, h).Some? {
        NameIsUnique(b.volumes, Holder(b.lib, b.volumes, h).value);
      }
  }

  lemma {:induction false} PlaceKnownExactlyWhen(hd: Header, index: Index, blocks: seq<string>, off: Option<nat>, k: nat)
    requires k < |blocks|
    ensures Place(hd, index, blocks, off, k).Some? <==>
      off.Some? && forall j | 0 <= j < k :: Advance(hd, index, blocks[j]).Some?
    decreases k
  {
    if k > 0 {
      PlaceKnownExactlyWhen(hd, index, blocks[1..], NextOffset(hd, index, blocks[0], off), k - 1);
      assert forall j | 0 < j < k :: blocks[j] == blocks[1..][j - 1];
      assert forall j | 0 <= j < k - 1 :: blocks[1..][j] == blocks[j + 1];
    }
  }

  /** All blocks of a file are needed. */
  lemma BlocksAreNeeded(entries: seq<Entry>, i: nat, k: nat)
    requires i < |entries| && entries[i].kind == File && k < |entries[i].blocks|
    ensures entries[i].blocks[k] in Needed(entries)
  {
  }

  /** What the index of the folder says of a file's blocks. */
  lemma FileFromFolder(b: Backup, entries: seq<Entry>, index: Index, i: nat, k: nat)
    requires DistinctNames(b.volumes) && IndexOf(b.lib, b.volumes, Needed(entries)) == Ok(index)
    requires i < |entries| && entries[i].kind == File && k < |entries[i].blocks|
    ensures var blocks := entries[i].blocks;
      && Find(index.sizes, blocks[k]) == SizeInFolder(b, blocks[k])
      && (Fetch(b, PlanBlock(index, i, blocks[k], Place(b.hd, index, blocks, Some(0), k))).Some? <==> Saved(b, blocks, k))
  {
    var blocks := entries[i].blocks;
    var at := Place(b.hd, index, blocks, Some(0), k);
    forall j | 0 <= j <= k ensures Find(index.sizes, blocks[j]) == SizeInFolder(b, blocks[j]) {
      BlocksAreNeeded(entries, i, j);
      LocatedExactlyWhen(b.lib, b.volumes, Needed(entries), blocks[j]);
    }
    PlaceKnownExactlyWhen(b.hd, index, blocks, Some(0), k);
    assert at.Some? <==> Placed(b, blocks, k);
    BlocksAreNeeded(entries, i, k);
    if at.Some? {
      FetchedExactlyWhenAtHand(b, Needed(entries), blocks[k], i, at.value);
    }
  }

  lemma TrueFolderTrueSizes(b: Backup, entries: seq<Entry>, index: Index, i: nat, original: seq<seq<byte>>)
    requires DistinctNames(b.volumes) && IndexOf(b.lib, b.volumes, Needed(entries)) == Ok(index)
    requires i < |entries| && entries[i].kind == File && |original| == |entries[i].blocks|
    requires TrueFolder(b, entries[i].blocks, original)
    ensures TrueSizes(b.hd, index, entries[i].blocks, original)
  {
    var blocks := entries[i].blocks;
    forall k | 0 <= k < |blocks| - 1 && Advance(b.hd, index, blocks[k]).Some?
      ensures Advance(b.hd, index, blocks[k]).value == |original[k]|
    {
      FileFromFolder(b, entries, index, i, k);
    }
  }

  /** What a restore that gets to its report makes of a file, from the folder alone: the original with exactly those blocks
      zeroed out that the folder does not yield, or that follow a block of unknown size; and `missing` is their number. */
  lemma FileIsSalvaged(b: Backup, entries: seq<Entry>, i: nat, original: seq<seq<byte>>)
    requires DistinctNames(b.volumes) && Finishes(b, entries) && i < |entries| && entries[i].kind == File
    requires |original| == |entries[i].blocks| && TotalSize(original) <= entries[i].size
    requires TrueFolder(b, entries[i].blocks, original) && NoCollision(b.hd, entries[i].blocks, original)
    ensures var st, e := Run(b, IndexOf(b.lib, b.volumes, Needed(entries)).value, entries).0, entries[i];
      && i in st.files
      && st.files[i] == Filled(Join(Salvaged(b, e.blocks, original)), e.size)
      && Missing(st, i) == |Unsaved(b, e.blocks)|
  {
    var e, index := entries[i], IndexOf(b.lib, b.volumes, Needed(entries)).value;
    TrueFolderTrueSizes(b, entries, index, i, original);
    DamagedFileIs(b, index, entries, i, original);
    SalvagedIsExpected(b, entries, index, i, original);
    UnsavedAreLost(b, entries, index, i);
  }

  lemma SalvagedIsExpected(b: Backup, entries: seq<Entry>, index: Index, i: nat, original: seq<seq<byte>>)
    requires DistinctNames(b.volumes) && IndexOf(b.lib, b.volumes, Needed(entries)) == Ok(index)
    requires i < |entries| && entries[i].kind == File && |original| == |entries[i].blocks|
    ensures Expected(b, index, i, entries[i].blocks, original, Some(0)) == Salvaged(b, entries[i].blocks, original)
  {
    var blocks := entries[i].blocks;
    var r, s := Expected(b, index, i, blocks, original, Some(0)), Salvaged(b, blocks, original);
    if blocks != [] { ExpectedAt(b, index, i, blocks, original, Some(0), 0); }
    forall k: nat | k < |blocks| ensures r[k] == s[k] {
      ExpectedAt(b, index, i, blocks, original, Some(0), k);
      FileFromFolder(b, entries, index, i, k);
    }
  }

  lemma UnsavedAreLost(b: Backup, entries: seq<Entry>, index: Index, i: nat)
    requires DistinctNames(b.volumes) && IndexOf(b.lib, b.volumes, Needed(entries)) == Ok(index)
    requires i < |entries| && entries[i].kind == File
    ensures LostBlocks(b, OwnPlan(b, index, entries, i)) == Unsaved(b, entries[i].blocks)
  {
    var blocks, own := entries[i].blocks, OwnPlan(b, index, entries, i);
    if blocks != [] { PlannedAtPlace(b.hd, index, i, blocks, Some(0), 0); }
    forall k: nat | k < |blocks| ensures Fetch(b, own[k]).None? <==> !Saved(b, blocks, k) {
      PlannedAtPlace(b.hd, index, i, blocks, Some(0), k);
      FileFromFolder(b, entries, index, i, k);
    }
  }

  /** A file is restored without loss exactly when the folder yields each of its blocks and, if these are content-defined, a
      size for each but the last; then it is the original. */
  lemma FileIsWholeExactlyWhen(b: Backup, entries: seq<Entry>, i: nat, original: seq<seq<byte>>)
    requires DistinctNames(b.volumes) && Finishes(b, entries) && i < |entries| && entries[i].kind == File
    requires |original| == |entries[i].blocks| && TotalSize(original) <= entries[i].size
    requires TrueFolder(b, entries[i].blocks, original) && NoCollision(b.hd, entries[i].blocks, original)
    ensures var st, e := Run(b, IndexOf(b.lib, b.volumes, Needed(entries)).value, entries).0, entries[i];
      && (Missing(st, i) == 0 <==> forall k: nat | k < |e.blocks| :: Saved(b, e.blocks, k))
      && (Missing(st, i) == 0 ==> i in st.files && st.files[i] == Filled(Join(original), e.size))
  {
    var e := entries[i];
    FileIsSalvaged(b, entries, i, original);
    var lost := Unsaved(b, e.blocks);
    if lost == {} {
      assert forall k: nat | k < |e.blocks| :: Saved(b, e.blocks, k) by {
        forall k: nat | k < |e.blocks| ensures Saved(b, e.blocks, k) {
          assert k !in lost;
        }
      }
      assert Salvaged(b, e.blocks, original) == original;
    }
  }

  /** The folder yields every block of a file, where it belongs, and the file's recorded size and hash are those of the
      original. */
  ghost predicate Intact(b: Backup, e: Entry, original: seq<seq<byte>>) {
    && |original| == |e.blocks| && TotalSize(original) == e.size
    && TrueFolder(b, e.blocks, original) && NoCollision(b.hd, e.blocks, original)
    && (forall k: nat | k < |e.blocks| :: Saved(b, e.blocks, k))
    && (e.hash != "" ==> Find(b.hd.fileHash, Join(original)) == Some(e.hash))
  }

  lemma IntactFile(b: Backup, entries: seq<Entry>, i: nat, original: seq<seq<byte>>)
    requires DistinctNames(b.volumes) && Finishes(b, entries) && i < |entries| && entries[i].kind == File
    requires Intact(b, entries[i], original)
    ensures var st := Run(b, IndexOf(b.lib, b.volumes, Needed(entries)).value, entries).0;
      i in st.files && st.files[i] == Join(original) && Complete(b, st, entries, i)
  {
    var e := entries[i];
    var st := Run(b, IndexOf(b.lib, b.volumes, Needed(entries)).value, entries).0;
    FileIsWholeExactlyWhen(b, entries, i, original);
    SizesAddUp(original);
    FilledIs(Join(original), e.size);
    assert Filled(Join(original), e.size) == Join(original);
    CompleteExactlyWhen(b, st, entries, i);
  }

  /** From an intact folder every file is restored as it was, and the command says so: none is partial, and the status is 0. */
  lemma IntactFolderSucceeds(b: Backup, entries: seq<Entry>, originals: map<nat, seq<seq<byte>>>, r: Report)
    requires DistinctNames(b.volumes) && Finishes(b, entries)
    requires forall i: nat | i < |entries| && entries[i].kind == File :: i in originals && Intact(b, entries[i], originals[i])
    requires IsReport(b, Run(b, IndexOf(b.lib, b.volumes, Needed(entries)).value, entries).0, entries, r)
    ensures r.status == 0 && r.partial == 0 && r.ok == |AllFiles(entries, |entries|)|
    ensures var st := Run(b, IndexOf(b.lib, b.volumes, Needed(entries)).value, entries).0;
      forall i: nat | i < |entries| && entries[i].kind == File :: i in st.files && st.files[i] == Join(originals[i])
  {
    var st := Run(b, IndexOf(b.lib, b.volumes, Needed(entries)).value, entries).0;
    forall i: nat | i < |entries| && entries[i].kind == File
      ensures i in st.files && st.files[i] == Join(originals[i]) && Complete(b, st, entries, i)
    {
      IntactFile(b, entries, i, originals[i]);
    }
    ReportMeans(b, st, entries, r);
  }
}
