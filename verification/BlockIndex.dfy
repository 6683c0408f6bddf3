/** Where each block is: from the index volumes, then by scanning the block volumes. */
module BlockIndex {
  import opened Wrappers
  import opened Bytes
  import opened BlockPayload

  datatype Kind = IsIndex | IsBlocks | IsOther

  /** A volume of the folder: its payload, or why it cannot be opened. */
  datatype Volume = Volume(name: string, kind: Kind, payload: Outcome<seq<byte>>)

  /** A size as it is listed: a number of bytes, or something that cannot be added to one, such as `null` or a string. */
  datatype Size = Number(n: nat) | Unfit

  /** A listed block; a key that is missing from the JSON object is `None`. */
  datatype Listing = Listing(hash: Option<string>, size: Option<Size>)

  datatype IndexDoc = IndexDoc(volume: Option<string>, blocks: Option<seq<Listing>>)

  /** The libraries behind a folder: block payloads, and the JSON of index volumes. Errors of the parser that the script
      catches (`ValueError`, `KeyError`) are `Fail`. */
  datatype Library = Library(codec: Codec, meta: Table<seq<byte>, Outcome<IndexDoc>>)

  function ReadIndex(lib: Library, v: Volume): Outcome<IndexDoc> {
    var payload :- v.payload;
    Find(lib.meta, payload).GetOr(Err(Crash))
  }

  function ReadVolume(lib: Library, v: Volume): Outcome<map<string, seq<byte>>> {
    var payload :- v.payload;
    Decode(lib.codec, payload)
  }

  datatype Index = Index(volumes: map<string, string>, sizes: map<string, Size>)

  /** What one listing does. */
  function AddListing(index: Index, volume: string, hash: string, size: Option<Size>): Index {
    Index(index.volumes[hash := volume], if size.Some? then index.sizes[hash := size.value] else index.sizes)
  }

  /** The listings in order, up to and including the first that misses a key. */
  function AddListings(index: Index, volume: string, blocks: seq<Listing>): Index
    decreases |blocks|
  {
    if blocks == [] || blocks[0].hash.None? then index
    else
      var more := AddListing(index, volume, blocks[0].hash.value, blocks[0].size);
      if blocks[0].size.None? then more else AddListings(more, volume, blocks[1..])
  }

  function AddDoc(index: Index, doc: IndexDoc): Index {
    if doc.blocks.None? || doc.volume.None? then index else AddListings(index, doc.volume.value, doc.blocks.value)
  }

  /** What the index volumes say; an unreadable one is passed over. */
  function FromIndexes(lib: Library, volumes: seq<Volume>, index: Index): Outcome<Index> {
    if volumes == [] then Ok(index)
    else if volumes[0].kind != IsIndex then FromIndexes(lib, volumes[1..], index)
    else
      match ReadIndex(lib, volumes[0])
      case Ok(doc) => FromIndexes(lib, volumes[1..], AddDoc(index, doc))
      case Err(Fail(_)) => FromIndexes(lib, volumes[1..], index)
      case Err(Crash) => Err(Crash)
  }

  /** Add what is not there yet. */
  function SetDefault<V>(m: map<string, V>, more: map<string, V>): map<string, V> {
    more + m
  }

  function Lengths(blocks: map<string, seq<byte>>): map<string, Size> {
    map h | h in blocks :: Number(|blocks[h]|)
  }

  function Holding(blocks: map<string, seq<byte>>, volume: string): map<string, string> {
    map h | h in blocks :: volume
  }

  /** What the block volumes add to it; an unreadable one is passed over. */
  function FromBlocks(lib: Library, volumes: seq<Volume>, index: Index): Outcome<Index> {
    if volumes == [] then Ok(index)
    else if volumes[0].kind != IsBlocks then FromBlocks(lib, volumes[1..], index)
    else
      match ReadVolume(lib, volumes[0])
      case Ok(blocks) =>
        FromBlocks(lib, volumes[1..], Index(SetDefault(index.volumes, Holding(blocks, volumes[0].name)), SetDefault(index.sizes, Lengths(blocks))))
      case Err(Fail(_)) => FromBlocks(lib, volumes[1..], index)
      case Err(Crash) => Err(Crash)
  }

  function Names(volumes: seq<Volume>): set<string> {
    set i | 0 <= i < |volumes| :: volumes[i].name
  }

  /** Some needed block is not located in a volume that is there, or its size is not known. */
  predicate Incomplete(index: Index, needed: set<string>, present: set<string>) {
    exists h | h in needed :: h !in index.volumes || index.volumes[h] !in present || h !in index.sizes
  }

  function OnlyPresent(index: Index, present: set<string>): Index {
    index.(volumes := map h | h in index.volumes && index.volumes[h] in present :: index.volumes[h])
  }

  const EMPTY_INDEX := Index(map[], map[])

  /** hash -> volume, hash -> size. */
  function IndexOf(lib: Library, volumes: seq<Volume>, needed: set<string>): Outcome<Index> {
    var listed :- FromIndexes(lib, volumes, EMPTY_INDEX);
    var full :- if Incomplete(listed, needed, Names(volumes)) then FromBlocks(lib, volumes, listed) else Ok(listed);
    Ok(OnlyPresent(full, Names(volumes)))
  }

  /** Put one index volume's listings over the index, as far as they are well formed. */
  method AddDocTo(index: Index, doc: IndexDoc) returns (r: Index)
    ensures r == AddDoc(index, doc)
  {
    r := index;
    if doc.blocks.None? || doc.volume.None? {
      return;
    }
    var left := doc.blocks.value;
    while left != []
      invariant AddListings(r, doc.volume.value, left) == AddDoc(index, doc)
      decreases |left|
    {
      var b := left[0];
      if b.hash.None? {
        return;
      }
      r := r.(volumes := r.volumes[b.hash.value := doc.volume.value]);
      if b.size.None? {
        return;
      }
      r := r.(sizes := r.sizes[b.hash.value := b.size.value]);
      left := left[1..];
    }
  }

  /** The two loops over the folder's volumes. */
  method BuildIndex(lib: Library, volumes: seq<Volume>, needed: set<string>) returns (r: Outcome<Index>)
    ensures r == IndexOf(lib, volumes, needed)
  {
    var index := EMPTY_INDEX;
    var left := volumes;
    while left != []
      invariant FromIndexes(lib, left, index) == FromIndexes(lib, volumes, EMPTY_INDEX)
      decreases |left|
    {
      var v := left[0];
      left := left[1..];
      if v.kind == IsIndex {
        match ReadIndex(lib, v) {
          case Ok(doc) => index := AddDocTo(index, doc);
          case Err(Fail(_)) =>
          case Err(Crash) => return Err(Crash);
        }
      }
    }
    var present := Names(volumes);
    if Incomplete(index, needed, present) {
      index :- ScanBlocks(lib, volumes, index);
    }
    r := Ok(OnlyPresent(index, present));
  }

  method ScanBlocks(lib: Library, volumes: seq<Volume>, listed: Index) returns (r: Outcome<Index>)
    ensures r == FromBlocks(lib, volumes, listed)
  {
    var index := listed;
    var left := volumes;
    while left != []
      invariant FromBlocks(lib, left, index) == FromBlocks(lib, volumes, listed)
      decreases |left|
    {
      var v := left[0];
      left := left[1..];
      if v.kind == IsBlocks {
        match v.payload {
          case Err(Fail(_)) =>
          case Err(Crash) => return Err(Crash);
          case Ok(payload) =>
            var blocks := ReadBlocks(lib.codec, payload);
            match blocks {
              case Ok(b) => index := Index(SetDefault(index.volumes, Holding(b, v.name)), SetDefault(index.sizes, Lengths(b)));
              case Err(Fail(_)) =>
              case Err(Crash) => return Err(Crash);
            }
        }
      }
    }
    r := Ok(index);
  }

  // ---------- what the index says ----------

  /** The last volume of `blocks`' listings that takes effect for `h`, or what was there before. */
  function LastListed(volume: string, blocks: seq<Listing>, h: string, before: Option<string>): Option<string>
    decreases |blocks|
  {
    if blocks == [] || blocks[0].hash.None? then before
    else
      var now := if blocks[0].hash.value == h then Some(volume) else before;
      if blocks[0].size.None? then now else LastListed(volume, blocks[1..], h, now)
  }

  /** The volume the index volumes place `h` in: the one named by the last listing that takes effect. */
  function Listed(lib: Library, volumes: seq<Volume>, h: string, before: Option<string>): Option<string> {
    if volumes == [] then before
    else if volumes[0].kind != IsIndex || ReadIndex(lib, volumes[0]).Err? then Listed(lib, volumes[1..], h, before)
    else
      var doc := ReadIndex(lib, volumes[0]).value;
      var now := if doc.blocks.None? || doc.volume.None? then before else LastListed(doc.volume.value, doc.blocks.value, h, before);
      Listed(lib, volumes[1..], h, now)
  }

  /** The last size of `blocks`' listings that takes effect for `h`, or what was there before. */
  function LastSized(blocks: seq<Listing>, h: string, before: Option<Size>): Option<Size>
    decreases |blocks|
  {
    if blocks == [] || blocks[0].hash.None? || blocks[0].size.None? then before
    else LastSized(blocks[1..], h, if blocks[0].hash.value == h then blocks[0].size else before)
  }

  /** The size the index volumes give `h`. */
  function Sized(lib: Library, volumes: seq<Volume>, h: string, before: Option<Size>): Option<Size> {
    if volumes == [] then before
    else if volumes[0].kind != IsIndex || ReadIndex(lib, volumes[0]).Err? then Sized(lib, volumes[1..], h, before)
    else
      var doc := ReadIndex(lib, volumes[0]).value;
      Sized(lib, volumes[1..], h, if doc.blocks.None? || doc.volume.None? then before else LastSized(doc.blocks.value, h, before))
  }

  /** Whether a block volume can be read and holds `h`. */
  predicate Holds(lib: Library, v: Volume, h: string) {
    v.kind == IsBlocks && ReadVolume(lib, v).Ok? && h in ReadVolume(lib, v).value
  }

  /** The first block volume that holds `h`. */
  function Holder(lib: Library, volumes: seq<Volume>, h: string): (r: Option<Volume>)
    ensures r.Some? ==> Holds(lib, r.value, h)
  {
    if volumes == [] then None else if Holds(lib, volumes[0], h) then Some(volumes[0]) else Holder(lib, volumes[1..], h)
  }

  lemma {:induction false} HolderHolds(lib: Library, volumes: seq<Volume>, h: string)
    ensures match Holder(lib, volumes, h)
      case None => forall i | 0 <= i < |volumes| :: !Holds(lib, volumes[i], h)
      case Some(v) => Holds(lib, v, h) && v in volumes && v.name in Names(volumes)
  {
    if volumes != [] {
      HolderHolds(lib, volumes[1..], h);
      assert forall i | 0 < i < |volumes| :: volumes[i] == volumes[1..][i - 1];
    }
  }

  lemma {:induction false} ListingsAre(index: Index, volume: string, blocks: seq<Listing>, h: string)
    ensures Find(AddListings(index, volume, blocks).volumes, h) == LastListed(volume, blocks, h, Find(index.volumes, h))
    ensures Find(AddListings(index, volume, blocks).sizes, h) == LastSized(blocks, h, Find(index.sizes, h))
    ensures h in AddListings(index, volume, blocks).sizes ==> h in AddListings(index, volume, blocks).volumes || h in index.sizes
    decreases |blocks|
  {
    if blocks != [] && blocks[0].hash.Some? {
      var more := AddListing(index, volume, blocks[0].hash.value, blocks[0].size);
      if blocks[0].size.Some? {
        ListingsAre(more, volume, blocks[1..], h);
        ListingsKeep(more, volume, blocks[1..], h);
      }
    }
  }

  lemma {:induction false} ListingsKeep(index: Index, volume: string, blocks: seq<Listing>, h: string)
    ensures h in index.volumes ==> h in AddListings(index, volume, blocks).volumes
    decreases |blocks|
  {
    if blocks != [] && blocks[0].hash.Some? && blocks[0].size.Some? {
      ListingsKeep(AddListing(index, volume, blocks[0].hash.value, blocks[0].size), volume, blocks[1..], h);
    }
  }

  /** After the index volumes, a block is where its last listing says; a size is known only of a listed block. */
  lemma {:induction false} IndexesAre(lib: Library, volumes: seq<Volume>, index: Index, h: string)
    requires FromIndexes(lib, volumes, index).Ok? && (h in index.sizes ==> h in index.volumes)
    ensures var r := FromIndexes(lib, volumes, index).value;
      && Find(r.volumes, h) == Listed(lib, volumes, h, Find(index.volumes, h)) && (h in r.sizes ==> h in r.volumes)
      && Find(r.sizes, h) == Sized(lib, volumes, h, Find(index.sizes, h))
    decreases |volumes|
  {
    if volumes != [] {
      var v := volumes[0];
      if v.kind == IsIndex && ReadIndex(lib, v).Ok? {
        var doc := ReadIndex(lib, v).value;
        if doc.blocks.Some? && doc.volume.Some? {
          ListingsAre(index, doc.volume.value, doc.blocks.value, h);
          ListingsKeep(index, doc.volume.value, doc.blocks.value, h);
        }
        IndexesAre(lib, volumes[1..], AddDoc(index, doc), h);
      } else {
        IndexesAre(lib, volumes[1..], index, h);
      }
    }
  }

  /** After the scan, a block placed before stays where it was, and any other is in the first volume that holds it, with its length. */
  lemma {:induction false} BlocksAre(lib: Library, volumes: seq<Volume>, index: Index, h: string)
    requires FromBlocks(lib, volumes, index).Ok?
    ensures var r := FromBlocks(lib, volumes, index).value;
      && Find(r.volumes, h) == (if h in index.volumes then Some(index.volumes[h])
        else match Holder(lib, volumes, h) case Some(v) => Some(v.name) case None => None)
      && Find(r.sizes, h) == (if h in index.sizes then Some(index.sizes[h])
        else match Holder(lib, volumes, h) case Some(v) => Some(Number(|ReadVolume(lib, v).value[h]|)) case None => None)
    decreases |volumes|
  {
    if volumes != [] {
      var v := volumes[0];
      if v.kind == IsBlocks && ReadVolume(lib, v).Ok? {
        var blocks := ReadVolume(lib, v).value;
        BlocksAre(lib, volumes[1..], Index(SetDefault(index.volumes, Holding(blocks, v.name)), SetDefault(index.sizes, Lengths(blocks))), h);
      } else {
        BlocksAre(lib, volumes[1..], index, h);
      }
    }
  }

  /** Exactly which needed blocks are located, and where: a listed block where its last listing says, if that volume is
      there, and nowhere else; an unlisted one in the first block volume that holds it. Its size is the listed one, or else
      its true length in that volume. */
  lemma LocatedExactlyWhen(lib: Library, volumes: seq<Volume>, needed: set<string>, h: string)
    requires IndexOf(lib, volumes, needed).Ok? && h in needed
    ensures var r := IndexOf(lib, volumes, needed).value;
      match Listed(lib, volumes, h, None)
      case Some(v) => Find(r.volumes, h) == if v in Names(volumes) then Some(v) else None
      case None =>
        match Holder(lib, volumes, h)
        case None => h !in r.volumes && forall i | 0 <= i < |volumes| :: !Holds(lib, volumes[i], h)
        case Some(v) => Holds(lib, v, h) && Find(r.volumes, h) == Some(v.name)
    ensures var sized, holder := Sized(lib, volumes, h, None), Holder(lib, volumes, h);
      Find(IndexOf(lib, volumes, needed).value.sizes, h) ==
        if sized.Some? then sized
        else if holder.Some? then Some(Number(|ReadVolume(lib, holder.value).value[h]|))
        else None
    ensures Listed(lib, volumes, h, None).None? ==> Sized(lib, volumes, h, None).None?
  {
    var listed := FromIndexes(lib, volumes, EMPTY_INDEX).value;
    IndexesAre(lib, volumes, EMPTY_INDEX, h);
    HolderHolds(lib, volumes, h);
    if Incomplete(listed, needed, Names(volumes)) {
      BlocksAre(lib, volumes, listed, h);
    } else {
      assert h in listed.volumes;
    }
  }

  // ---------- when the index can be built ----------

  /** No index volume raises an exception that the script does not catch. */
  ghost predicate IndexesOpen(lib: Library, volumes: seq<Volume>) {
    forall i | 0 <= i < |volumes| && volumes[i].kind == IsIndex :: ReadIndex(lib, volumes[i]) != Err(Crash)
  }

  /** No block volume of the folder does, needed or not. */
  ghost predicate BlocksOpen(lib: Library, volumes: seq<Volume>) {
    forall i | 0 <= i < |volumes| && volumes[i].kind == IsBlocks :: ReadVolume(lib, volumes[i]) != Err(Crash)
  }

  /** The index volumes leave a needed block without a volume that is there, or without a size. */
  ghost predicate NeedsScan(lib: Library, volumes: seq<Volume>, needed: set<string>) {
    exists h | h in needed ::
      || Listed(lib, volumes, h, None).None? || Listed(lib, volumes, h, None).value !in Names(volumes)
      || Sized(lib, volumes, h, None).None?
  }

  lemma {:induction false} FromIndexesExactlyWhen(lib: Library, volumes: seq<Volume>, index: Index)
    ensures FromIndexes(lib, volumes, index).Ok? <==> IndexesOpen(lib, volumes)
    ensures FromIndexes(lib, volumes, index).Err? ==> FromIndexes(lib, volumes, index) == Err(Crash)
    decreases |volumes|
  {
    if volumes != [] {
      var v, rest := volumes[0], volumes[1..];
      assert forall i | 0 < i < |volumes| :: volumes[i] == rest[i - 1];
      assert forall i | 0 <= i < |rest| :: rest[i] == volumes[i + 1];
      FromIndexesExactlyWhen(lib, rest,
        if v.kind == IsIndex && ReadIndex(lib, v).Ok? then AddDoc(index, ReadIndex(lib, v).value) else index);
    }
  }

  /** The index with what a block volume adds. */
  function AddVolume(lib: Library, v: Volume, index: Index): Index {
    if v.kind != IsBlocks || ReadVolume(lib, v).Err? then index
    else
      var blocks := ReadVolume(lib, v).value;
      Index(SetDefault(index.volumes, Holding(blocks, v.name)), SetDefault(index.sizes, Lengths(blocks)))
  }

  lemma {:induction false} FromBlocksExactlyWhen(lib: Library, volumes: seq<Volume>, index: Index)
    ensures FromBlocks(lib, volumes, index).Ok? <==> BlocksOpen(lib, volumes)
    ensures FromBlocks(lib, volumes, index).Err? ==> FromBlocks(lib, volumes, index) == Err(Crash)
    decreases |volumes|
  {
    if volumes != [] {
      var v, rest := volumes[0], volumes[1..];
      assert forall i | 0 < i < |volumes| :: volumes[i] == rest[i - 1];
      assert forall i | 0 <= i < |rest| :: rest[i] == volumes[i + 1];
      FromBlocksExactlyWhen(lib, rest, AddVolume(lib, v, index));
    }
  }

  lemma NeedsScanExactlyWhen(lib: Library, volumes: seq<Volume>, needed: set<string>)
    requires FromIndexes(lib, volumes, EMPTY_INDEX).Ok?
    ensures Incomplete(FromIndexes(lib, volumes, EMPTY_INDEX).value, needed, Names(volumes)) <==> NeedsScan(lib, volumes, needed)
  {
    var r := FromIndexes(lib, volumes, EMPTY_INDEX).value;
    forall h | h in needed
      ensures Find(r.volumes, h) == Listed(lib, volumes, h, None) && Find(r.sizes, h) == Sized(lib, volumes, h, None)
    {
      IndexesAre(lib, volumes, EMPTY_INDEX, h);
    }
  }

  /** Exactly when the index can be built: one index volume is enough to prevent it, and, once the folder is scanned, one
      block volume, even one that holds nothing needed. */
  lemma IndexedExactlyWhen(lib: Library, volumes: seq<Volume>, needed: set<string>)
    ensures IndexOf(lib, volumes, needed).Ok? <==>
      IndexesOpen(lib, volumes) && (NeedsScan(lib, volumes, needed) ==> BlocksOpen(lib, volumes))
    ensures IndexOf(lib, volumes, needed).Err? ==> IndexOf(lib, volumes, needed) == Err(Crash)
  {
    FromIndexesExactlyWhen(lib, volumes, EMPTY_INDEX);
    if IndexesOpen(lib, volumes) {
      NeedsScanExactlyWhen(lib, volumes, needed);
      FromBlocksExactlyWhen(lib, volumes, FromIndexes(lib, volumes, EMPTY_INDEX).value);
    }
  }
}
