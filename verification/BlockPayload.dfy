/** The payload of a block volume: a count, then name, flag and data of each block. */
module BlockPayload {
  import opened Wrappers
  import opened Bytes

  /** The script's own exception, which its callers catch, or any other one, which ends the run. */
  datatype Error = Fail(message: string) | Crash

  type Outcome<T> = Result<T, Error>

  /** The libraries: UTF-8 names, raw deflate, Zstandard and ZIP archives. What is not in a table raises. */
  datatype Codec = Codec(name: Table<seq<byte>, string>, inflate: Table<seq<byte>, seq<byte>>,
                         zstd: Table<seq<byte>, Outcome<seq<byte>>>, zip: Table<seq<byte>, Outcome<map<string, seq<byte>>>>)

  const ZIP_ENTRY: seq<byte> := [0x50, 0x4B, 0x03, 0x04]
  const ZIP_EMPTY: seq<byte> := [0x50, 0x4B, 0x05, 0x06]

  predicate IsZip(payload: seq<byte>) {
    |payload| >= 4 && (payload[..4] == ZIP_ENTRY || payload[..4] == ZIP_EMPTY)
  }

  const TRUNCATED := Fail("block volume is truncated")

  /** The `n` bytes at `p`. */
  function Take(payload: seq<byte>, p: nat, n: nat): Outcome<seq<byte>> {
    if p + n > |payload| then Err(TRUNCATED) else Ok(payload[p..p + n])
  }

  function Unpack(codec: Codec, flag: byte, data: seq<byte>): Outcome<seq<byte>> {
    if flag == 0 then Ok(data)
    else if flag == 1 then (match Find(codec.inflate, data) case Some(d) => Ok(d) case None => Err(Crash))
    else if flag == 2 then Find(codec.zstd, data).GetOr(Err(Crash))
    else Err(Fail("unknown block flag"))
  }

  /** Something read, and where it ends. */
  datatype Parsed<T> = Parsed(value: T, next: nat)

  function ParseName(codec: Codec, payload: seq<byte>, p: nat): Outcome<Parsed<string>> {
    var len :- Take(payload, p, 1);
    var name :- Take(payload, p + 1, len[0]);
    if name in codec.name then Ok(Parsed(codec.name[name], p + 1 + len[0])) else Err(Crash)
  }

  function ParseData(codec: Codec, payload: seq<byte>, p: nat): Outcome<Parsed<seq<byte>>> {
    var flag :- Take(payload, p, 1);
    var size :- Take(payload, p + 1, 4);
    var data :- Take(payload, p + 5, FromLe32(size));
    var d :- Unpack(codec, flag[0], data);
    Ok(Parsed(d, p + 5 + FromLe32(size)))
  }

  /** The block at `p`, put over `out`. */
  function ParseBlock(codec: Codec, payload: seq<byte>, p: nat, out: map<string, seq<byte>>): Outcome<Parsed<map<string, seq<byte>>>> {
    var h :- ParseName(codec, payload, p);
    var d :- ParseData(codec, payload, h.next);
    Ok(Parsed(out[h.value := d.value], d.next))
  }

  /** `count` blocks from `p` on, put over `out`. */
  function ParseBlocks(codec: Codec, payload: seq<byte>, p: nat, count: nat, out: map<string, seq<byte>>): Outcome<map<string, seq<byte>>>
    decreases count
  {
    if count == 0 then Ok(out)
    else
      var b :- ParseBlock(codec, payload, p, out);
      ParseBlocks(codec, payload, b.next, count - 1, b.value)
  }

  /** hash -> bytes of one block volume. */
  function Decode(codec: Codec, payload: seq<byte>): Outcome<map<string, seq<byte>>> {
    if IsZip(payload) then Find(codec.zip, payload).GetOr(Err(Crash))
    else
      var count :- Take(payload, 0, 4);
      if FromLe32(count) > |payload| / 6 then Err(Fail("block volume is corrupt"))
      else ParseBlocks(codec, payload, 4, FromLe32(count), map[])
  }

  /** The payload with a position in it. */
  class Reader {
    const payload: seq<byte>
    var p: nat

    constructor (payload: seq<byte>)
      ensures p == 0 && this.payload == payload
    {
      this.payload, this.p := payload, 0;
    }

    method TakeNext(n: nat) returns (r: Outcome<seq<byte>>)
      modifies this`p
      ensures r == Take(payload, old(p), n)
      ensures p == if r.Ok? then old(p) + n else old(p)
    {
      if p + n > |payload| {
        return Err(TRUNCATED);
      }
      r := Ok(payload[p..p + n]);
      p := p + n;
    }

    method NextName(codec: Codec) returns (r: Outcome<string>)
      modifies this`p
      ensures match ParseName(codec, payload, old(p))
        case Ok(h) => r == Ok(h.value) && p == h.next
        case Err(e) => r == Err(e)
    {
      var len :- TakeNext(1);
      var name :- TakeNext(len[0]);
      r := if name in codec.name then Ok(codec.name[name]) else Err(Crash);
    }

    method NextData(codec: Codec) returns (r: Outcome<seq<byte>>)
      modifies this`p
      ensures match ParseData(codec, payload, old(p))
        case Ok(d) => r == Ok(d.value) && p == d.next
        case Err(e) => r == Err(e)
    {
      var flag :- TakeNext(1);
      var size :- TakeNext(4);
      var data :- TakeNext(FromLe32(size));
      r := Unpack(codec, flag[0], data);
    }

    /** One block, put over the others. */
    method NextBlock(codec: Codec, out: map<string, seq<byte>>) returns (r: Outcome<map<string, seq<byte>>>)
      modifies this`p
      ensures match ParseBlock(codec, payload, old(p), out)
        case Ok(b) => r == Ok(b.value) && p == b.next
        case Err(e) => r == Err(e)
    {
      var h :- NextName(codec);
      var d :- NextData(codec);
      r := Ok(out[h := d]);
    }

    method NextBlocks(codec: Codec, count: nat) returns (r: Outcome<map<string, seq<byte>>>)
      modifies this`p
      ensures r == ParseBlocks(codec, payload, old(p), count, map[])
    {
      var out: map<string, seq<byte>> := map[];
      var left := count;
      while left > 0
        invariant ParseBlocks(codec, payload, p, left, out) == ParseBlocks(codec, payload, old(p), count, map[])
      {
        out :- NextBlock(codec, out);
        left := left - 1;
      }
      r := Ok(out);
    }
  }

  /** hash -> bytes of one block volume. */
  method ReadBlocks(codec: Codec, payload: seq<byte>) returns (r: Outcome<map<string, seq<byte>>>)
    ensures r == Decode(codec, payload)
  {
    if IsZip(payload) {
      return Find(codec.zip, payload).GetOr(Err(Crash));
    }
    var reader := new Reader(payload);
    var count :- reader.TakeNext(4);
    if FromLe32(count) > |payload| / 6 {
      return Err(Fail("block volume is corrupt"));
    }
    r := reader.NextBlocks(codec, FromLe32(count));
  }

  /** A block as it is stored. */
  datatype Block = Block(name: seq<byte>, flag: byte, data: seq<byte>)

  function EncodeName(b: Block, rest: seq<byte>): seq<byte>
    requires |b.name| < 256
  {
    [|b.name|] + (b.name + rest)
  }

  function EncodeData(b: Block, rest: seq<byte>): seq<byte>
    requires |b.data| < U32_LIMIT
  {
    [b.flag] + (ToLe32(|b.data|) + (b.data + rest))
  }

  /** A block the format can hold and this codec can read back. */
  predicate Storable(codec: Codec, b: Block) {
    |b.name| < 256 && |b.data| < U32_LIMIT && b.name in codec.name && Unpack(codec, b.flag, b.data).Ok?
  }

  predicate AllStorable(codec: Codec, bs: seq<Block>) {
    forall i | 0 <= i < |bs| :: Storable(codec, bs[i])
  }

  function EncodeBlocks(codec: Codec, bs: seq<Block>, rest: seq<byte>): (r: seq<byte>)
    requires AllStorable(codec, bs)
    ensures |r| >= 6 * |bs| + |rest|
  {
    if bs == [] then rest else EncodeName(bs[0], EncodeData(bs[0], EncodeBlocks(codec, bs[1..], rest)))
  }

  /** A payload, with whatever follows it. */
  function Encode(codec: Codec, bs: seq<Block>, rest: seq<byte>): seq<byte>
    requires AllStorable(codec, bs) && |bs| < U32_LIMIT
  {
    ToLe32(|bs|) + EncodeBlocks(codec, bs, rest)
  }

  /** What the blocks hold; of two with the same name, the last. */
  function Contents(codec: Codec, bs: seq<Block>, out: map<string, seq<byte>>): map<string, seq<byte>>
    requires AllStorable(codec, bs)
  {
    if bs == [] then out
    else Contents(codec, bs[1..], out[codec.name[bs[0].name] := Unpack(codec, bs[0].flag, bs[0].data).value])
  }

  /** What follows `p` is `a`. */
  ghost predicate At(s: seq<byte>, p: nat, a: seq<byte>) {
    p <= |s| && s[p..] == a
  }

  lemma TakeOff(s: seq<byte>, p: nat, a: seq<byte>, b: seq<byte>)
    requires At(s, p, a + b)
    ensures Take(s, p, |a|) == Ok(a) && At(s, p + |a|, b)
  {
    assert s[p..p + |a|] == s[p..][..|a|] == a;
    assert s[p + |a|..] == s[p..][|a|..] == b;
  }

  lemma ParseEncodedName(codec: Codec, s: seq<byte>, p: nat, b: Block, rest: seq<byte>)
    requires Storable(codec, b) && At(s, p, EncodeName(b, rest))
    ensures var q := ParseName(codec, s, p);
      q.Ok? && q.value.value == codec.name[b.name] && At(s, q.value.next, rest)
  {
    TakeOff(s, p, [|b.name|], b.name + rest);
    TakeOff(s, p + 1, b.name, rest);
  }

  lemma ParseEncodedData(codec: Codec, s: seq<byte>, p: nat, b: Block, rest: seq<byte>)
    requires Storable(codec, b) && At(s, p, EncodeData(b, rest))
    ensures var q := ParseData(codec, s, p);
      q.Ok? && q.value.value == Unpack(codec, b.flag, b.data).value && At(s, q.value.next, rest)
  {
    var t := b.data + rest;
    TakeOff(s, p, [b.flag], ToLe32(|b.data|) + t);
    TakeOff(s, p + 1, ToLe32(|b.data|), t);
    Le32RoundTrip(|b.data|);
    TakeOff(s, p + 5, b.data, rest);
  }

  lemma {:induction false} ParseEncodedBlocks(codec: Codec, s: seq<byte>, p: nat, bs: seq<Block>, rest: seq<byte>, out: map<string, seq<byte>>)
    requires AllStorable(codec, bs) && At(s, p, EncodeBlocks(codec, bs, rest))
    ensures ParseBlocks(codec, s, p, |bs|, out) == Ok(Contents(codec, bs, out))
    decreases |bs|
  {
    if bs != [] {
      var more := EncodeBlocks(codec, bs[1..], rest);
      ParseEncodedName(codec, s, p, bs[0], EncodeData(bs[0], more));
      var h := ParseName(codec, s, p).value;
      ParseEncodedData(codec, s, h.next, bs[0], more);
      var d := ParseData(codec, s, h.next).value;
      ParseEncodedBlocks(codec, s, d.next, bs[1..], rest, out[h.value := d.value]);
    }
  }

  const ZIP_ENTRY_COUNT: nat := 0x04034B50
  const ZIP_EMPTY_COUNT: nat := 0x06054B50

  /** A block payload looks like a ZIP archive exactly when it holds one of two very large numbers of blocks. */
  lemma LooksLikeZip(codec: Codec, bs: seq<Block>, rest: seq<byte>)
    requires AllStorable(codec, bs) && |bs| < U32_LIMIT
    ensures IsZip(Encode(codec, bs, rest)) <==> |bs| == ZIP_ENTRY_COUNT || |bs| == ZIP_EMPTY_COUNT
  {
    var head, s := ToLe32(|bs|), Encode(codec, bs, rest);
    assert s[..4] == head;
    Le32RoundTrip(|bs|);
    assert FromLe32(ZIP_ENTRY) == ZIP_ENTRY_COUNT && FromLe32(ZIP_EMPTY) == ZIP_EMPTY_COUNT;
    assert ToLe32(ZIP_ENTRY_COUNT) == ZIP_ENTRY && ToLe32(ZIP_EMPTY_COUNT) == ZIP_EMPTY;
  }

  /** Decoding an encoded payload gives the blocks back, whatever follows them, unless it looks like a ZIP archive. */
  lemma PayloadRoundTrip(codec: Codec, bs: seq<Block>, rest: seq<byte>)
    requires AllStorable(codec, bs) && |bs| < U32_LIMIT
    requires |bs| != ZIP_ENTRY_COUNT && |bs| != ZIP_EMPTY_COUNT
    ensures Decode(codec, Encode(codec, bs, rest)) == Ok(Contents(codec, bs, map[]))
  {
    var payload := Encode(codec, bs, rest);
    LooksLikeZip(codec, bs, rest);
    assert payload[0..] == payload;
    TakeOff(payload, 0, ToLe32(|bs|), EncodeBlocks(codec, bs, rest));
    Le32RoundTrip(|bs|);
    assert |bs| <= |payload| / 6;
    ParseEncodedBlocks(codec, payload, 4, bs, rest, map[]);
  }

  /** What follows `p` is a proper prefix of `a`. */
  ghost predicate CutAt(s: seq<byte>, p: nat, a: seq<byte>) {
    p <= |s| && s[p..] < a
  }

  /** Cutting `a + b` short either cuts `a` short or leaves a cut of `b`. */
  lemma TakeCut(s: seq<byte>, p: nat, a: seq<byte>, b: seq<byte>)
    requires CutAt(s, p, a + b)
    ensures Take(s, p, |a|) == Err(TRUNCATED) || (Take(s, p, |a|) == Ok(a) && CutAt(s, p + |a|, b))
  {
    var t := s[p..];
    if |t| >= |a| {
      assert s[p..p + |a|] == t[..|a|] == (a + b)[..|a|] == a;
      assert s[p + |a|..] == t[|a|..] == (a + b)[..|t|][|a|..] == b[..|t| - |a|];
    }
  }

  /** A cut inside a name is noticed; a later one leaves the name intact. */
  lemma CutName(codec: Codec, s: seq<byte>, p: nat, b: Block, rest: seq<byte>)
    requires Storable(codec, b) && CutAt(s, p, EncodeName(b, rest))
    ensures match ParseName(codec, s, p)
      case Err(e) => e == TRUNCATED
      case Ok(q) => CutAt(s, q.next, rest)
  {
    TakeCut(s, p, [|b.name|], b.name + rest);
    if CutAt(s, p + 1, b.name + rest) {
      TakeCut(s, p + 1, b.name, rest);
    }
  }

  /** The same for the data. */
  lemma CutData(codec: Codec, s: seq<byte>, p: nat, b: Block, rest: seq<byte>)
    requires Storable(codec, b) && CutAt(s, p, EncodeData(b, rest))
    ensures match ParseData(codec, s, p)
      case Err(e) => e == TRUNCATED
      case Ok(q) => CutAt(s, q.next, rest)
  {
    var size, t := ToLe32(|b.data|), b.data + rest;
    Le32RoundTrip(|b.data|);
    TakeCut(s, p, [b.flag], size + t);
    if CutAt(s, p + 1, size + t) {
      TakeCut(s, p + 1, size, t);
      if CutAt(s, p + 5, t) {
        TakeCut(s, p + 5, b.data, rest);
      }
    }
  }

  lemma {:induction false} ParseCutBlocks(codec: Codec, s: seq<byte>, p: nat, bs: seq<Block>, out: map<string, seq<byte>>)
    requires AllStorable(codec, bs) && CutAt(s, p, EncodeBlocks(codec, bs, []))
    ensures ParseBlocks(codec, s, p, |bs|, out) == Err(TRUNCATED)
    decreases |bs|
  {
    var more := EncodeBlocks(codec, bs[1..], []);
    CutName(codec, s, p, bs[0], EncodeData(bs[0], more));
    var h := ParseName(codec, s, p);
    if h.Ok? {
      CutData(codec, s, h.value.next, bs[0], more);
      var d := ParseData(codec, s, h.value.next);
      if d.Ok? {
        ParseCutBlocks(codec, s, d.value.next, bs[1..], out[h.value.value := d.value.value]);
      }
    }
  }

  /** Every payload cut short is refused by the script's own exception, never by another and never read as something else. */
  lemma CutPayloadIsRefused(codec: Codec, bs: seq<Block>, s: seq<byte>)
    requires AllStorable(codec, bs) && |bs| < U32_LIMIT
    requires |bs| != ZIP_ENTRY_COUNT && |bs| != ZIP_EMPTY_COUNT
    requires s < Encode(codec, bs, [])
    ensures Decode(codec, s).Err? && Decode(codec, s).error.Fail?
  {
    var payload := Encode(codec, bs, []);
    assert s[0..] == s;
    TakeCut(s, 0, ToLe32(|bs|), EncodeBlocks(codec, bs, []));
    if |s| >= 4 {
      assert s[..4] == payload[..4];
      LooksLikeZip(codec, bs, []);
      Le32RoundTrip(|bs|);
      ParseCutBlocks(codec, s, 4, bs, map[]);
    }
  }

  // ---------- when decoding raises another exception ----------

  /** A whole name that is not UTF-8. */
  predicate BadName(codec: Codec, s: seq<byte>, p: nat) {
    p < |s| && p + 1 + s[p] <= |s| && s[p + 1..p + 1 + s[p]] !in codec.name
  }

  /** A whole stream that its library does not unpack. */
  predicate BadStream(codec: Codec, s: seq<byte>, p: nat) {
    p + 5 <= |s| && p + 5 + FromLe32(s[p + 1..p + 5]) <= |s|
    && var data := s[p + 5..p + 5 + FromLe32(s[p + 1..p + 5])];
    (s[p] == 1 && data !in codec.inflate) || (s[p] == 2 && Find(codec.zstd, data).GetOr(Err(Crash)) == Err(Crash))
  }

  /** A block whose name is bad, or whose name is read and whose stream is bad. */
  predicate BadBlock(codec: Codec, s: seq<byte>, p: nat) {
    BadName(codec, s, p) || (ParseName(codec, s, p).Ok? && BadStream(codec, s, ParseName(codec, s, p).value.next))
  }

  /** Where block number `k` starts, when those in front of it can be read. */
  function BlockStart(codec: Codec, s: seq<byte>, p: nat, k: nat): Option<nat>
    decreases k
  {
    if k == 0 then Some(p)
    else
      match ParseBlock(codec, s, p, map[])
      case Ok(b) => BlockStart(codec, s, b.next, k - 1)
      case Err(_) => None
  }

  ghost predicate HasBadBlock(codec: Codec, s: seq<byte>, p: nat, count: nat) {
    exists k: nat | k < count :: BadBlockAt(codec, s, p, k)
  }

  predicate BadBlockAt(codec: Codec, s: seq<byte>, p: nat, k: nat) {
    BlockStart(codec, s, p, k).Some? && BadBlock(codec, s, BlockStart(codec, s, p, k).value)
  }

  lemma NameCrashesExactlyWhen(codec: Codec, s: seq<byte>, p: nat)
    ensures ParseName(codec, s, p) == Err(Crash) <==> BadName(codec, s, p)
  {
  }

  lemma DataCrashesExactlyWhen(codec: Codec, s: seq<byte>, p: nat)
    ensures ParseData(codec, s, p) == Err(Crash) <==> BadStream(codec, s, p)
  {
    if p + 5 <= |s| {
      assert s[p..p + 1] == [s[p]] && s[p + 1..p + 1 + 4] == s[p + 1..p + 5];
    }
  }

  lemma BlockCrashesExactlyWhen(codec: Codec, s: seq<byte>, p: nat, out: map<string, seq<byte>>)
    ensures ParseBlock(codec, s, p, out) == Err(Crash) <==> BadBlock(codec, s, p)
    ensures ParseBlock(codec, s, p, out).Ok? <==> ParseBlock(codec, s, p, map[]).Ok?
    ensures ParseBlock(codec, s, p, out).Ok? ==> ParseBlock(codec, s, p, out).value.next == ParseBlock(codec, s, p, map[]).value.next
  {
    NameCrashesExactlyWhen(codec, s, p);
    var h := ParseName(codec, s, p);
    if h.Ok? {
      DataCrashesExactlyWhen(codec, s, h.value.next);
    }
  }

  lemma {:induction false} BlocksCrashExactlyWhen(codec: Codec, s: seq<byte>, p: nat, count: nat, out: map<string, seq<byte>>)
    ensures ParseBlocks(codec, s, p, count, out) == Err(Crash) <==> HasBadBlock(codec, s, p, count)
    decreases count
  {
    if count > 0 {
      BlockCrashesExactlyWhen(codec, s, p, out);
      assert BadBlock(codec, s, p) <==> BadBlockAt(codec, s, p, 0);
      var b := ParseBlock(codec, s, p, out);
      if b.Ok? {
        BlocksCrashExactlyWhen(codec, s, b.value.next, count - 1, b.value.value);
        assert forall k: nat | 0 < k :: BadBlockAt(codec, s, p, k) <==> BadBlockAt(codec, s, b.value.next, k - 1);
        if HasBadBlock(codec, s, b.value.next, count - 1) {
          var k: nat :| k < count - 1 && BadBlockAt(codec, s, b.value.next, k);
          assert BadBlockAt(codec, s, p, k + 1);
        }
      } else {
        assert forall k: nat | 0 < k :: !BadBlockAt(codec, s, p, k);
      }
    }
  }

  /** Exactly which payloads raise an exception that is not the script's own: ZIP archives that the library refuses so, and
      payloads with a plausible count in which the first block that cannot be read has all its bytes, but a name that is not
      UTF-8 or a stream that does not unpack. */
  lemma DecodeCrashesExactlyWhen(codec: Codec, payload: seq<byte>)
    ensures Decode(codec, payload) == Err(Crash) <==>
      if IsZip(payload) then Find(codec.zip, payload).GetOr(Err(Crash)) == Err(Crash)
      else
        && |payload| >= 4 && FromLe32(payload[..4]) <= |payload| / 6
        && HasBadBlock(codec, payload, 4, FromLe32(payload[..4]))
  {
    if !IsZip(payload) && |payload| >= 4 {
      assert payload[0..4] == payload[..4];
      BlocksCrashExactlyWhen(codec, payload, 4, FromLe32(payload[..4]), map[]);
    }
  }

  const DAMAGED: seq<byte> := [1, 0, 0, 0, 0, 1, 0, 0, 0, 0]

  /** Damage inside a complete payload can raise another exception: here the one block's deflate stream does not unpack. */
  lemma DamagedStreamExample(codec: Codec)
    requires [] in codec.name && [] !in codec.inflate
    ensures Decode(codec, DAMAGED) == Err(Crash)
  {
    var s := DAMAGED;
    assert s[0..4] == [1, 0, 0, 0] && s[4..5] == [0] && s[5..5] == [];
    assert s[5..6] == [1] && s[6..10] == [0, 0, 0, 0] && s[10..10] == [];
    assert FromLe32(s[0..4]) == 1 && FromLe32(s[6..10]) == 0;
    assert ParseName(codec, s, 4) == Ok(Parsed(codec.name[[]], 5));
    assert ParseData(codec, s, 5) == Err(Crash);
  }

  // ---------- what a stored block holds ----------

  /** The data behind a flag: as it is, deflated, or compressed with Zstandard. */
  predicate StandsFor(codec: Codec, flag: byte, stored: seq<byte>, data: seq<byte>) {
    || (flag == 0 && data == stored)
    || (flag == 1 && stored in codec.inflate && data == codec.inflate[stored])
    || (flag == 2 && stored in codec.zstd && codec.zstd[stored] == Ok(data))
  }

  lemma UnpacksExactlyWhen(codec: Codec, flag: byte, stored: seq<byte>, data: seq<byte>)
    ensures Unpack(codec, flag, stored) == Ok(data) <==> StandsFor(codec, flag, stored, data)
    ensures flag > 2 ==> Unpack(codec, flag, stored) == Err(Fail("unknown block flag"))
  {
  }

  /** Where a name last comes up. */
  ghost predicate LastAt(codec: Codec, bs: seq<Block>, h: string, k: nat)
    requires AllStorable(codec, bs)
  {
    k < |bs| && codec.name[bs[k].name] == h && forall j | k < j < |bs| :: codec.name[bs[j].name] != h
  }

  lemma {:induction false} ContentsSnoc(codec: Codec, bs: seq<Block>, b: Block, out: map<string, seq<byte>>)
    requires AllStorable(codec, bs) && Storable(codec, b)
    ensures AllStorable(codec, bs + [b])
    ensures Contents(codec, bs + [b], out) == Contents(codec, bs, out)[codec.name[b.name] := Unpack(codec, b.flag, b.data).value]
    decreases |bs|
  {
    if bs == [] {
      assert (bs + [b])[1..] == [];
    } else {
      assert (bs + [b])[1..] == bs[1..] + [b];
      ContentsSnoc(codec, bs[1..], b, out[codec.name[bs[0].name] := Unpack(codec, bs[0].flag, bs[0].data).value]);
    }
  }

  /** What a decoded payload holds, from the library tables: the names of its blocks, and for each the data of the last block
      of that name. */
  lemma {:induction false} ContentsAre(codec: Codec, bs: seq<Block>, h: string)
    requires AllStorable(codec, bs)
    ensures var r := Contents(codec, bs, map[]);
      && (h in r <==> exists k: nat :: LastAt(codec, bs, h, k))
      && (forall k: nat | LastAt(codec, bs, h, k) :: h in r && StandsFor(codec, bs[k].flag, bs[k].data, r[h]))
    decreases |bs|
  {
    if bs != [] {
      var n := |bs| - 1;
      var front, b := bs[..n], bs[n];
      assert bs == front + [b];
      ContentsSnoc(codec, front, b, map[]);
      ContentsAre(codec, front, h);
      UnpacksExactlyWhen(codec, b.flag, b.data, Unpack(codec, b.flag, b.data).value);
      assert codec.name[b.name] == h <==> LastAt(codec, bs, h, n);
      forall k: nat | k < n && codec.name[b.name] != h ensures LastAt(codec, front, h, k) <==> LastAt(codec, bs, h, k) {
      }
    }
  }

  /** Decoding an encoded list of blocks, from the library tables. */
  lemma DecodedIs(codec: Codec, bs: seq<Block>, rest: seq<byte>, k: nat)
    requires AllStorable(codec, bs) && |bs| < U32_LIMIT && |bs| != ZIP_ENTRY_COUNT && |bs| != ZIP_EMPTY_COUNT
    requires k < |bs| && LastAt(codec, bs, codec.name[bs[k].name], k)
    ensures var r, h := Decode(codec, Encode(codec, bs, rest)), codec.name[bs[k].name];
      r.Ok? && h in r.value && StandsFor(codec, bs[k].flag, bs[k].data, r.value[h])
  {
    PayloadRoundTrip(codec, bs, rest);
    ContentsAre(codec, bs, codec.name[bs[k].name]);
  }

  lemma Slice1(s: seq<byte>, p: nat)
    requires p < |s|
    ensures s[p..p + 1] == [s[p]]
  {
  }

  lemma Slice4(s: seq<byte>, p: nat)
    requires p + 4 <= |s| && s[p + 1] == 0 && s[p + 2] == 0 && s[p + 3] == 0
    ensures FromLe32(s[p..p + 4]) == s[p]
  {
  }

  /** A payload of one block, byte by byte. */
  lemma OneBlockDecodes(codec: Codec, s: seq<byte>, flag: byte, x: byte)
    requires s == [1, 0, 0, 0, 1, 104, flag, 1, 0, 0, 0, x]
    requires [104] in codec.name && codec.name[[104]] == "h"
    ensures forall data | StandsFor(codec, flag, [x], data) :: Decode(codec, s) == Ok(map["h" := data])
    ensures flag > 2 ==> Decode(codec, s) == Err(Fail("unknown block flag"))
  {
    assert |s| == 12 && s[4] == 1 && s[5] == 104 && s[6] == flag && s[11] == x;
    Slice4(s, 0);
    Slice1(s, 4);
    Slice1(s, 5);
    assert ParseName(codec, s, 4) == Ok(Parsed("h", 6));
    Slice1(s, 6);
    Slice4(s, 7);
    Slice1(s, 11);
    var d := ParseData(codec, s, 6);
    UnpacksExactlyWhen(codec, flag, [x], []);
    forall data | StandsFor(codec, flag, [x], data) ensures Decode(codec, s) == Ok(map["h" := data]) {
      UnpacksExactlyWhen(codec, flag, [x], data);
      assert d == Ok(Parsed(data, 12));
      assert ParseBlocks(codec, s, 12, 0, map["h" := data]) == Ok(map["h" := data]);
    }
  }

  /** One block stored with each flag. */
  lemma FlagsExample(codec: Codec)
    requires codec.name == map[[104] := "h"] && codec.inflate == map[[9] := [7, 7]] && codec.zstd == map[[9] := Ok([5])]
    ensures Decode(codec, [1, 0, 0, 0, 1, 104, 0, 1, 0, 0, 0, 9]) == Ok(map["h" := [9]])
    ensures Decode(codec, [1, 0, 0, 0, 1, 104, 1, 1, 0, 0, 0, 9]) == Ok(map["h" := [7, 7]])
    ensures Decode(codec, [1, 0, 0, 0, 1, 104, 2, 1, 0, 0, 0, 9]) == Ok(map["h" := [5]])
    ensures Decode(codec, [1, 0, 0, 0, 1, 104, 3, 1, 0, 0, 0, 9]) == Err(Fail("unknown block flag"))
  {
    OneBlockDecodes(codec, [1, 0, 0, 0, 1, 104, 0, 1, 0, 0, 0, 9], 0, 9);
    OneBlockDecodes(codec, [1, 0, 0, 0, 1, 104, 1, 1, 0, 0, 0, 9], 1, 9);
    OneBlockDecodes(codec, [1, 0, 0, 0, 1, 104, 2, 1, 0, 0, 0, 9], 2, 9);
    OneBlockDecodes(codec, [1, 0, 0, 0, 1, 104, 3, 1, 0, 0, 0, 9], 3, 9);
    assert StandsFor(codec, 0, [9], [9]) && StandsFor(codec, 1, [9], [7, 7]) && StandsFor(codec, 2, [9], [5]);
  }

  /** The script's own refusals: too few bytes for the count, or more blocks than could be there. */
  lemma ImplausibleCounts(codec: Codec, payload: seq<byte>)
    ensures |payload| < 4 ==> Decode(codec, payload) == Err(Fail("block volume is truncated"))
    ensures |payload| >= 4 && !IsZip(payload) && FromLe32(payload[..4]) > |payload| / 6 ==>
      Decode(codec, payload) == Err(Fail("block volume is corrupt"))
  {
    if |payload| >= 4 {
      assert payload[0..4] == payload[..4];
    }
  }

  /** A ZIP archive is left to its library. */
  lemma ZipsAre(codec: Codec, payload: seq<byte>)
    ensures IsZip(payload) <==> |payload| >= 4 && (payload[..4] == [80, 75, 3, 4] || payload[..4] == [80, 75, 5, 6])
    ensures IsZip(payload) && payload in codec.zip ==> Decode(codec, payload) == codec.zip[payload]
  {
  }
}
