/**
 Reading back what was written (scripts/make_tiny_gguf.py against kernel/ai/pickle.c): every part of
 the file is read as the value it was written for, leaving the bytes after it.
 */
module GgufRoundTrip {
  import opened Options
  import opened Gguf

  lemma FrontAndRest(a: Bytes, rest: Bytes)
    ensures (a + rest)[..|a|] == a && (a + rest)[|a|..] == rest
  {
  }

  lemma IntRead(v: nat, n: nat, rest: Bytes)
    requires v < Pow256(n)
    ensures ReadInt(Le(v, n) + rest, n) == (v, rest)
  {
    FrontAndRest(Le(v, n), rest);
    FromLeInverts(v, n);
  }

  lemma U32Read(v: nat, rest: Bytes)
    requires v < 0x1_0000_0000
    ensures ReadInt(Le(v, 4) + rest, 4) == (v, rest)
  {
    Widths();
    IntRead(v, 4, rest);
  }

  lemma U64Read(v: nat, rest: Bytes)
    requires v < WORD64
    ensures ReadInt(Le(v, 8) + rest, 8) == (v, rest)
  {
    Widths();
    IntRead(v, 8, rest);
  }

  lemma Assoc(a: Bytes, b: Bytes, c: Bytes)
    ensures a + b + c == a + (b + c)
  {
  }

  lemma StrRead(s: Bytes, rest: Bytes)
    requires |s| <= MAX_STRING
    ensures ReadStr(StrBytes(s) + rest) == Some((s, rest))
  {
    Assoc(Le(|s|, 8), s, rest);
    U64Read(|s|, s + rest);
    FrontAndRest(s, rest);
  }

  lemma BoolRead(b: bool, rest: Bytes)
    ensures ReadInt([if b then 1 else 0] + rest, 1) == (if b then 1 else 0, rest)
  {
    var v: nat := if b then 1 else 0;
    assert Le(v, 1) == [v];
    Widths();
    IntRead(v, 1, rest);
  }

  /** The tag under which a value is written, and the bytes after it. */
  function Tag(v: Value): nat
    requires Writable(v)
  {
    match v case UInt(_, _) => 4 case Float32(_) => 6 case Boolean(_) => 7 case Str(_) => 8
  }

  function Payload(v: Value): Bytes
    requires Writable(v)
  {
    match v
    case UInt(_, n) => Le(n, 4)
    case Float32(p) => Le(p, 4)
    case Boolean(b) => [if b then 1 else 0]
    case Str(s) => StrBytes(s)
  }

  lemma PayloadRead(v: Value, rest: Bytes)
    requires Writable(v)
    ensures ReadValue(Payload(v) + rest, Tag(v)) == Some((v, rest))
  {
    match v {
      case UInt(_, n) => U32Read(n, rest);
      case Float32(p) => U32Read(p, rest);
      case Boolean(b) => BoolRead(b, rest);
      case Str(s) => StrRead(s, rest);
    }
  }

  lemma KvRead(kv: Kv, rest: Bytes)
    requires Writable(kv.value) && |kv.key| <= MAX_STRING
    ensures ReadKv(KvBytes(kv) + rest) == Some((kv, rest))
  {
    var (key, tag, payload) := (StrBytes(kv.key), Le(Tag(kv.value), 4), Payload(kv.value));
    assert ValueBytes(kv.value) == tag + payload;
    Assoc(key, tag + payload, rest);
    Assoc(tag, payload, rest);
    StrRead(kv.key, tag + (payload + rest));
    U32Read(Tag(kv.value), payload + rest);
    PayloadRead(kv.value, rest);
  }

  lemma {:induction false} KvsRead(kvs: seq<Kv>, rest: Bytes)
    requires forall i | 0 <= i < |kvs| :: Writable(kvs[i].value) && |kvs[i].key| <= MAX_STRING
    ensures ReadKvs(KvsBytes(kvs) + rest, |kvs|) == Some((kvs, rest))
    decreases |kvs|
  {
    if kvs == [] {
      assert KvsBytes(kvs) + rest == rest;
    } else {
      Assoc(KvBytes(kvs[0]), KvsBytes(kvs[1..]), rest);
      KvRead(kvs[0], KvsBytes(kvs[1..]) + rest);
      KvsRead(kvs[1..], rest);
      assert kvs == [kvs[0]] + kvs[1..];
    }
  }

  lemma {:induction false} DimsRead(dims: seq<nat>, rest: Bytes)
    requires forall i | 0 <= i < |dims| :: dims[i] < WORD64
    ensures ReadDims(DimsBytes(dims) + rest, |dims|) == (dims, rest)
    decreases |dims|
  {
    if dims == [] {
      assert DimsBytes(dims) + rest == rest;
    } else {
      Assoc(Le(dims[0], 8), DimsBytes(dims[1..]), rest);
      U64Read(dims[0], DimsBytes(dims[1..]) + rest);
      DimsRead(dims[1..], rest);
      assert dims == [dims[0]] + dims[1..];
    }
  }

  function Product(dims: seq<nat>): nat {
    if dims == [] then 1 else Product(dims[..|dims| - 1]) * dims[|dims| - 1]
  }

  lemma FactorBound(a: nat, b: nat)
    requires a * b > 0
    ensures a > 0 && b > 0 && a <= a * b
  {
    assert a != 0 && b != 0;
    assert a * b == a + a * (b - 1);
    assert a * (b - 1) >= 0;
  }

  /** The 64-bit product is the product as long as it fits and no factor is 0. */
  lemma {:induction false} ProductFits(dims: seq<nat>)
    requires 0 < Product(dims) < WORD64
    ensures WrappedProduct(dims) == Product(dims)
    decreases |dims|
  {
    if dims != [] {
      FactorBound(Product(dims[..|dims| - 1]), dims[|dims| - 1]);
      ProductFits(dims[..|dims| - 1]);
    }
  }

  /** A tensor within the reader's limits. */
  predicate TensorFits(t: Tensor) {
    && |t.name| < NAME_SIZE && 0 !in t.name
    && 1 <= |t.dims| <= 8 && (forall i | 0 <= i < |t.dims| :: t.dims[i] < WORD64)
    && 0 < |t.weights| == Product(t.dims) && 4 * |t.weights| < WORD64
    && forall i | 0 <= i < |t.weights| :: t.weights[i] < 0x1_0000_0000
  }

  /** What the reader should keep of a tensor whose data is at `offset`. */
  function InfoOf(t: Tensor, offset: nat): Info {
    Info(t.name, t.dims, |t.weights|, 0, offset, 4 * |t.weights|)
  }

  lemma Assoc5(a: Bytes, b: Bytes, c: Bytes, d: Bytes, e: Bytes, f: Bytes)
    ensures a + b + c + d + e + f == a + (b + (c + (d + (e + f))))
  {
    Assoc(a + b + c + d, e, f);
    Assoc(a + b + c, d, e + f);
    Assoc(a + b, c, d + (e + f));
    Assoc(a, b, c + (d + (e + f)));
  }

  lemma InfoReadSteps(s: Bytes, t: Tensor, offset: nat, s1: Bytes, s2: Bytes, s3: Bytes, s4: Bytes, rest: Bytes)
    requires TensorFits(t) && ReadStr(s) == Some((t.name, s1)) && ReadInt(s1, 4) == (|t.dims|, s2)
    requires ReadDims(s2, |t.dims|) == (t.dims, s3) && ReadInt(s3, 4) == (0, s4) && ReadInt(s4, 8) == (offset, rest)
    ensures ReadInfo(s) == Ok((InfoOf(t, offset), rest))
  {
    ProductFits(t.dims);
    StrLenAll(t.name, 0);
    assert CString(t.name) == t.name;
    assert TypeSize(0, |t.weights|) == 4 * |t.weights|;
  }

  lemma InfoRead(t: Tensor, offset: nat, rest: Bytes)
    requires TensorFits(t) && offset < WORD64
    ensures ReadInfo(InfoBytes(t, offset) + rest) == Ok((InfoOf(t, offset), rest))
  {
    var (name, count, dims) := (StrBytes(t.name), Le(|t.dims|, 4), DimsBytes(t.dims));
    var (tag, place) := (Le(0, 4), Le(offset, 8));
    Assoc5(name, count, dims, tag, place, rest);
    var s4 := place + rest;
    var s3 := tag + s4;
    var s2 := dims + s3;
    var s1 := count + s2;
    StrRead(t.name, s1);
    U32Read(|t.dims|, s2);
    DimsRead(t.dims, s3);
    U32Read(0, s4);
    U64Read(offset, rest);
    InfoReadSteps(name + s1, t, offset, s1, s2, s3, s4, rest);
  }

  /** The place of the next tensor's data. */
  function Next(t: Tensor, cur: nat): (r: nat)
    ensures r >= cur + 4 * |t.weights|
  {
    AlignUp(cur + 4 * |t.weights|, 32)
  }

  /** What the reader should keep of the tensors from data offset `cur` on. */
  function InfosOf(ts: seq<Tensor>, cur: nat): (r: seq<Info>)
    ensures |r| == |ts|
  {
    if ts == [] then [] else [InfoOf(ts[0], cur)] + InfosOf(ts[1..], Next(ts[0], cur))
  }

  /** The end of the data section that starts at `cur`. */
  function DataEnd(ts: seq<Tensor>, cur: nat): (e: nat)
    ensures e >= cur
    decreases |ts|
  {
    if ts == [] then cur else DataEnd(ts[1..], Next(ts[0], cur))
  }

  /** The tensor table is read as these rows, leaving `rest`. */
  predicate ReadAs(s: Bytes, infos: seq<Info>, rest: Bytes) { ReadInfos(s, |infos|) == Ok((infos, rest)) }

  lemma {:induction false} ReadAsMore(s: Bytes, x: Info, t: Bytes, infos: seq<Info>, rest: Bytes)
    requires ReadInfo(s) == Ok((x, t)) && ReadAs(t, infos, rest)
    ensures ReadAs(s, [x] + infos, rest)
  {
  }

  lemma {:induction false} InfosReadNext(t: Tensor, ts: seq<Tensor>, cur: nat, rest: Bytes)
    requires TensorFits(t) && cur < WORD64
    requires ReadAs(InfosBytes(ts, Next(t, cur)) + rest, InfosOf(ts, Next(t, cur)), rest)
    ensures ReadAs(InfoBytes(t, cur) + InfosBytes(ts, Next(t, cur)) + rest,
                   [InfoOf(t, cur)] + InfosOf(ts, Next(t, cur)), rest)
  {
    var (first, later) := (InfoBytes(t, cur), InfosBytes(ts, Next(t, cur)));
    Assoc(first, later, rest);
    InfoRead(t, cur, later + rest);
    ReadAsMore(first + (later + rest), InfoOf(t, cur), later + rest, InfosOf(ts, Next(t, cur)), rest);
  }

  lemma {:induction false} InfosRead(ts: seq<Tensor>, cur: nat, rest: Bytes)
    requires (forall i | 0 <= i < |ts| :: TensorFits(ts[i])) && DataEnd(ts, cur) < WORD64
    ensures ReadAs(InfosBytes(ts, cur) + rest, InfosOf(ts, cur), rest)
    decreases |ts|
  {
    if ts == [] {
      assert InfosBytes(ts, cur) + rest == rest;
    } else {
      InfosRead(ts[1..], Next(ts[0], cur), rest);
      InfosReadNext(ts[0], ts[1..], cur, rest);
    }
  }

  /** A model that the reader's limits admit. */
  predicate Fits(m: Model) {
    && |m.kvs| <= 4096 && |m.tensors| <= 65536
    && (forall i | 0 <= i < |m.kvs| :: Writable(m.kvs[i].value) && |m.kvs[i].key| <= MAX_STRING)
    && (forall i | 0 <= i < |m.tensors| :: TensorFits(m.tensors[i]))
    && WritableModel(m) && |HeadBytes(m)| + DataEnd(m.tensors, 0) + 32 < WORD64 / 2
  }

  lemma LoadMetaSteps(data: Bytes, s1: Bytes, s2: Bytes, s3: Bytes, s4: Bytes, tensors: nat, kvCount: nat,
                      kvs: seq<Kv>, infos: seq<Info>, rest: Bytes)
    requires tensors <= 65536 && kvCount <= 4096
    requires ReadInt(data, 4) == (MAGIC, s1) && ReadInt(s1, 4) == (3, s2)
    requires ReadInt(s2, 8) == (tensors, s3) && ReadInt(s3, 8) == (kvCount, s4)
    requires ReadTables(s4, kvCount, tensors) == Ok((kvs, infos, rest))
    ensures LoadMeta(data) == Ok(Meta(3, kvs, infos, Seek(data, AlignUp(Tell(data, rest), Alignment(kvs)))))
  {
  }

  lemma TablesRead(m: Model, rest: Bytes)
    requires Fits(m)
    ensures ReadTables(KvsBytes(m.kvs) + (InfosBytes(m.tensors, 0) + rest), |m.kvs|, |m.tensors|) ==
            Ok((m.kvs, InfosOf(m.tensors, 0), rest))
  {
    KvsRead(m.kvs, InfosBytes(m.tensors, 0) + rest);
    InfosRead(m.tensors, 0, rest);
  }

  lemma FixedRead(magic: nat, version: nat, tensors: nat, kvs: nat, rest: Bytes)
    requires magic < 0x1_0000_0000 && version < 0x1_0000_0000 && tensors < WORD64 && kvs < WORD64
    ensures var s3 := Le(kvs, 8) + rest;
            var s2 := Le(tensors, 8) + s3;
            var s1 := Le(version, 4) + s2;
            && ReadInt(Le(magic, 4) + s1, 4) == (magic, s1) && ReadInt(s1, 4) == (version, s2)
            && ReadInt(s2, 8) == (tensors, s3) && ReadInt(s3, 8) == (kvs, rest)
  {
    var s3 := Le(kvs, 8) + rest;
    var s2 := Le(tensors, 8) + s3;
    U64Read(kvs, rest);
    U64Read(tensors, s3);
    U32Read(version, s2);
    U32Read(magic, Le(version, 4) + s2);
  }

  /** The head of the file, regrouped. */
  lemma HeadParts(m: Model, rest: Bytes, magic: nat, version: nat)
    requires WritableModel(m) && magic == MAGIC && version == 3
    ensures HeadBytes(m) + rest == Le(magic, 4) + (Le(version, 4) + (Le(|m.tensors|, 8) + (Le(|m.kvs|, 8) +
                                   (KvsBytes(m.kvs) + (InfosBytes(m.tensors, 0) + rest)))))
  {
    var (a, b, c, d) := (Le(magic, 4), Le(version, 4), Le(|m.tensors|, 8), Le(|m.kvs|, 8));
    Assoc(a + b + c + d + KvsBytes(m.kvs), InfosBytes(m.tensors, 0), rest);
    Assoc5(a, b, c, d, KvsBytes(m.kvs), InfosBytes(m.tensors, 0) + rest);
  }

  lemma MetaRead(m: Model, rest: Bytes, magic: nat, version: nat)
    requires Fits(m) && magic == MAGIC && version == 3
    ensures var data := HeadBytes(m) + rest;
            LoadMeta(data) ==
            Ok(Meta(3, m.kvs, InfosOf(m.tensors, 0), Seek(data, AlignUp(|HeadBytes(m)|, Alignment(m.kvs)))))
  {
    var s4 := KvsBytes(m.kvs) + (InfosBytes(m.tensors, 0) + rest);
    var s3 := Le(|m.kvs|, 8) + s4;
    var s2 := Le(|m.tensors|, 8) + s3;
    var s1 := Le(version, 4) + s2;
    var data := HeadBytes(m) + rest;
    TablesRead(m, rest);
    FixedRead(magic, version, |m.tensors|, |m.kvs|, s4);
    assert data == Le(magic, 4) + s1 by { HeadParts(m, rest, magic, version); }
    LoadMetaSteps(data, s1, s2, s3, s4, |m.tensors|, |m.kvs|, m.kvs, InfosOf(m.tensors, 0), rest);
    assert Tell(data, rest) == |HeadBytes(m)|;
  }

  // --- Tensor data --------------------------------------------------------------------

  /** A weight is a block of one word. */
  function Blocks(ws: seq<nat>): (r: seq<seq<nat>>)
    ensures |r| == |ws| && forall i | 0 <= i < |ws| :: r[i] == [ws[i]]
  {
    if ws == [] then [] else [[ws[0]]] + Blocks(ws[1..])
  }

  lemma WordRead(w: nat, rest: Bytes)
    requires w < 0x1_0000_0000
    ensures ReadFields(Le(w, 4) + rest, [Soft(4)]) == Some(([w], rest))
  {
    U32Read(w, rest);
    var f := [Soft(4)];
    assert f[0].width == 4 && f[1..] == [];
    assert ReadFields(rest, f[1..]) == Some(([], rest));
    assert [w] + [] == [w];
  }

  lemma {:induction false} WordsRead(ws: seq<nat>, rest: Bytes)
    requires forall i | 0 <= i < |ws| :: ws[i] < 0x1_0000_0000
    ensures ReadBlocks(WordsBytes(ws) + rest, [Soft(4)], |ws|) == Some((Blocks(ws), rest))
    decreases |ws|
  {
    if ws == [] {
      assert WordsBytes(ws) + rest == rest;
    } else {
      Assoc(Le(ws[0], 4), WordsBytes(ws[1..]), rest);
      WordRead(ws[0], WordsBytes(ws[1..]) + rest);
      WordsRead(ws[1..], rest);
    }
  }

  lemma TensorRead(data: Bytes, start: nat, t: Tensor, offset: nat, tail: Bytes)
    requires TensorFits(t) && offset < WORD64 / 2
    requires start + offset <= |data| && data[start + offset..] == WordsBytes(t.weights) + tail
    ensures LoadTensor(data, start, InfoOf(t, offset)) == Ok(Blocks(t.weights))
  {
    assert Seek(data, start + Signed(offset, WORD64)) == start + offset;
    WordsRead(t.weights, tail);
  }

  function BlocksOf(ts: seq<Tensor>): (r: seq<seq<seq<nat>>>)
    ensures |r| == |ts| && forall i | 0 <= i < |ts| :: r[i] == Blocks(ts[i].weights)
  {
    if ts == [] then [] else [Blocks(ts[0].weights)] + BlocksOf(ts[1..])
  }

  lemma AlignShift(start: nat, n: nat)
    requires start % 32 == 0
    ensures AlignUp(start + n, 32) == start + AlignUp(n, 32)
  {
    assert (start + n) % 32 == n % 32;
  }

  /** The padding after a tensor ends where the table says the next one begins. */
  lemma NextTensor(data: Bytes, start: nat, ts: seq<Tensor>, cur: nat)
    requires ts != [] && start % 32 == 0 && start + cur <= |data| && data[start + cur..] == DataBytes(ts, start + cur)
    ensures var next := Next(ts[0], cur);
            && start + next <= |data| && data[start + next..] == DataBytes(ts[1..], start + next)
    ensures exists tail: Bytes :: data[start + cur..] == WordsBytes(ts[0].weights) + tail
  {
    var (next, end) := (Next(ts[0], cur), start + cur + 4 * |ts[0].weights|);
    AlignShift(start, cur + 4 * |ts[0].weights|);
    var (words, pad, rest) := (WordsBytes(ts[0].weights), Padding(end), DataBytes(ts[1..], start + next));
    assert data[start + cur..] == words + pad + rest;
    Assoc(words, pad, rest);
    assert |words + pad| == next - cur;
    FrontAndRest(words + pad, rest);
    assert data[start + cur..][next - cur..] == data[start + next..];
  }

  lemma {:induction false} TensorsRead(data: Bytes, start: nat, ts: seq<Tensor>, cur: nat)
    requires (forall i | 0 <= i < |ts| :: TensorFits(ts[i])) && start % 32 == 0 && DataEnd(ts, cur) < WORD64 / 2
    requires start + cur <= |data| && data[start + cur..] == DataBytes(ts, start + cur)
    ensures LoadTensors(data, start, InfosOf(ts, cur)) == Ok(BlocksOf(ts))
    decreases |ts|
  {
    if ts != [] {
      NextTensor(data, start, ts, cur);
      var tail: Bytes :| data[start + cur..] == WordsBytes(ts[0].weights) + tail;
      TensorRead(data, start, ts[0], cur, tail);
      TensorsRead(data, start, ts[1..], Next(ts[0], cur));
      assert InfosOf(ts, cur)[1..] == InfosOf(ts[1..], Next(ts[0], cur));
    }
  }

  lemma FileParts(head: Bytes, pad: Bytes, rest: Bytes)
    ensures head + pad + rest == head + (pad + rest) && (head + pad + rest)[|head| + |pad|..] == rest
  {
    Assoc(head, pad, rest);
    FrontAndRest(head + pad, rest);
  }

  lemma LoadSteps(data: Bytes, meta: Meta, blocks: seq<seq<seq<nat>>>)
    requires LoadMeta(data) == Ok(meta) && LoadTensors(data, meta.dataStart, meta.infos) == Ok(blocks)
    ensures Load(data) == Ok(Loaded(meta, blocks))
  {
  }

  /** After any head, padded, the tensors are found where the table says. */
  lemma {:induction false} TensorsInFile(head: Bytes, ts: seq<Tensor>)
    requires (forall i | 0 <= i < |ts| :: TensorFits(ts[i])) && DataEnd(ts, 0) < WORD64 / 2
    ensures var start := AlignUp(|head|, 32);
            LoadTensors(head + Padding(|head|) + DataBytes(ts, start), start, InfosOf(ts, 0)) == Ok(BlocksOf(ts))
  {
    var start := AlignUp(|head|, 32);
    FileParts(head, Padding(|head|), DataBytes(ts, start));
    TensorsRead(head + Padding(|head|) + DataBytes(ts, start), start, ts, 0);
  }

  /** Where the writer puts the data section, and where the reader looks for it. */
  function WriterStart(m: Model): nat
    requires WritableModel(m)
  {
    AlignUp(|HeadBytes(m)|, 32)
  }

  function ReaderStart(m: Model): nat
    requires WritableModel(m)
  {
    Seek(FileBytes(m), AlignUp(|HeadBytes(m)|, Alignment(m.kvs)))
  }

  /** What the reader makes of the head. */
  function MetaOf(m: Model): Meta
    requires WritableModel(m)
  {
    Meta(3, m.kvs, InfosOf(m.tensors, 0), ReaderStart(m))
  }

  /** The metadata and the tensor table are recovered from every file, whatever its alignment entry. */
  lemma MetaRoundTrip(m: Model)
    requires Fits(m)
    ensures LoadMeta(FileBytes(m)) == Ok(MetaOf(m))
  {
    var (pad, rest) := (Padding(|HeadBytes(m)|), DataBytes(m.tensors, WriterStart(m)));
    FileParts(HeadBytes(m), pad, rest);
    MetaRead(m, pad + rest, MAGIC, 3);
  }

  /** The alignment that the metadata asks for leads to the same place as the writer's 32. */
  predicate Aligned(m: Model)
    requires WritableModel(m)
  {
    AlignUp(|HeadBytes(m)|, Alignment(m.kvs)) == WriterStart(m)
  }

  /** The reader looks for the data where the writer put it exactly when the two alignments meet. */
  lemma StartIff(m: Model)
    requires Fits(m) && m.tensors != []
    ensures ReaderStart(m) == WriterStart(m) <==> Aligned(m)
  {
    assert TensorFits(m.tensors[0]);
    FileLength(HeadBytes(m), m.tensors);
  }

  lemma FileLength(head: Bytes, ts: seq<Tensor>)
    requires ts != [] && ts[0].weights != []
    ensures |head + Padding(|head|) + DataBytes(ts, AlignUp(|head|, 32))| > AlignUp(|head|, 32)
  {
  }

  /** pickle_load recovers every key, value, shape and weight of a file the writer wrote, given that the
      metadata asks for no other alignment. */
  lemma RoundTrip(m: Model)
    requires Fits(m) && (m.tensors == [] || Aligned(m))
    ensures Load(FileBytes(m)) == Ok(Loaded(MetaOf(m), BlocksOf(m.tensors)))
  {
    MetaRoundTrip(m);
    assert LoadTensors(FileBytes(m), ReaderStart(m), InfosOf(m.tensors, 0)) == Ok(BlocksOf(m.tensors)) by {
      if m.tensors != [] {
        StartIff(m);
        TensorsInFile(HeadBytes(m), m.tensors);
      }
    }
    LoadSteps(FileBytes(m), MetaOf(m), BlocksOf(m.tensors));
  }

  // --- An alignment entry that misleads the reader --------------------------------------

  /** One weight w, and general.alignment = 64. */
  function Misaligned(w: nat): Model {
    Model([Kv(ALIGNMENT_KEY, UInt(32, 64))], [Tensor([116], [1], [w])])
  }

  lemma {:induction false} MisalignedFits(w: nat)
    requires w < 0x1_0000_0000
    ensures Fits(Misaligned(w)) && Alignment(Misaligned(w).kvs) == 64 && |HeadBytes(Misaligned(w))| == 90
  {
    var m := Misaligned(w);
    AlignmentOf64(m.kvs);
    MisalignedHead(m, m.tensors[0]);
    MisalignedTensor(m.tensors, w);
  }

  lemma {:induction false} AlignmentOf64(kvs: seq<Kv>)
    requires kvs == [Kv(ALIGNMENT_KEY, UInt(32, 64))]
    ensures Alignment(kvs) == 64
  {
    StrLenAll(ALIGNMENT_KEY, 0);
    assert CString(ALIGNMENT_KEY) == ALIGNMENT_KEY;
    assert Alignment([]) == 32 && kvs[..0] == [];
  }

  lemma {:induction false} MisalignedTensor(ts: seq<Tensor>, w: nat)
    requires ts == [Tensor([116], [1], [w])] && w < 0x1_0000_0000
    ensures TensorFits(ts[0]) && DataEnd(ts, 0) == 32
  {
    assert Product([1]) == Product([]) * 1 by { assert [1][..0] == []; }
    assert DataEnd(ts, 0) == DataEnd([], 32) by { assert ts[1..] == []; }
  }

  lemma MisalignedHead(m: Model, t: Tensor)
    requires m == Model([Kv(ALIGNMENT_KEY, UInt(32, 64))], [t]) && t.name == [116] && t.dims == [1]
    ensures WritableModel(m) && |HeadBytes(m)| == 90
  {
    assert m.kvs[1..] == [] && m.tensors[1..] == [];
    assert |ALIGNMENT_KEY| == 17;
    assert |KvBytes(m.kvs[0])| == 33;
    assert |KvsBytes(m.kvs)| == 33 by { assert KvsBytes([]) == []; }
    assert |InfoBytes(t, 0)| == 33;
    assert |InfosBytes(m.tensors, 0)| == 33 by { assert InfosBytes([], AlignUp(4 * |t.weights|, 32)) == []; }
  }

  /** The reader starts at the end of the file and takes the weight for zero. */
  lemma {:induction false} MisalignedWitness(w: nat)
    requires w < 0x1_0000_0000
    ensures WritableModel(Misaligned(w)) && !Aligned(Misaligned(w))
    ensures Load(FileBytes(Misaligned(w))) == Ok(Loaded(MetaOf(Misaligned(w)), [[[0]]]))
  {
    var m := Misaligned(w);
    MisalignedFits(w);
    MetaRoundTrip(m);
    MisalignedLength(HeadBytes(m), m.tensors);
    EmptyTensor(FileBytes(m), InfosOf(m.tensors, 0));
    LoadSteps(FileBytes(m), MetaOf(m), [[[0]]]);
  }

  lemma MisalignedLength(head: Bytes, ts: seq<Tensor>)
    requires |head| == 90 && |ts| == 1 && |ts[0].weights| == 1
    ensures AlignUp(|head|, 64) == 128 && AlignUp(|head|, 32) == 96
    ensures |head + Padding(|head|) + DataBytes(ts, AlignUp(|head|, 32))| == 128
  {
    assert ts[1..] == [] && DataBytes([], 128) == [];
  }

  lemma {:induction false} EmptyTensor(data: Bytes, infos: seq<Info>)
    requires |data| == 128 && |infos| == 1 && infos[0].tag == 0 && infos[0].elements == 1 && infos[0].offset == 0
    ensures LoadTensors(data, 128, infos) == Ok([[[0]]])
  {
    var e: Bytes := [];
    ZeroWord(e);
    var f := BlockFields(0);
    assert ReadBlocks(e, f, 0) == Some(([], e));
    var one: seq<seq<nat>> := [[0]];
    assert ReadBlocks(e, f, 1) == Some((one + [], e)) && one + [] == one;
    assert data[128..] == e && Seek(data, 128 + Signed(0, WORD64)) == 128;
    assert LoadTensor(data, 128, infos[0]) == Ok([[0]]);
    assert infos[1..] == [] && LoadTensors(data, 128, []) == Ok([]);
    assert [[[0]]] + [] == [[[0]]];
  }

  /** A word read past the end of the file is 0. */
  lemma ZeroWord(e: Bytes)
    requires e == []
    ensures ReadFields(e, BlockFields(0)) == Some(([0], e))
  {
    var f := BlockFields(0);
    assert f == [Soft(4)] && f[0] == Soft(4) && f[1..] == [];
    var rest := ReadFields(e, f[1..]);
    assert rest == Some(([], e));
    assert ReadInt(e, 4) == (0, e);
    var zero: seq<nat> := [0];
    assert Prepend(zero, rest) == Some((zero + [], e));
    assert zero + [] == zero;
  }

  /** The table row of each tensor. */
  lemma {:induction false} InfosAt(ts: seq<Tensor>, cur: nat, i: nat)
    requires i < |ts|
    ensures var info := InfosOf(ts, cur)[i];
            info.name == ts[i].name && info.dims == ts[i].dims && info.elements == |ts[i].weights| && info.tag == 0
    decreases |ts|
  {
    if i > 0 { InfosAt(ts[1..], Next(ts[0], cur), i - 1); }
  }

  // --- Bytes consumed by the quantised types ------------------------------------------

  /** The bytes of the fields from the i-th on. */
  function WidthFrom(fields: seq<Field>, i: nat): nat
    decreases |fields| - i
  {
    if i >= |fields| then 0 else fields[i].width + WidthFrom(fields, i + 1)
  }

  function Width(fields: seq<Field>): nat { WidthFrom(fields, 0) }

  lemma DropTwice(s: Bytes, a: nat, b: nat)
    requires a + b <= |s|
    ensures s[a..][b..] == s[a + b..]
  {
  }

  lemma {:induction false} FieldsConsume(s: Bytes, fields: seq<Field>, i: nat)
    requires i <= |fields| && |s| >= WidthFrom(fields, i)
    ensures ReadFields(s, fields[i..]).Some? && ReadFields(s, fields[i..]).value.1 == s[WidthFrom(fields, i)..]
    decreases |fields| - i
  {
    if i < |fields| {
      var w := fields[i].width;
      assert fields[i..][0] == fields[i] && fields[i..][1..] == fields[i + 1..];
      FieldsConsume(s[w..], fields, i + 1);
      DropTwice(s, w, WidthFrom(fields, i + 1));
    }
  }

  lemma {:induction false} BlocksConsume(s: Bytes, fields: seq<Field>, n: nat, w: nat)
    requires w == Width(fields) && |s| >= n * w
    ensures ReadBlocks(s, fields, n).Some? && ReadBlocks(s, fields, n).value.1 == s[n * w..]
    decreases n
  {
    if n > 0 {
      MultipleStep(n, w);
      assert fields[0..] == fields;
      FieldsConsume(s, fields, 0);
      BlocksConsume(s[w..], fields, n - 1, w);
      DropTwice(s, w, (n - 1) * w);
    }
  }

  lemma MultipleStep(n: nat, w: nat)
    requires n > 0
    ensures n * w == w + (n - 1) * w && (n - 1) * w >= 0
  {
  }

  /** The bytes that pickle_type_size allots to a block. */
  function BlockSize(tag: nat): nat {
    match tag
    case 0 => 4 case 1 => 2 case 2 => 18 case 3 => 20 case 6 => 22 case 7 => 24 case 8 => 34 case 9 => 36
    case 10 => 84 case 11 => 110 case 12 => 144 case 13 => 176 case 14 => 210 case 15 => 292
    case _ => 0
  }

  lemma TypeSizeIs(tag: nat, n: nat)
    requires KnownType(tag)
    ensures TypeSize(tag, n) == BlockCount(tag, n) * BlockSize(tag) % WORD64
  {
  }

  /** Three types read four bytes a block more than pickle_type_size allots to it. */
  lemma BlockWidths(tag: nat)
    requires KnownType(tag)
    ensures Width(BlockFields(tag)) == BlockSize(tag) + if tag in {3, 7, 9} then 4 else 0
  {
    var f := BlockFields(tag);
    WidthSum(f);
  }

  function WidthAt(f: seq<Field>, i: nat): nat { if i < |f| then f[i].width else 0 }

  lemma WidthSum(f: seq<Field>)
    requires |f| <= 10
    ensures Width(f) == WidthAt(f, 0) + WidthAt(f, 1) + WidthAt(f, 2) + WidthAt(f, 3) + WidthAt(f, 4) +
                        WidthAt(f, 5) + WidthAt(f, 6) + WidthAt(f, 7) + WidthAt(f, 8) + WidthAt(f, 9)
  {
    assert WidthFrom(f, 9) == WidthAt(f, 9);
    assert WidthFrom(f, 7) == WidthAt(f, 7) + WidthAt(f, 8) + WidthFrom(f, 9);
    assert WidthFrom(f, 5) == WidthAt(f, 5) + WidthAt(f, 6) + WidthFrom(f, 7);
    assert WidthFrom(f, 3) == WidthAt(f, 3) + WidthAt(f, 4) + WidthFrom(f, 5);
    assert WidthFrom(f, 1) == WidthAt(f, 1) + WidthAt(f, 2) + WidthFrom(f, 3);
  }

  /** Reading a tensor consumes exactly the bytes of pickle_type_size, unless its type is Q4_1, Q5_1
      or Q8_1 and it has a whole block. */
  lemma {:induction false} DequantConsumes(s: Bytes, tag: nat, n: nat)
    requires KnownType(tag)
    requires BlockCount(tag, n) * BlockSize(tag) < WORD64
    requires |s| >= BlockCount(tag, n) * Width(BlockFields(tag))
    ensures var r := ReadBlocks(s, BlockFields(tag), BlockCount(tag, n));
            && r.Some? && |r.value.1| <= |s|
            && (|s| - |r.value.1| == TypeSize(tag, n) <==> tag !in {3, 7, 9} || n < 32)
  {
    var (blocks, f) := (BlockCount(tag, n), BlockFields(tag));
    BlockWidths(tag);
    TypeSizeIs(tag, n);
    BlocksConsume(s, f, blocks, Width(f));
    if tag in {3, 7, 9} { FourMore(blocks, Width(f), BlockSize(tag)); }
  }

  lemma FourMore(blocks: nat, width: nat, size: nat)
    requires width == size + 4
    ensures blocks * width == blocks * size + 4 * blocks
  {
  }
}
