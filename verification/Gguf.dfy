/**
 The GGUF file format as scripts/make_tiny_gguf.py writes it and kernel/ai/pickle.c reads it: what
 the writer puts on file, what the reader makes of any file, and the proof that the reader undoes
 the writer.
 */
module Gguf {
  import opened Options

  type Byte = b: int | 0 <= b < 256
  type Bytes = seq<Byte>

  const MAGIC := 0x4655_4747
  const MAX_STRING := 0x10_0000
  const WORD64 := 0x1_0000_0000_0000_0000

  datatype Error = BadFormat | BadVersion | BadType | IoError
  datatype Result<+T> = Ok(value: T) | Err(error: Error)

  // --- Little-endian integers ---------------------------------------------------------

  function Pow256(n: nat): (r: nat)
    ensures r > 0
  {
    if n == 0 then 1 else 256 * Pow256(n - 1)
  }

  function Le(v: nat, n: nat): (b: Bytes)
    ensures |b| == n
  {
    if n == 0 then [] else [v % 256] + Le(v / 256, n - 1)
  }

  function FromLe(b: Bytes): (v: nat) {
    if b == [] then 0 else
      var first: int := b[0];
      first + 256 * FromLe(b[1..])
  }

  lemma {:induction false} FromLeInverts(v: nat, n: nat)
    requires v < Pow256(n)
    ensures FromLe(Le(v, n)) == v
    decreases n
  {
    if n > 0 {
      assert Le(v, n)[1..] == Le(v / 256, n - 1);
      FromLeInverts(v / 256, n - 1);
    }
  }

  lemma Widths()
    ensures Pow256(1) == 256 && Pow256(4) == 0x1_0000_0000 && Pow256(8) == WORD64
  {
    assert Pow256(2) == 0x1_0000 && Pow256(3) == 0x100_0000;
    assert Pow256(5) == 0x100_0000_0000 && Pow256(6) == 0x1_0000_0000_0000 && Pow256(7) == 0x100_0000_0000_0000;
  }

  // --- What the writer writes ---------------------------------------------------------

  /** Metadata values; `UInt` and `SInt` carry their width in bits. */
  datatype Value =
    | UInt(bits: nat, v: nat) | SInt(width: nat, i: int)
    | Float32(pattern: nat) | Float64
    | Boolean(b: bool) | Str(s: Bytes)
    | Array(elem: nat, count: nat, raw: Bytes) | StrArray(items: seq<Bytes>)

  datatype Kv = Kv(key: Bytes, value: Value)

  /** An F32 tensor to be written; the weights are binary32 bit patterns. */
  datatype Tensor = Tensor(name: Bytes, dims: seq<nat>, weights: seq<nat>)

  datatype Model = Model(kvs: seq<Kv>, tensors: seq<Tensor>)

  function StrBytes(s: Bytes): Bytes { Le(|s|, 8) + s }

  predicate Writable(v: Value) {
    match v
    case UInt(bits, n) => bits == 32 && n < 0x1_0000_0000
    case Float32(p) => p < 0x1_0000_0000
    case Boolean(_) => true
    case Str(s) => |s| <= MAX_STRING
    case _ => false
  }

  /** The type tag and payload of write_kv_str, write_kv_u32, write_kv_f32 and write_kv_bool. */
  function ValueBytes(v: Value): Bytes
    requires Writable(v)
  {
    match v
    case UInt(_, n) => Le(4, 4) + Le(n, 4)
    case Float32(p) => Le(6, 4) + Le(p, 4)
    case Boolean(b) => Le(7, 4) + [if b then 1 else 0]
    case Str(s) => Le(8, 4) + StrBytes(s)
  }

  function KvBytes(kv: Kv): Bytes
    requires Writable(kv.value)
  {
    StrBytes(kv.key) + ValueBytes(kv.value)
  }

  function KvsBytes(kvs: seq<Kv>): Bytes
    requires forall i | 0 <= i < |kvs| :: Writable(kvs[i].value)
  {
    if kvs == [] then [] else KvBytes(kvs[0]) + KvsBytes(kvs[1..])
  }

  function DimsBytes(dims: seq<nat>): (b: Bytes)
    ensures |b| == 8 * |dims|
  {
    if dims == [] then [] else Le(dims[0], 8) + DimsBytes(dims[1..])
  }

  /** The next multiple of `a`. */
  function AlignUp(n: nat, a: nat): (r: nat)
    requires a > 0
    ensures r >= n && r - n < a && (a == 32 ==> r % 32 == 0)
  {
    if n % a == 0 then n else n + (a - n % a)
  }

  /** One entry of the tensor table; 0 is the type F32. */
  function InfoBytes(t: Tensor, offset: nat): Bytes {
    StrBytes(t.name) + Le(|t.dims|, 4) + DimsBytes(t.dims) + Le(0, 4) + Le(offset, 8)
  }

  /** The table from a tensor whose data begins at `cur` in the data section. */
  function InfosBytes(ts: seq<Tensor>, cur: nat): Bytes {
    if ts == [] then []
    else InfoBytes(ts[0], cur) + InfosBytes(ts[1..], AlignUp(cur + 4 * |ts[0].weights|, 32))
  }

  function WordsBytes(ws: seq<nat>): (b: Bytes)
    ensures |b| == 4 * |ws|
  {
    if ws == [] then [] else Le(ws[0], 4) + WordsBytes(ws[1..])
  }

  function Zeros(n: nat): (b: Bytes)
    ensures |b| == n && forall i | 0 <= i < n :: b[i] == 0
  {
    seq(n, _ => 0)
  }

  /** Zero padding that brings a file of length `pos` to a multiple of 32. */
  function Padding(pos: nat): (b: Bytes)
    ensures pos + |b| == AlignUp(pos, 32) && forall i | 0 <= i < |b| :: b[i] == 0
  {
    Zeros(AlignUp(pos, 32) - pos)
  }

  /** The data section from file position `pos` on. */
  function DataBytes(ts: seq<Tensor>, pos: nat): Bytes {
    if ts == [] then [] else
      var end := pos + 4 * |ts[0].weights|;
      WordsBytes(ts[0].weights) + Padding(end) + DataBytes(ts[1..], AlignUp(end, 32))
  }

  predicate WritableModel(m: Model) { forall i | 0 <= i < |m.kvs| :: Writable(m.kvs[i].value) }

  function HeadBytes(m: Model): Bytes
    requires WritableModel(m)
  {
    Le(MAGIC, 4) + Le(3, 4) + Le(|m.tensors|, 8) + Le(|m.kvs|, 8) + KvsBytes(m.kvs) + InfosBytes(m.tensors, 0)
  }

  /** The whole file. */
  function FileBytes(m: Model): Bytes
    requires WritableModel(m)
  {
    var head := HeadBytes(m);
    head + Padding(|head|) + DataBytes(m.tensors, AlignUp(|head|, 32))
  }

  // --- What the reader reads ----------------------------------------------------------
  // Every function takes the bytes from the cursor on and returns those that it leaves.

  /** An n-byte integer: a short read gives 0 and leaves the cursor at the end. */
  function ReadInt(s: Bytes, n: nat): (r: (nat, Bytes)) {
    if n <= |s| then (FromLe(s[..n]), s[n..]) else (0, [])
  }

  function ReadStr(s: Bytes): (r: Option<(Bytes, Bytes)>) {
    var (len, t) := ReadInt(s, 8);
    if len > MAX_STRING || len > |t| then None else Some((t[..len], t[len..]))
  }

  /** Items already read, followed by what the reading of the rest gives. */
  function Prepend<T>(acc: seq<T>, r: Option<(seq<T>, Bytes)>): Option<(seq<T>, Bytes)> {
    match r case None => None case Some((items, s)) => Some((acc + items, s))
  }

  function PrependOk<T>(acc: seq<T>, r: Result<(seq<T>, Bytes)>): Result<(seq<T>, Bytes)> {
    match r case Err(e) => Err(e) case Ok((items, s)) => Ok((acc + items, s))
  }

  function ReadStrs(s: Bytes, n: nat): (r: Option<(seq<Bytes>, Bytes)>)
    decreases n
  {
    if n == 0 then Some(([], s)) else
    match ReadStr(s)
    case None => None
    case Some((first, t)) => Prepend([first], ReadStrs(t, n - 1))
  }

  /** Two's complement. */
  function Signed(v: nat, range: nat): int { if 2 * v < range then v else v - range }

  /** The bytes of an array of n elements; None for tags that are no element type. */
  function ArraySize(tag: nat, n: nat): Option<nat> {
    if tag in {0, 1, 7} then Some(n) else if tag in {2, 3} then Some(2 * n) else if tag in {4, 5, 6} then Some(4 * n)
    else if tag in {10, 11, 12} then Some(8 * n) else None
  }

  /** The array case of parse_metadata_value. */
  function ReadArray(s: Bytes): (r: Option<(Value, Bytes)>) {
    var (tag, t) := ReadInt(s, 4);
    var (n, u) := ReadInt(t, 8);
    if n > 0x100_0000 then None
    else if tag == 8 then
      match ReadStrs(u, n)
      case None => None
      case Some((items, w)) => Some((StrArray(items), w))
    else
      match ArraySize(tag, n)
      case None => None
      case Some(size) => if size > |u| then None else Some((Array(tag, n, u[..size]), u[size..]))
  }

  /** parse_metadata_value. */
  function ReadValue(s: Bytes, tag: nat): (r: Option<(Value, Bytes)>) {
    if tag in {0, 1, 7} && s == [] then None
    else if tag == 0 then var (v, t) := ReadInt(s, 1); Some((UInt(8, v), t))
    else if tag == 1 then var (v, t) := ReadInt(s, 1); Some((SInt(8, Signed(v, 0x100)), t))
    else if tag == 2 then var (v, t) := ReadInt(s, 2); Some((UInt(16, v), t))
    else if tag == 3 then var (v, t) := ReadInt(s, 2); Some((SInt(16, Signed(v, 0x1_0000)), t))
    else if tag == 4 then var (v, t) := ReadInt(s, 4); Some((UInt(32, v), t))
    else if tag == 5 then var (v, t) := ReadInt(s, 4); Some((SInt(32, Signed(v, 0x1_0000_0000)), t))
    else if tag == 6 then var (v, t) := ReadInt(s, 4); Some((Float32(v), t))
    else if tag == 7 then var (v, t) := ReadInt(s, 1); Some((Boolean(v != 0), t))
    else if tag == 8 then
      match ReadStr(s)
      case None => None
      case Some((b, t)) => Some((Str(b), t))
    else if tag == 9 then ReadArray(s)
    else if tag == 10 then var (v, t) := ReadInt(s, 8); Some((UInt(64, v), t))
    else if tag == 11 then var (v, t) := ReadInt(s, 8); Some((SInt(64, Signed(v, WORD64)), t))
    else if tag == 12 then var (_, t) := ReadInt(s, 8); Some((Float64, t))
    else None
  }

  function ReadKv(s: Bytes): (r: Option<(Kv, Bytes)>) {
    match ReadStr(s)
    case None => None
    case Some((key, t)) =>
      var (tag, u) := ReadInt(t, 4);
      match ReadValue(u, tag)
      case None => None
      case Some((v, w)) => Some((Kv(key, v), w))
  }

  function ReadKvs(s: Bytes, n: nat): (r: Option<(seq<Kv>, Bytes)>)
    decreases n
  {
    if n == 0 then Some(([], s)) else
    match ReadKv(s)
    case None => None
    case Some((kv, t)) => Prepend([kv], ReadKvs(t, n - 1))
  }

  /** strlen from index `i` on. */
  function StrLen(s: Bytes, i: nat): (n: nat)
    requires i <= |s|
    ensures i <= n <= |s| && (forall j | i <= j < n :: s[j] != 0) && (n < |s| ==> s[n] == 0)
    decreases |s| - i
  {
    if i == |s| || s[i] == 0 then i else StrLen(s, i + 1)
  }

  /** What strlen and strcmp see of a string. */
  function CString(s: Bytes): Bytes { s[..StrLen(s, 0)] }

  lemma {:induction false} StrLenAll(s: Bytes, i: nat)
    requires i <= |s| && 0 !in s
    ensures StrLen(s, i) == |s|
    decreases |s| - i
  {
    if i < |s| { StrLenAll(s, i + 1); }
  }

  /** "general.alignment" */
  const ALIGNMENT_KEY: Bytes := [103, 101, 110, 101, 114, 97, 108, 46, 97, 108, 105, 103, 110, 109, 101, 110, 116]

  /** The alignment after one more entry. */
  function AlignmentAfter(current: nat, kv: Kv): (a: nat)
    requires current > 0
    ensures a > 0
  {
    if CString(kv.key) == ALIGNMENT_KEY && kv.value.UInt? && kv.value.bits == 32
    then if kv.value.v == 0 then 32 else kv.value.v
    else current
  }

  /** The last general.alignment of type UINT32 counts. */
  function Alignment(kvs: seq<Kv>): (a: nat)
    ensures a > 0
  {
    if kvs == [] then 32 else AlignmentAfter(Alignment(kvs[..|kvs| - 1]), kvs[|kvs| - 1])
  }

  /** A row of the tensor table as the reader keeps it. */
  datatype Info = Info(name: Bytes, dims: seq<nat>, elements: nat, tag: nat, offset: nat, size: nat)

  function ReadDims(s: Bytes, n: nat): (r: (seq<nat>, Bytes))
    decreases n
  {
    if n == 0 then ([], s) else
      var (d, t) := ReadInt(s, 8);
      var (rest, u) := ReadDims(t, n - 1);
      ([d] + rest, u)
  }

  /** The product of the dimensions, which wraps around at 64 bits. */
  function WrappedProduct(dims: seq<nat>): nat {
    if dims == [] then 1 else WrappedProduct(dims[..|dims| - 1]) * dims[|dims| - 1] % WORD64
  }

  /** pickle_type_size, in 64-bit arithmetic; 0 for types it does not know. */
  function TypeSize(tag: nat, n: nat): nat {
    match tag
    case 0 => n * 4 % WORD64
    case 1 => n * 2 % WORD64
    case 8 => n / 32 * 34 % WORD64
    case 9 => n / 32 * 36 % WORD64
    case 2 => n / 32 * 18 % WORD64
    case 3 => n / 32 * 20 % WORD64
    case 6 => n / 32 * 22 % WORD64
    case 7 => n / 32 * 24 % WORD64
    case 14 => n / 256 * 210 % WORD64
    case 13 => n / 256 * 176 % WORD64
    case 12 => n / 256 * 144 % WORD64
    case 11 => n / 256 * 110 % WORD64
    case 10 => n / 256 * 84 % WORD64
    case 15 => n / 256 * 292 % WORD64
    case _ => 0
  }

  const NAME_SIZE := 128

  function ReadInfo(s: Bytes): (r: Result<(Info, Bytes)>) {
    match ReadStr(s)
    case None => Err(BadFormat)
    case Some((b, t)) =>
      var name := CString(b);
      var (nDims, u) := ReadInt(t, 4);
      if nDims == 0 || nDims > 8 then Err(BadFormat) else
        var (dims, w) := ReadDims(u, nDims);
        var elements := WrappedProduct(dims);
        var (tag, x) := ReadInt(w, 4);
        var (offset, y) := ReadInt(x, 8);
        var size := TypeSize(tag, elements);
        if size == 0 then Err(BadType)
        else
          var stored := if |name| >= NAME_SIZE then name[..NAME_SIZE - 1] else name;
          Ok((Info(stored, dims, elements, tag, offset, size), y))
  }

  function ReadInfos(s: Bytes, n: nat): (r: Result<(seq<Info>, Bytes)>)
    decreases n
  {
    if n == 0 then Ok(([], s)) else
    match ReadInfo(s)
    case Err(e) => Err(e)
    case Ok((info, t)) => PrependOk([info], ReadInfos(t, n - 1))
  }

  /** mem_seek: positions outside the file are clamped. */
  function Seek(data: Bytes, to: int): (off: nat)
    ensures off <= |data| && (off == to || (to < 0 && off == 0) || (to > |data| && off == |data|))
  {
    if to < 0 then 0 else if to > |data| then |data| else to
  }

  /** mem_tell, when `rest` is left to read. */
  function Tell(data: Bytes, rest: Bytes): nat { if |rest| <= |data| then |data| - |rest| else 0 }

  datatype Meta = Meta(version: nat, kvs: seq<Kv>, infos: seq<Info>, dataStart: nat)

  /** The metadata and the tensor table, and the bytes after them. */
  function ReadTables(s: Bytes, kvCount: nat, tensorCount: nat): (r: Result<(seq<Kv>, seq<Info>, Bytes)>) {
    match ReadKvs(s, kvCount)
    case None => Err(BadFormat)
    case Some((kvs, t)) =>
      match ReadInfos(t, tensorCount)
      case Err(e) => Err(e)
      case Ok((infos, u)) => Ok((kvs, infos, u))
  }

  /** pickle_load_meta, with an allocator that does not fail. */
  function LoadMeta(data: Bytes): (r: Result<Meta>) {
    var (magic, t) := ReadInt(data, 4);
    if magic != MAGIC then Err(BadFormat) else
    var (version, u) := ReadInt(t, 4);
    if version != 3 && version != 2 then Err(BadVersion) else
    var (tensorCount, w) := ReadInt(u, 8);
    var (kvCount, x) := ReadInt(w, 8);
    if kvCount > 4096 || tensorCount > 65536 then Err(BadFormat) else
    match ReadTables(x, kvCount, tensorCount)
    case Err(e) => Err(e)
    case Ok((kvs, infos, y)) =>
      Ok(Meta(version, kvs, infos, Seek(data, AlignUp(Tell(data, y), Alignment(kvs)))))
  }

  /** The reads of one block: `Soft` ones give 0 at the end of the file, `Raw` ones fail. */
  datatype Field = Soft(width: nat) | Raw(width: nat)

  /** What pickle_dequant_stream reads for each block, in order. */
  function BlockFields(tag: nat): seq<Field> {
    match tag
    case 0 => [Soft(4)]
    case 1 => [Soft(2)]
    case 2 => [Soft(2), Raw(16)]
    case 3 => [Soft(4), Soft(4), Raw(16)]
    case 6 => [Soft(2), Raw(4), Raw(16)]
    case 7 => [Soft(4), Soft(4), Raw(4), Raw(16)]
    case 8 => [Soft(2), Raw(32)]
    case 9 => [Soft(4), Soft(4), Raw(32)]
    case 10 => [Soft(2), Soft(2), Raw(16), Raw(64)]
    case 11 => [Raw(32), Raw(64), Raw(12), Raw(2)]
    case 12 => [Soft(2), Soft(2), Raw(12), Raw(128)]
    case 13 => [Soft(2), Soft(2), Raw(12), Raw(32), Raw(128)]
    case 14 => [Raw(128), Raw(64), Raw(16), Soft(2)]
    case 15 => [Soft(4), Raw(256), Soft(4), Soft(4), Soft(4), Soft(4), Soft(4), Soft(4), Soft(4), Soft(4)]
    case _ => []
  }

  /** The fields of one block as little-endian integers. */
  function ReadFields(s: Bytes, fields: seq<Field>): (r: Option<(seq<nat>, Bytes)>)
    decreases |fields|
  {
    if fields == [] then Some(([], s))
    else if fields[0].Raw? && fields[0].width > |s| then None
    else
      var (v, t) := ReadInt(s, fields[0].width);
      Prepend([v], ReadFields(t, fields[1..]))
  }

  /** pickle_dequant_stream as far as the blocks it reads; a block of an F32 tensor is one word. */
  function ReadBlocks(s: Bytes, fields: seq<Field>, n: nat): (r: Option<(seq<seq<nat>>, Bytes)>)
    decreases n
  {
    if n == 0 then Some(([], s)) else
    match ReadFields(s, fields)
    case None => None
    case Some((block, t)) => Prepend([block], ReadBlocks(t, fields, n - 1))
  }

  predicate KnownType(tag: nat) { tag in {0, 1, 2, 3, 6, 7, 8, 9, 10, 11, 12, 13, 14, 15} }

  /** The number of blocks of a tensor of n elements. */
  function BlockCount(tag: nat, n: nat): nat {
    if tag in {0, 1} then n else if tag < 10 then n / 32 else n / 256
  }

  function LoadTensor(data: Bytes, dataStart: nat, t: Info): (r: Result<seq<seq<nat>>>) {
    if !KnownType(t.tag) then Err(BadType) else
    var off := Seek(data, dataStart + Signed(t.offset, WORD64));
    match ReadBlocks(data[off..], BlockFields(t.tag), BlockCount(t.tag, t.elements))
    case None => Err(IoError)
    case Some((blocks, _)) => Ok(blocks)
  }

  function LoadTensors(data: Bytes, dataStart: nat, infos: seq<Info>): (r: Result<seq<seq<seq<nat>>>>)
    decreases |infos|
  {
    if infos == [] then Ok([]) else
    match LoadTensor(data, dataStart, infos[0])
    case Err(e) => Err(e)
    case Ok(blocks) =>
      match LoadTensors(data, dataStart, infos[1..])
      case Err(e) => Err(e)
      case Ok(rest) => Ok([blocks] + rest)
  }

  datatype Loaded = Loaded(meta: Meta, blocks: seq<seq<seq<nat>>>)

  /** pickle_load. */
  function Load(data: Bytes): (r: Result<Loaded>) {
    match LoadMeta(data)
    case Err(e) => Err(e)
    case Ok(meta) =>
      match LoadTensors(data, meta.dataStart, meta.infos)
      case Err(e) => Err(e)
      case Ok(blocks) => Ok(Loaded(meta, blocks))
  }
}
