/**
 The layout of a GGUF file byte by byte, apart from the functions that write and read it: integers,
 header, metadata values of every type, and the blocks of every tensor type (kernel/ai/pickle.c,
 scripts/make_tiny_gguf.py).
 */
module GgufLayout {
  import opened Options
  import opened Powers
  import opened Gguf
  import opened GgufRoundTrip

  // --- Integers -----------------------------------------------------------------------

  /** The i-th byte of an integer counts 256^i. */
  lemma {:induction false} LeDigits(v: nat, n: nat, i: nat)
    requires i < n
    ensures Le(v, n)[i] == v / Pow256(i) % 256
    decreases n
  {
    if i > 0 {
      LeDigits(v / 256, n - 1, i - 1);
      DivTwice(v, Pow256(i - 1));
    }
  }

  lemma DivTwice(v: nat, p: nat)
    requires p > 0
    ensures v / 256 / p == v / (256 * p)
  {
    var q, r := v / 256 / p, v / 256 % p;
    assert v / 256 == p * q + r;
    assert v == (256 * p) * q + (256 * r + v % 256);
    QuotientIs(v, 256 * p, q, 256 * r + v % 256);
  }

  // --- The header ---------------------------------------------------------------------

  /** The n-byte integer at a place in the file; 0 if the file ends before its end. */
  function IntAt(data: Bytes, at: nat, n: nat): nat {
    if at + n <= |data| then FromLe(data[at..at + n]) else 0
  }

  /** Of every file: GGUF, a version of 2 or 3, at most 65536 tensors and 4096 entries, counted in this order,
      and then the tables. */
  lemma HeaderMeans(data: Bytes)
    ensures var (tensors, kvs) := (IntAt(data, 8, 8), IntAt(data, 16, 8));
            var tables := if |data| < 24 then [] else data[24..];
            LoadMeta(data) ==
            if |data| < 4 || data[..4] != [0x47, 0x47, 0x55, 0x46] then Err(BadFormat)
            else if IntAt(data, 4, 4) != 2 && IntAt(data, 4, 4) != 3 then Err(BadVersion)
            else if tensors > 65536 || kvs > 4096 then Err(BadFormat)
            else match ReadTables(tables, kvs, tensors)
              case Err(e) => Err(e)
              case Ok((entries, infos, rest)) =>
                var at := |data| - |rest|;
                Ok(Meta(IntAt(data, 4, 4), entries, infos,
                        Seek(data, AlignUp(if at < 0 then 0 else at, Alignment(entries)))))
  {
    MagicBytes(data);
    HeaderReads(data);
  }

  lemma MagicBytes(data: Bytes)
    ensures ReadInt(data, 4).0 == MAGIC <==> |data| >= 4 && data[..4] == [0x47, 0x47, 0x55, 0x46]
  {
    if |data| >= 4 { FourBytes(data[..4]); }
  }

  lemma FourBytes(b: Bytes)
    requires |b| == 4
    ensures FromLe(b) == 0x4655_4747 <==> b == [0x47, 0x47, 0x55, 0x46]
  {
    var w: int, x: int, y: int, z: int := b[0], b[1], b[2], b[3];
    assert b[1..][1..][1..][1..] == [];
    assert FromLe(b[1..][1..][1..]) == z && FromLe(b[1..][1..]) == y + 256 * z;
    assert FromLe(b) == w + 256 * (x + 256 * (y + 256 * z));
  }

  /** Where the four integers of the header are read. */
  lemma HeaderReads(data: Bytes)
    ensures var (_, t) := ReadInt(data, 4);
            var (version, u) := ReadInt(t, 4);
            var (tensors, w) := ReadInt(u, 8);
            var (kvs, x) := ReadInt(w, 8);
            && version == IntAt(data, 4, 4) && tensors == IntAt(data, 8, 8) && kvs == IntAt(data, 16, 8)
            && x == (if |data| < 24 then [] else data[24..])
  {
    ReadAt(data, 0, 4);
    ReadAt(data, 4, 4);
    ReadAt(data, 8, 8);
    ReadAt(data, 16, 8);
    assert From(data, 0) == data;
  }

  /** What is left of the file from a place on. */
  function From(data: Bytes, at: nat): Bytes { if at <= |data| then data[at..] else [] }

  lemma ReadAt(data: Bytes, at: nat, n: nat)
    requires n > 0
    ensures ReadInt(From(data, at), n) == (IntAt(data, at, n), From(data, at + n))
  {
    if at + n <= |data| {
      assert data[at..][..n] == data[at..at + n] && data[at..][n..] == data[at + n..];
    }
  }

  // --- Metadata values ----------------------------------------------------------------

  /** Values that some file holds. */
  predicate Readable(v: Value) {
    match v
    case UInt(bits, n) => bits in {8, 16, 32, 64} && n < Pow256(bits / 8)
    case SInt(bits, i) => bits in {8, 16, 32, 64} && 0 <= 2 * i + Pow256(bits / 8) < 2 * Pow256(bits / 8)
    case Float32(p) => p < 0x1_0000_0000
    case Float64 => true
    case Boolean(_) => true
    case Str(s) => |s| <= MAX_STRING
    case Array(elem, count, raw) =>
      elem in {0, 1, 2, 3, 4, 5, 6, 7, 10, 11, 12} && count <= 0x100_0000 && |raw| == count * ElementWidth(elem)
    case StrArray(items) => |items| <= 0x100_0000 && forall i | 0 <= i < |items| :: |items[i]| <= MAX_STRING
  }

  function ElementWidth(elem: nat): nat {
    if elem in {0, 1, 7} then 1 else if elem in {2, 3} then 2 else if elem in {4, 5, 6} then 4 else 8
  }

  /** The type number of a value. */
  function TypeNumber(v: Value): nat {
    match v
    case UInt(bits, _) => if bits == 8 then 0 else if bits == 16 then 2 else if bits == 32 then 4 else 10
    case SInt(bits, _) => if bits == 8 then 1 else if bits == 16 then 3 else if bits == 32 then 5 else 11
    case Float32(_) => 6
    case Boolean(_) => 7
    case Str(_) => 8
    case Array(_, _, _) => 9
    case StrArray(_) => 9
    case Float64 => 12
  }

  function StringsOnFile(items: seq<Bytes>): Bytes {
    if items == [] then [] else Le(|items[0]|, 8) + items[0] + StringsOnFile(items[1..])
  }

  /** The bytes of a value, in two's complement if it is signed; `any` are those of a double. */
  function ValueOnFile(v: Value, any: Bytes): Bytes
    requires Readable(v)
  {
    match v
    case UInt(bits, n) => Le(n, bits / 8)
    case SInt(bits, i) => Le(if i < 0 then i + Pow256(bits / 8) else i, bits / 8)
    case Float32(p) => Le(p, 4)
    case Boolean(b) => [if b then 1 else 0]
    case Str(s) => Le(|s|, 8) + s
    case Array(elem, count, raw) => Le(elem, 4) + Le(count, 8) + raw
    case StrArray(items) => Le(8, 4) + Le(|items|, 8) + StringsOnFile(items)
    case Float64 => any
  }

  /** A value of any type is read back from its bytes, leaving those after it. */
  lemma ValueRead(v: Value, any: Bytes, rest: Bytes)
    requires Readable(v) && |any| == 8
    ensures ReadValue(ValueOnFile(v, any) + rest, TypeNumber(v)) == Some((v, rest))
  {
    match v {
      case UInt(bits, n) => NumberRead(bits, n, rest);
      case SInt(bits, i) =>
        Halves(bits);
        NumberRead(bits, if i < 0 then i + Pow256(bits / 8) else i, rest);
      case Float32(p) => NumberRead(32, p, rest);
      case Boolean(b) => BoolRead(b, rest);
      case Str(s) => StrRead(s, rest);
      case Array(elem, count, raw) => ArrayRead(elem, count, raw, rest);
      case StrArray(items) => StrArrayRead(items, rest);
      case Float64 => FrontAndRest(any, rest);
    }
  }

  lemma Halves(bits: nat)
    requires bits in {8, 16, 32, 64}
    ensures Pow256(bits / 8) == if bits == 8 then 0x100 else if bits == 16 then 0x1_0000
                                else if bits == 32 then 0x1_0000_0000 else WORD64
  {
    Widths();
    assert Pow256(2) == 0x1_0000;
  }

  lemma NumberRead(bits: nat, n: nat, rest: Bytes)
    requires bits in {8, 16, 32, 64} && n < Pow256(bits / 8)
    ensures ReadInt(Le(n, bits / 8) + rest, bits / 8) == (n, rest)
    ensures Pow256(4) == 0x1_0000_0000 && Le(n, bits / 8) + rest != []
  {
    Halves(32);
    IntRead(n, bits / 8, rest);
  }

  lemma ArrayHead(elem: nat, count: nat, tail: Bytes)
    requires elem < 0x1_0000_0000 && count < WORD64
    ensures ReadInt(Le(elem, 4) + Le(count, 8) + tail, 4) == (elem, Le(count, 8) + tail)
    ensures ReadInt(Le(count, 8) + tail, 8) == (count, tail)
  {
    Assoc(Le(elem, 4), Le(count, 8), tail);
    U32Read(elem, Le(count, 8) + tail);
    U64Read(count, tail);
  }

  lemma ArrayRead(elem: nat, count: nat, raw: Bytes, rest: Bytes)
    requires Readable(Array(elem, count, raw))
    ensures ReadValue(Le(elem, 4) + Le(count, 8) + raw + rest, 9) == Some((Array(elem, count, raw), rest))
  {
    Assoc(Le(elem, 4) + Le(count, 8), raw, rest);
    ArrayHead(elem, count, raw + rest);
    FrontAndRest(raw, rest);
    SizeIs(elem, count);
  }

  lemma SizeIs(elem: nat, count: nat)
    requires elem in {0, 1, 2, 3, 4, 5, 6, 7, 10, 11, 12}
    ensures ArraySize(elem, count) == Some(count * ElementWidth(elem))
  {
  }

  lemma StrArrayRead(items: seq<Bytes>, rest: Bytes)
    requires Readable(StrArray(items))
    ensures ReadValue(Le(8, 4) + Le(|items|, 8) + StringsOnFile(items) + rest, 9) == Some((StrArray(items), rest))
  {
    var strings := StringsOnFile(items);
    Assoc(Le(8, 4) + Le(|items|, 8), strings, rest);
    ArrayHead(8, |items|, strings + rest);
    StringsRead(items, rest);
    StrArrayFrom(Le(8, 4) + Le(|items|, 8) + strings + rest, items, strings + rest, rest);
  }

  lemma StrArrayFrom(s: Bytes, items: seq<Bytes>, strings: Bytes, rest: Bytes)
    requires |items| <= 0x100_0000
    requires ReadInt(s, 4).0 == 8 && ReadInt(ReadInt(s, 4).1, 8) == (|items|, strings)
    requires ReadStrs(strings, |items|) == Some((items, rest))
    ensures ReadValue(s, 9) == Some((StrArray(items), rest))
  {
  }

  lemma {:induction false} StringsRead(items: seq<Bytes>, rest: Bytes)
    requires forall i | 0 <= i < |items| :: |items[i]| <= MAX_STRING
    ensures ReadStrs(StringsOnFile(items) + rest, |items|) == Some((items, rest))
    decreases |items|
  {
    if items == [] {
      assert StringsOnFile(items) + rest == rest;
    } else {
      var later := StringsOnFile(items[1..]);
      Assoc(StrBytes(items[0]), later, rest);
      StrRead(items[0], later + rest);
      StringsRead(items[1..], rest);
      assert items == [items[0]] + items[1..];
    }
  }

  // --- Metadata entries ---------------------------------------------------------------

  /** An entry: the length of the key, the key, the type number, the value. */
  lemma EntryRead(key: Bytes, v: Value, any: Bytes, rest: Bytes)
    requires |key| <= 0x10_0000 && Readable(v) && |any| == 8
    ensures ReadKv(Le(|key|, 8) + key + (Le(TypeNumber(v), 4) + (ValueOnFile(v, any) + rest))) ==
            Some((Kv(key, v), rest))
  {
    StrRead(key, Le(TypeNumber(v), 4) + (ValueOnFile(v, any) + rest));
    U32Read(TypeNumber(v), ValueOnFile(v, any) + rest);
    ValueRead(v, any, rest);
  }

  /** Strings over 1 MB, arrays of more than 2^24 elements or of elements without a width, and type numbers over 12
      are errors. */
  lemma ValueFails(s: Bytes, n: nat, elem: nat, rest: Bytes, tag: nat)
    requires n < WORD64 && elem < 0x1_0000_0000
    ensures n > 0x10_0000 ==> ReadStr(Le(n, 8) + rest) == None
    ensures n > |rest| ==> ReadStr(Le(n, 8) + rest) == None
    ensures n > 0x100_0000 ==> ReadValue(Le(elem, 4) + Le(n, 8) + rest, 9) == None
    ensures elem == 9 || elem > 12 ==> ReadValue(Le(elem, 4) + Le(n, 8) + rest, 9) == None
    ensures tag > 12 ==> ReadValue(s, tag) == None
  {
    U64Read(n, rest);
    ArrayHead(elem, n, rest);
  }

  /** "general.alignment", up to its end or a zero byte, with a 32-bit number. */
  predicate SetsAlignment(kv: Kv) {
    && kv.value.UInt? && kv.value.bits == 32
    && |kv.key| >= 17 && (|kv.key| > 17 ==> kv.key[17] == 0)
    && kv.key[..17] == [0x67, 0x65, 0x6E, 0x65, 0x72, 0x61, 0x6C, 0x2E,
                        0x61, 0x6C, 0x69, 0x67, 0x6E, 0x6D, 0x65, 0x6E, 0x74]
  }

  lemma SetsIff(kv: Kv)
    ensures SetsAlignment(kv) <==> CString(kv.key) == ALIGNMENT_KEY && kv.value.UInt? && kv.value.bits == 32
  {
    var n := StrLen(kv.key, 0);
    if SetsAlignment(kv) {
      assert forall i | 0 <= i < 17 :: kv.key[i] == kv.key[..17][i] && kv.key[i] != 0;
      assert n == 17;
    }
  }

  /** The last such entry says how the data is aligned, 0 standing for 32; without one it is 32. */
  lemma {:induction false} AlignmentMeans(kvs: seq<Kv>)
    ensures (forall i | 0 <= i < |kvs| :: !SetsAlignment(kvs[i])) ==> Alignment(kvs) == 32
    ensures forall i | 0 <= i < |kvs| && SetsAlignment(kvs[i]) &&
                       (forall j | i < j < |kvs| :: !SetsAlignment(kvs[j])) ::
              Alignment(kvs) == if kvs[i].value.v == 0 then 32 else kvs[i].value.v
    decreases |kvs|
  {
    if kvs != [] {
      var n := |kvs| - 1;
      SetsIff(kvs[n]);
      AlignmentMeans(kvs[..n]);
      if !SetsAlignment(kvs[n]) {
        assert forall i | 0 <= i < n :: kvs[..n][i] == kvs[i];
      }
    }
  }

  /** An aligned place is the first multiple of the alignment from there on. */
  lemma AlignedMeans(n: nat, a: nat)
    requires a > 0
    ensures n <= AlignUp(n, a) < n + a && AlignUp(n, a) % a == 0
  {
    if n % a != 0 {
      assert n == a * (n / a) + n % a;
      assert AlignUp(n, a) == a * (n / a + 1);
      MultipleMod(a, n / a + 1);
    }
  }

  lemma MultipleMod(a: nat, k: nat)
    requires a > 0
    ensures a * k % a == 0
  {
    assert a * k == a * (a * k / a) + a * k % a;
    Factor(a, k, a * k / a);
    QuotientIs(a * k, a, k, 0);
  }

  // --- The tensor table ---------------------------------------------------------------

  function Product(dims: seq<nat>): nat {
    if dims == [] then 1 else Product(dims[..|dims| - 1]) * dims[|dims| - 1]
  }

  lemma {:induction false} ProductWraps(dims: seq<nat>)
    ensures WrappedProduct(dims) == Product(dims) % WORD64
    decreases |dims|
  {
    if dims != [] {
      ProductWraps(dims[..|dims| - 1]);
      WrapTwice(Product(dims[..|dims| - 1]), dims[|dims| - 1]);
    }
  }

  lemma WrapTwice(x: nat, y: nat)
    ensures x % WORD64 * y % WORD64 == x * y % WORD64
  {
    var q := x / WORD64;
    assert x * y == WORD64 * (q * y) + x % WORD64 * y;
    ModSame(x % WORD64 * y, q * y);
  }

  lemma ModSame(a: nat, k: nat)
    ensures (WORD64 * k + a) % WORD64 == a % WORD64
  {
  }

  /** Elements and bytes of a block, by type number. */
  function BlockShape(tag: nat): (nat, nat) {
    match tag
    case 0 => (1, 4) case 1 => (1, 2)
    case 2 => (32, 18) case 3 => (32, 20) case 6 => (32, 22) case 7 => (32, 24) case 8 => (32, 34) case 9 => (32, 36)
    case 10 => (256, 84) case 11 => (256, 110) case 12 => (256, 144) case 13 => (256, 176) case 14 => (256, 210)
    case 15 => (256, 292)
    case _ => (1, 0)
  }

  /** A row: name, number of dimensions, dimensions, type number, offset.  The name is kept up to a zero byte and
      127 bytes, the number of elements and the size wrap around at 64 bits. */
  lemma RowRead(name: Bytes, dims: seq<nat>, tag: nat, offset: nat, rest: Bytes)
    requires |name| <= 0x10_0000 && 1 <= |dims| <= 8 && (forall i | 0 <= i < |dims| :: dims[i] < WORD64)
    requires tag < 0x1_0000_0000 && offset < WORD64
    ensures var s := Le(|name|, 8) + name + Le(|dims|, 4) + DimsBytes(dims) + Le(tag, 4) + Le(offset, 8) + rest;
            var kept := if |CString(name)| < 128 then CString(name) else CString(name)[..127];
            var elements := Product(dims) % WORD64;
            var size := elements / BlockShape(tag).0 * BlockShape(tag).1 % WORD64;
            ReadInfo(s) == if size == 0 then Err(BadType) else Ok((Info(kept, dims, elements, tag, offset, size), rest))
  {
    Assoc5(StrBytes(name), Le(|dims|, 4), DimsBytes(dims), Le(tag, 4), Le(offset, 8), rest);
    var s4 := Le(offset, 8) + rest;
    var s3 := Le(tag, 4) + s4;
    var s2 := DimsBytes(dims) + s3;
    var s1 := Le(|dims|, 4) + s2;
    StrRead(name, s1);
    U32Read(|dims|, s2);
    DimsRead(dims, s3);
    U32Read(tag, s4);
    U64Read(offset, rest);
    RowSteps(StrBytes(name) + s1, name, dims, tag, offset, s1, s2, s3, s4, rest);
  }

  lemma RowSteps(s: Bytes, name: Bytes, dims: seq<nat>, tag: nat, offset: nat, s1: Bytes, s2: Bytes, s3: Bytes,
                 s4: Bytes, rest: Bytes)
    requires 1 <= |dims| <= 8 && ReadStr(s) == Some((name, s1)) && ReadInt(s1, 4) == (|dims|, s2)
    requires ReadDims(s2, |dims|) == (dims, s3) && ReadInt(s3, 4) == (tag, s4) && ReadInt(s4, 8) == (offset, rest)
    ensures var kept := if |CString(name)| < 128 then CString(name) else CString(name)[..127];
            var elements := Product(dims) % WORD64;
            var size := elements / BlockShape(tag).0 * BlockShape(tag).1 % WORD64;
            ReadInfo(s) == if size == 0 then Err(BadType) else Ok((Info(kept, dims, elements, tag, offset, size), rest))
  {
    ProductWraps(dims);
    SizeOfType(tag, Product(dims) % WORD64);
  }

  lemma SizeOfType(tag: nat, n: nat)
    ensures TypeSize(tag, n) == n / BlockShape(tag).0 * BlockShape(tag).1 % WORD64
  {
  }

  /** Rows without dimensions, or with more than 8, are errors. */
  lemma RowFails(name: Bytes, n: nat, rest: Bytes)
    requires |name| <= 0x10_0000 && n < 0x1_0000_0000 && (n == 0 || n > 8)
    ensures ReadInfo(Le(|name|, 8) + name + (Le(n, 4) + rest)) == Err(BadFormat)
  {
    StrRead(name, Le(n, 4) + rest);
    U32Read(n, rest);
  }

  // --- Blocks -------------------------------------------------------------------------

  /** One block of each tensor type, as the bytes of its fields. */
  datatype Block =
    | F32(word: Bytes) | F16(half: Bytes)
    | Q4_0(d: Bytes, qs: Bytes) | Q4_1(d: Bytes, m: Bytes, qs: Bytes)
    | Q5_0(d: Bytes, qh: Bytes, ql: Bytes) | Q5_1(d: Bytes, m: Bytes, qh: Bytes, ql: Bytes)
    | Q8_0(d: Bytes, qs: Bytes) | Q8_1(d: Bytes, m: Bytes, qs: Bytes)
    | Q2_K(d: Bytes, dmin: Bytes, scales: Bytes, qs: Bytes)
    | Q3_K(hmask: Bytes, qs: Bytes, scales: Bytes, pad: Bytes)
    | Q4_K(d: Bytes, dmin: Bytes, scales: Bytes, qs: Bytes)
    | Q5_K(d: Bytes, dmin: Bytes, scales: Bytes, qh: Bytes, qs: Bytes)
    | Q6_K(ql: Bytes, qh: Bytes, scales: Bytes, d: Bytes)
    | Q8_K(d: Bytes, qs: Bytes, subs: seq<Bytes>, subScales: seq<Bytes>)

  /** The type number of a block. */
  function BlockType(b: Block): nat {
    match b
    case F32(_) => 0 case F16(_) => 1
    case Q4_0(_, _) => 2 case Q4_1(_, _, _) => 3 case Q5_0(_, _, _) => 6 case Q5_1(_, _, _, _) => 7
    case Q8_0(_, _) => 8 case Q8_1(_, _, _) => 9
    case Q2_K(_, _, _, _) => 10 case Q3_K(_, _, _, _) => 11 case Q4_K(_, _, _, _) => 12
    case Q5_K(_, _, _, _, _) => 13 case Q6_K(_, _, _, _) => 14 case Q8_K(_, _, _, _) => 15
  }

  /** The fields have the lengths that pickle_dequant_stream reads. */
  predicate Sized(b: Block) {
    match b
    case F32(w) => |w| == 4
    case F16(h) => |h| == 2
    case Q4_0(d, qs) => |d| == 2 && |qs| == 16
    case Q4_1(d, m, qs) => |d| == 4 && |m| == 4 && |qs| == 16
    case Q5_0(d, qh, ql) => |d| == 2 && |qh| == 4 && |ql| == 16
    case Q5_1(d, m, qh, ql) => |d| == 4 && |m| == 4 && |qh| == 4 && |ql| == 16
    case Q8_0(d, qs) => |d| == 2 && |qs| == 32
    case Q8_1(d, m, qs) => |d| == 4 && |m| == 4 && |qs| == 32
    case Q2_K(d, dmin, scales, qs) => |d| == 2 && |dmin| == 2 && |scales| == 16 && |qs| == 64
    case Q3_K(hmask, qs, scales, pad) => |hmask| == 32 && |qs| == 64 && |scales| == 12 && |pad| == 2
    case Q4_K(d, dmin, scales, qs) => |d| == 2 && |dmin| == 2 && |scales| == 12 && |qs| == 128
    case Q5_K(d, dmin, scales, qh, qs) => |d| == 2 && |dmin| == 2 && |scales| == 12 && |qh| == 32 && |qs| == 128
    case Q6_K(ql, qh, scales, d) => |ql| == 128 && |qh| == 64 && |scales| == 16 && |d| == 2
    case Q8_K(d, qs, subs, subScales) =>
      |d| == 4 && |qs| == 256 && |subs| == 4 && |subScales| == 4 &&
      forall i | 0 <= i < 4 :: |subs[i]| == 4 && |subScales[i]| == 4
  }

  /** The fields in the order of the file. */
  function InOrder(b: Block): seq<Bytes> {
    match b
    case F32(w) => [w]
    case F16(h) => [h]
    case Q4_0(d, qs) => [d, qs]
    case Q4_1(d, m, qs) => [d, m, qs]
    case Q5_0(d, qh, ql) => [d, qh, ql]
    case Q5_1(d, m, qh, ql) => [d, m, qh, ql]
    case Q8_0(d, qs) => [d, qs]
    case Q8_1(d, m, qs) => [d, m, qs]
    case Q2_K(d, dmin, scales, qs) => [d, dmin, scales, qs]
    case Q3_K(hmask, qs, scales, pad) => [hmask, qs, scales, pad]
    case Q4_K(d, dmin, scales, qs) => [d, dmin, scales, qs]
    case Q5_K(d, dmin, scales, qh, qs) => [d, dmin, scales, qh, qs]
    case Q6_K(ql, qh, scales, d) => [ql, qh, scales, d]
    case Q8_K(d, qs, subs, subScales) => [d, qs] + subs + subScales
  }

  function Joined(parts: seq<Bytes>): Bytes { if parts == [] then [] else parts[0] + Joined(parts[1..]) }

  /** Each field as a little-endian integer. */
  function Numbers(parts: seq<Bytes>): (r: seq<nat>)
    ensures |r| == |parts|
  {
    if parts == [] then [] else [FromLe(parts[0])] + Numbers(parts[1..])
  }

  lemma {:induction false} FieldsRead(parts: seq<Bytes>, fields: seq<Field>, rest: Bytes)
    requires |parts| == |fields| && forall i | 0 <= i < |parts| :: |parts[i]| == fields[i].width
    ensures ReadFields(Joined(parts) + rest, fields) == Some((Numbers(parts), rest))
    decreases |parts|
  {
    if parts == [] {
      assert Joined(parts) + rest == rest;
    } else {
      Assoc(parts[0], Joined(parts[1..]), rest);
      FrontAndRest(parts[0], Joined(parts[1..]) + rest);
      FieldsRead(parts[1..], fields[1..], rest);
    }
  }

  lemma FieldWidths(b: Block)
    requires Sized(b)
    ensures var (parts, fields) := (InOrder(b), BlockFields(BlockType(b)));
            |parts| == |fields| && forall i | 0 <= i < |parts| :: |parts[i]| == fields[i].width
  {
  }

  function BlocksOnFile(blocks: seq<Block>): Bytes {
    if blocks == [] then [] else Joined(InOrder(blocks[0])) + BlocksOnFile(blocks[1..])
  }

  function BlockNumbers(blocks: seq<Block>): seq<seq<nat>> {
    if blocks == [] then [] else [Numbers(InOrder(blocks[0]))] + BlockNumbers(blocks[1..])
  }

  lemma {:induction false} BlocksRead(blocks: seq<Block>, tag: nat, rest: Bytes)
    requires forall i | 0 <= i < |blocks| :: Sized(blocks[i]) && BlockType(blocks[i]) == tag
    ensures ReadBlocks(BlocksOnFile(blocks) + rest, BlockFields(tag), |blocks|) == Some((BlockNumbers(blocks), rest))
    decreases |blocks|
  {
    if blocks == [] {
      assert BlocksOnFile(blocks) + rest == rest;
    } else {
      var first, later := Joined(InOrder(blocks[0])), BlocksOnFile(blocks[1..]);
      Assoc(first, later, rest);
      FieldWidths(blocks[0]);
      FieldsRead(InOrder(blocks[0]), BlockFields(tag), later + rest);
      BlocksRead(blocks[1..], tag, rest);
    }
  }

  /** A tensor of any known type, at its place in the file, loads as the fields of its blocks: of 1 element for
      F32 and F16, of 32 for the types below 10, of 256 for the others. */
  lemma TensorRead(data: Bytes, start: nat, t: Info, blocks: seq<Block>, rest: Bytes)
    requires t.tag in {0, 1, 2, 3, 6, 7, 8, 9, 10, 11, 12, 13, 14, 15}
    requires |blocks| == t.elements / (if t.tag < 2 then 1 else if t.tag < 10 then 32 else 256)
    requires forall i | 0 <= i < |blocks| :: Sized(blocks[i]) && BlockType(blocks[i]) == t.tag
    requires t.offset < WORD64 / 2 && start + t.offset <= |data|
    requires data[start + t.offset..] == BlocksOnFile(blocks) + rest
    ensures LoadTensor(data, start, t) == Ok(BlockNumbers(blocks))
  {
    BlocksRead(blocks, t.tag, rest);
    LoadTensorFrom(data, start, t, |blocks|);
  }

  lemma LoadTensorFrom(data: Bytes, start: nat, t: Info, n: nat)
    requires t.tag in {0, 1, 2, 3, 6, 7, 8, 9, 10, 11, 12, 13, 14, 15}
    requires n == t.elements / (if t.tag < 2 then 1 else if t.tag < 10 then 32 else 256)
    requires t.offset < WORD64 / 2 && start + t.offset <= |data|
    ensures LoadTensor(data, start, t) ==
            match ReadBlocks(data[start + t.offset..], BlockFields(t.tag), n)
            case None => Err(IoError)
            case Some((blocks, _)) => Ok(blocks)
  {
    assert BlockCount(t.tag, t.elements) == n;
    assert Seek(data, start + Signed(t.offset, WORD64)) == start + t.offset;
  }

  /** A tensor of an unknown type is an error. */
  lemma TensorUnknown(data: Bytes, start: nat, t: Info)
    requires t.tag !in {0, 1, 2, 3, 6, 7, 8, 9, 10, 11, 12, 13, 14, 15}
    ensures LoadTensor(data, start, t) == Err(BadType)
  {
  }

  /** Where the file ends inside a block: quants are an error, a number is 0 and what follows is missing. */
  lemma FieldCut(s: Bytes, n: nat, fields: seq<Field>)
    requires |s| < n
    ensures ReadFields(s, [Raw(n)] + fields) == None
    ensures ReadFields(s, [Soft(n)] + fields) == Prepend([0], ReadFields([], fields))
  {
    assert ([Raw(n)] + fields)[1..] == fields && ([Soft(n)] + fields)[1..] == fields;
  }
}
