/**
 kernel/ai/pickle.c as it runs: a cursor over a file in memory (mem_read, mem_seek, mem_tell) that the
 readers advance, and the loops that fill the tables.  Every method is proved to compute the specified
 result and cursor, on every file.
 */
module GgufReader {
  import opened Options
  import opened Gguf

  lemma PrependNone<T>(r: Option<(seq<T>, Bytes)>)
    ensures Prepend([], r) == r
  {
    if r.Some? { assert [] + r.value.0 == r.value.0; }
  }

  lemma PrependDone<T>(acc: seq<T>, s: Bytes)
    ensures Prepend(acc, Some(([], s))) == Some((acc, s))
  {
    assert acc + [] == acc;
  }

  lemma PrependMore<T>(acc: seq<T>, x: T, r: Option<(seq<T>, Bytes)>)
    ensures Prepend(acc, Prepend([x], r)) == Prepend(acc + [x], r)
  {
    if r.Some? { assert acc + ([x] + r.value.0) == acc + [x] + r.value.0; }
  }

  // One round of each loop: the item read moves to the accumulator.

  lemma StrsStep(acc: seq<Bytes>, s: Bytes, n: nat, x: Bytes, t: Bytes)
    requires n > 0 && ReadStr(s) == Some((x, t))
    ensures Prepend(acc, ReadStrs(s, n)) == Prepend(acc + [x], ReadStrs(t, n - 1))
  {
    assert ReadStrs(s, n) == Prepend([x], ReadStrs(t, n - 1));
    PrependMore(acc, x, ReadStrs(t, n - 1));
  }

  lemma KvsStep(acc: seq<Kv>, s: Bytes, n: nat, x: Kv, t: Bytes)
    requires n > 0 && ReadKv(s) == Some((x, t))
    ensures Prepend(acc, ReadKvs(s, n)) == Prepend(acc + [x], ReadKvs(t, n - 1))
  {
    assert ReadKvs(s, n) == Prepend([x], ReadKvs(t, n - 1));
    PrependMore(acc, x, ReadKvs(t, n - 1));
  }

  lemma AlignmentStep(kvs: seq<Kv>, kv: Kv)
    ensures Alignment(kvs + [kv]) == AlignmentAfter(Alignment(kvs), kv)
  {
    assert (kvs + [kv])[..|kvs|] == kvs;
  }

  lemma FieldsStep(acc: seq<nat>, s: Bytes, fields: seq<Field>, i: nat, x: nat, t: Bytes)
    requires i < |fields| && !(fields[i].Raw? && fields[i].width > |s|) && ReadInt(s, fields[i].width) == (x, t)
    ensures Prepend(acc, ReadFields(s, fields[i..])) == Prepend(acc + [x], ReadFields(t, fields[i + 1..]))
  {
    assert fields[i..][0] == fields[i] && fields[i..][1..] == fields[i + 1..];
    assert ReadFields(s, fields[i..]) == Prepend([x], ReadFields(t, fields[i + 1..]));
    PrependMore(acc, x, ReadFields(t, fields[i + 1..]));
  }

  lemma BlocksStep(acc: seq<seq<nat>>, s: Bytes, fields: seq<Field>, n: nat, x: seq<nat>, t: Bytes)
    requires n > 0 && ReadFields(s, fields) == Some((x, t))
    ensures Prepend(acc, ReadBlocks(s, fields, n)) == Prepend(acc + [x], ReadBlocks(t, fields, n - 1))
  {
    assert ReadBlocks(s, fields, n) == Prepend([x], ReadBlocks(t, fields, n - 1));
    PrependMore(acc, x, ReadBlocks(t, fields, n - 1));
  }

  lemma PrependOkEnds(acc: seq<Info>, s: Bytes, r: Result<(seq<Info>, Bytes)>)
    ensures PrependOk([], r) == r && PrependOk(acc, Ok(([], s))) == Ok((acc, s))
  {
    assert acc + [] == acc;
    if r.Ok? { assert [] + r.value.0 == r.value.0; }
  }

  lemma InfosStep(acc: seq<Info>, s: Bytes, n: nat, x: Info, t: Bytes)
    requires n > 0 && ReadInfo(s) == Ok((x, t))
    ensures PrependOk(acc, ReadInfos(s, n)) == PrependOk(acc + [x], ReadInfos(t, n - 1))
  {
    var r := ReadInfos(t, n - 1);
    assert ReadInfos(s, n) == PrependOk([x], r);
    if r.Ok? { assert acc + ([x] + r.value.0) == acc + [x] + r.value.0; }
  }

  function PrependDims(acc: seq<nat>, r: (seq<nat>, Bytes)): (seq<nat>, Bytes) { (acc + r.0, r.1) }

  lemma DimsStep(acc: seq<nat>, s: Bytes, n: nat, x: nat, t: Bytes)
    requires n > 0 && ReadInt(s, 8) == (x, t)
    ensures PrependDims(acc, ReadDims(s, n)) == PrependDims(acc + [x], ReadDims(t, n - 1))
  {
    var r := ReadDims(t, n - 1);
    assert ReadDims(s, n) == ([x] + r.0, r.1);
    assert acc + ([x] + r.0) == acc + [x] + r.0;
  }

  lemma DimsEnds(acc: seq<nat>, s: Bytes, r: (seq<nat>, Bytes))
    ensures PrependDims([], r) == r && PrependDims(acc, ([], s)) == (acc, s)
  {
    assert acc + [] == acc && [] + r.0 == r.0;
  }

  function Gathered(acc: seq<seq<seq<nat>>>, r: Result<seq<seq<seq<nat>>>>): Result<seq<seq<seq<nat>>>> {
    match r case Err(e) => Err(e) case Ok(items) => Ok(acc + items)
  }

  lemma GatheredEnds(acc: seq<seq<seq<nat>>>, r: Result<seq<seq<seq<nat>>>>)
    ensures Gathered([], r) == r && Gathered(acc, Ok([])) == Ok(acc)
  {
    assert acc + [] == acc;
    if r.Ok? { assert [] + r.value == r.value; }
  }

  lemma TensorsStep(acc: seq<seq<seq<nat>>>, data: Bytes, start: nat, infos: seq<Info>, i: nat)
    requires i < |infos|
    ensures var here := LoadTensor(data, start, infos[i]);
            Gathered(acc, LoadTensors(data, start, infos[i..])) ==
            match here case Err(e) => Err(e) case Ok(x) => Gathered(acc + [x], LoadTensors(data, start, infos[i + 1..]))
  {
    assert infos[i..][0] == infos[i] && infos[i..][1..] == infos[i + 1..];
    var r := LoadTensors(data, start, infos[i + 1..]);
    var here := LoadTensor(data, start, infos[i]);
    if here.Ok? && r.Ok? { assert acc + ([here.value] + r.value) == acc + [here.value] + r.value; }
  }

  lemma {:induction false} FromLeAppend(b: Bytes, x: Byte)
    ensures var v: int := x; FromLe(b + [x]) == FromLe(b) + v * Pow256(|b|)
    decreases |b|
  {
    var v: int := x;
    if b == [] {
      assert (b + [x])[1..] == [];
    } else {
      assert (b + [x])[1..] == b[1..] + [x];
      FromLeAppend(b[1..], x);
      assert Pow256(|b|) == 256 * Pow256(|b| - 1);
      Scale(v, Pow256(|b| - 1));
    }
  }

  lemma Scale(v: nat, p: nat)
    ensures 256 * (v * p) == v * (256 * p)
  {
  }

  /** What a table loop still has to read. */
  predicate KvsPending(later: Option<(seq<Kv>, Bytes)>, s: Bytes, n: nat) { later == ReadKvs(s, n) }

  predicate InfosPending(later: Result<(seq<Info>, Bytes)>, s: Bytes, n: nat) { later == ReadInfos(s, n) }

  /** The loop of read_u64 (and read_u16 and read_u32 written out): bytes are added up from the lowest. */
  method Decode(b: Bytes) returns (v: nat)
    ensures v == FromLe(b)
  {
    v := 0;
    var i, unit := 0, 1;
    while i < |b|
      invariant 0 <= i <= |b| && v == FromLe(b[..i]) && unit == Pow256(i)
    {
      FromLeAppend(b[..i], b[i]);
      assert b[..i + 1] == b[..i] + [b[i]];
      var digit: int := b[i];
      v := v + digit * unit;
      unit := 256 * unit;
      i := i + 1;
    }
    assert b[..i] == b;
  }

  class Stream {
    const p: Bytes
    var off: nat

    ghost predicate Valid()
      reads this
    {
      off <= |p|
    }

    /** What is left to read. */
    ghost function Rest(): Bytes
      requires Valid()
      reads this
    {
      p[off..]
    }

    constructor (p: Bytes)
      ensures this.p == p && Valid() && Rest() == p
    {
      this.p := p;
      off := 0;
    }

    /** mem_read through io_read: fails when fewer than `len` bytes are left. */
    method IoRead(len: nat) returns (ok: bool, b: Bytes)
      requires Valid()
      modifies this
      ensures Valid() && ok == (len <= |old(Rest())|)
      ensures ok ==> b == old(Rest())[..len] && Rest() == old(Rest())[len..]
      ensures !ok ==> Rest() == []
    {
      var got := if off + len > |p| then |p| - off else len;
      b := p[off..off + got];
      off := off + got;
      ok := got == len;
    }

    /** read_u16, read_u32 and read_u64. */
    method ReadUnsigned(n: nat) returns (v: nat)
      requires Valid()
      modifies this
      ensures Valid() && (v, Rest()) == ReadInt(old(Rest()), n)
    {
      var ok, b := IoRead(n);
      if !ok { return 0; }
      v := Decode(b);
    }

    /** read_string. */
    method ReadString() returns (r: Option<Bytes>)
      requires Valid()
      modifies this
      ensures Valid()
      ensures match ReadStr(old(Rest())) case None => r == None case Some((s, t)) => r == Some(s) && Rest() == t
    {
      var len := ReadUnsigned(8);
      if len > MAX_STRING { return None; }
      var ok, b := IoRead(len);
      r := if ok then Some(b) else None;
    }

    /** The string case of the array case of parse_metadata_value. */
    method ReadStringArray(n: nat) returns (r: Option<seq<Bytes>>)
      requires Valid()
      modifies this
      ensures Valid()
      ensures match ReadStrs(old(Rest()), n) case None => r == None case Some((a, t)) => r == Some(a) && Rest() == t
    {
      var items: seq<Bytes> := [];
      PrependNone(ReadStrs(Rest(), n));
      var i := 0;
      while i < n
        invariant 0 <= i <= n && Valid()
        invariant ReadStrs(old(Rest()), n) == Prepend(items, ReadStrs(Rest(), n - i))
      {
        ghost var s := Rest();
        var item := ReadString();
        if item.None? { return None; }
        StrsStep(items, s, n - i, item.value, Rest());
        items := items + [item.value];
        i := i + 1;
      }
      PrependDone(items, Rest());
      r := Some(items);
    }

    method ReadArrayValue() returns (r: Option<Value>)
      requires Valid()
      modifies this
      ensures Valid()
      ensures match ReadArray(old(Rest())) case None => r == None case Some((v, t)) => r == Some(v) && Rest() == t
    {
      var tag := ReadUnsigned(4);
      var n := ReadUnsigned(8);
      if n > 0x100_0000 { return None; }
      if tag == 8 {
        var items := ReadStringArray(n);
        return if items.Some? then Some(StrArray(items.value)) else None;
      }
      var size := ArraySize(tag, n);
      if size.None? { return None; }
      var ok, raw := IoRead(size.value);
      r := if ok then Some(Array(tag, n, raw)) else None;
    }

    /** parse_metadata_value. */
    method ParseValue(tag: nat) returns (r: Option<Value>)
      requires Valid()
      modifies this
      ensures Valid()
      ensures match ReadValue(old(Rest()), tag) case None => r == None case Some((v, t)) => r == Some(v) && Rest() == t
    {
      if tag in {0, 1, 7} && off == |p| { return None; }
      if tag in {0, 1, 7} {
        var v := ReadUnsigned(1);
        return Some(if tag == 0 then UInt(8, v) else if tag == 1 then SInt(8, Signed(v, 0x100)) else Boolean(v != 0));
      }
      if tag in {2, 3} {
        var v := ReadUnsigned(2);
        return Some(if tag == 2 then UInt(16, v) else SInt(16, Signed(v, 0x1_0000)));
      }
      if tag in {4, 5, 6} {
        var v := ReadUnsigned(4);
        var signed := SInt(32, Signed(v, 0x1_0000_0000));
        return Some(if tag == 4 then UInt(32, v) else if tag == 5 then signed else Float32(v));
      }
      if tag in {10, 11, 12} {
        var v := ReadUnsigned(8);
        return Some(if tag == 10 then UInt(64, v) else if tag == 11 then SInt(64, Signed(v, WORD64)) else Float64);
      }
      if tag == 8 {
        var s := ReadString();
        return if s.Some? then Some(Str(s.value)) else None;
      }
      if tag == 9 { r := ReadArrayValue(); return; }
      r := None;
    }

    method ParseKv() returns (r: Option<Kv>)
      requires Valid()
      modifies this
      ensures Valid()
      ensures match ReadKv(old(Rest())) case None => r == None case Some((kv, t)) => r == Some(kv) && Rest() == t
    {
      var key := ReadString();
      if key.None? { return None; }
      var tag := ReadUnsigned(4);
      var value := ParseValue(tag);
      r := if value.Some? then Some(Kv(key.value, value.value)) else None;
    }

    /** The metadata loop of pickle_load_meta, which also tracks the alignment. */
    method ParseKvs(n: nat) returns (r: Option<seq<Kv>>, alignment: nat)
      requires Valid()
      modifies this
      ensures Valid()
      ensures match ReadKvs(old(Rest()), n) case None => r == None case Some((kvs, t)) => r == Some(kvs) && Rest() == t
      ensures r.Some? ==> alignment == Alignment(r.value)
    {
      var kvs: seq<Kv> := [];
      ghost var later := ReadKvs(Rest(), n);
      ghost var all := later;
      PrependNone(later);
      alignment := 32;
      var left := n;
      while left > 0
        invariant Valid() && KvsPending(later, Rest(), left)
        invariant all == Prepend(kvs, later)
        invariant alignment == Alignment(kvs)
      {
        var kv;
        kv, alignment, later := NextKv(left, alignment, kvs, later);
        if kv.None? { return None, alignment; }
        kvs := kvs + [kv.value];
        left := left - 1;
      }
      PrependDone(kvs, Rest());
      r := Some(kvs);
    }

    /** One round of that loop; `later` is what is still to be read. */
    method NextKv(left: nat, current: nat, ghost acc: seq<Kv>, ghost later: Option<(seq<Kv>, Bytes)>)
      returns (kv: Option<Kv>, alignment: nat, ghost after: Option<(seq<Kv>, Bytes)>)
      requires Valid() && left > 0 && KvsPending(later, Rest(), left) && current == Alignment(acc)
      modifies this
      ensures Valid() && KvsPending(after, Rest(), left - 1)
      ensures kv.None? ==> later == None
      ensures kv.Some? ==> Prepend(acc, later) == Prepend(acc + [kv.value], after)
      ensures kv.Some? ==> alignment == Alignment(acc + [kv.value])
    {
      ghost var s := Rest();
      kv := ParseKv();
      alignment := current;
      if kv.Some? {
        KvsStep(acc, s, left, kv.value, Rest());
        AlignmentStep(acc, kv.value);
        alignment := AlignmentAfter(current, kv.value);
      }
      after := ReadKvs(Rest(), left - 1);
    }

    /** The dimension loop, with the product kept to 64 bits. */
    method ParseDims(n: nat) returns (dims: seq<nat>, elements: nat)
      requires Valid()
      modifies this
      ensures Valid() && (dims, Rest()) == ReadDims(old(Rest()), n) && elements == WrappedProduct(dims)
    {
      dims, elements := [], 1;
      DimsEnds([], [], ReadDims(Rest(), n));
      var i := 0;
      while i < n
        invariant 0 <= i <= n && Valid() && elements == WrappedProduct(dims)
        invariant ReadDims(old(Rest()), n) == PrependDims(dims, ReadDims(Rest(), n - i))
      {
        ghost var s := Rest();
        var d := ReadUnsigned(8);
        DimsStep(dims, s, n - i, d, Rest());
        elements := elements * d % WORD64;
        assert (dims + [d])[..|dims|] == dims;
        dims := dims + [d];
        i := i + 1;
      }
      DimsEnds(dims, Rest(), ([], []));
    }

    method ParseInfo() returns (r: Result<Info>)
      requires Valid()
      modifies this
      ensures Valid()
      ensures match ReadInfo(old(Rest())) case Err(e) => r == Err(e) case Ok((info, t)) => r == Ok(info) && Rest() == t
    {
      var s := ReadString();
      if s.None? { return Err(BadFormat); }
      var name := CString(s.value);
      if |name| >= NAME_SIZE { name := name[..NAME_SIZE - 1]; }
      var nDims := ReadUnsigned(4);
      if nDims == 0 || nDims > 8 { return Err(BadFormat); }
      var dims, elements := ParseDims(nDims);
      var tag := ReadUnsigned(4);
      var offset := ReadUnsigned(8);
      var size := TypeSize(tag, elements);
      if size == 0 { return Err(BadType); }
      r := Ok(Info(name, dims, elements, tag, offset, size));
    }

    /** The tensor table loop of pickle_load_meta. */
    method ParseInfos(n: nat) returns (r: Result<seq<Info>>)
      requires Valid()
      modifies this
      ensures Valid()
      ensures match ReadInfos(old(Rest()), n)
              case Err(e) => r == Err(e)
              case Ok((infos, t)) => r == Ok(infos) && Rest() == t
    {
      var infos: seq<Info> := [];
      ghost var later := ReadInfos(Rest(), n);
      ghost var all := later;
      PrependOkEnds([], [], later);
      var left := n;
      while left > 0
        invariant Valid() && InfosPending(later, Rest(), left)
        invariant all == PrependOk(infos, later)
      {
        var info, after := NextInfo(left, infos, later);
        if info.Err? { return Err(info.error); }
        infos := infos + [info.value];
        left := left - 1;
        later := after;
      }
      PrependOkEnds(infos, Rest(), all);
      r := Ok(infos);
    }

    /** One round of that loop; `later` is what is still to be read. */
    method NextInfo(left: nat, ghost acc: seq<Info>, ghost later: Result<(seq<Info>, Bytes)>)
      returns (info: Result<Info>, ghost after: Result<(seq<Info>, Bytes)>)
      requires Valid() && left > 0 && InfosPending(later, Rest(), left)
      modifies this
      ensures Valid() && InfosPending(after, Rest(), left - 1)
      ensures match info
              case Err(e) => later == Err(e)
              case Ok(x) => PrependOk(acc, later) == PrependOk(acc + [x], after)
    {
      ghost var s := Rest();
      info := ParseInfo();
      if info.Ok? { InfosStep(acc, s, left, info.value, Rest()); }
      after := ReadInfos(Rest(), left - 1);
    }

    /** mem_seek from the start of the file. */
    method SeekTo(to: int)
      requires Valid()
      modifies this
      ensures Valid() && off == Seek(p, to)
    {
      var no := if to < 0 then 0 else to;
      off := if no > |p| then |p| else no;
    }

    /** pickle_load_meta. */
    method ParseMeta() returns (r: Result<Meta>)
      requires Valid() && off == 0
      modifies this
      ensures Valid() && r == LoadMeta(p)
    {
      var magic := ReadUnsigned(4);
      if magic != MAGIC { return Err(BadFormat); }
      var version := ReadUnsigned(4);
      if version != 3 && version != 2 { return Err(BadVersion); }
      var tensorCount := ReadUnsigned(8);
      var kvCount := ReadUnsigned(8);
      if kvCount > 4096 || tensorCount > 65536 { return Err(BadFormat); }
      r := ParseTables(version, kvCount, tensorCount);
    }

    method ParseTables(version: nat, kvCount: nat, tensorCount: nat) returns (r: Result<Meta>)
      requires Valid()
      modifies this
      ensures Valid()
      ensures r == match ReadTables(old(Rest()), kvCount, tensorCount)
                   case Err(e) => Err(e)
                   case Ok((kvs, infos, t)) =>
                     Ok(Meta(version, kvs, infos, Seek(p, AlignUp(Tell(p, t), Alignment(kvs)))))
    {
      var kvs, alignment := ParseKvs(kvCount);
      if kvs.None? { return Err(BadFormat); }
      var infos := ParseInfos(tensorCount);
      if infos.Err? { return Err(infos.error); }
      assert Tell(p, Rest()) == off;
      AlignCursor(alignment);
      r := Ok(Meta(version, kvs.value, infos.value, off));
    }

    method AlignCursor(alignment: nat)
      requires Valid() && alignment > 0
      modifies this
      ensures Valid() && off == Seek(p, AlignUp(old(off), alignment))
    {
      if alignment > 1 {
        var mod := off % alignment;
        if mod != 0 { SeekTo(off + (alignment - mod)); }
      }
    }

    /** The reads of one block in pickle_dequant_stream. */
    method ReadBlock(fields: seq<Field>) returns (r: Option<seq<nat>>)
      requires Valid()
      modifies this
      ensures Valid()
      ensures match ReadFields(old(Rest()), fields)
              case None => r == None
              case Some((b, t)) => r == Some(b) && Rest() == t
    {
      var values: seq<nat> := [];
      PrependNone(ReadFields(Rest(), fields));
      var i := 0;
      assert fields[0..] == fields;
      while i < |fields|
        invariant 0 <= i <= |fields| && Valid()
        invariant ReadFields(old(Rest()), fields) == Prepend(values, ReadFields(Rest(), fields[i..]))
      {
        ghost var s := Rest();
        var f := fields[i];
        assert fields[i..][0] == f;
        if f.Raw? && off + f.width > |p| { return None; }
        var v := ReadUnsigned(f.width);
        FieldsStep(values, s, fields, i, v, Rest());
        values := values + [v];
        i := i + 1;
      }
      PrependDone(values, Rest());
      r := Some(values);
    }

    /** pickle_dequant_stream, up to the arithmetic on the blocks. */
    method DequantStream(tag: nat, n: nat) returns (r: Result<seq<seq<nat>>>)
      requires Valid()
      modifies this
      ensures Valid()
      ensures !KnownType(tag) ==> r == Err(BadType)
      ensures KnownType(tag) ==>
                match ReadBlocks(old(Rest()), BlockFields(tag), BlockCount(tag, n))
                case None => r == Err(IoError)
                case Some((blocks, t)) => r == Ok(blocks) && Rest() == t
    {
      if !KnownType(tag) { return Err(BadType); }
      var (fields, count) := (BlockFields(tag), BlockCount(tag, n));
      var blocks: seq<seq<nat>> := [];
      PrependNone(ReadBlocks(Rest(), fields, count));
      var i := 0;
      while i < count
        invariant 0 <= i <= count && Valid()
        invariant ReadBlocks(old(Rest()), fields, count) == Prepend(blocks, ReadBlocks(Rest(), fields, count - i))
      {
        ghost var s := Rest();
        var block := ReadBlock(fields);
        if block.None? { return Err(IoError); }
        BlocksStep(blocks, s, fields, count - i, block.value, Rest());
        blocks := blocks + [block.value];
        i := i + 1;
      }
      PrependDone(blocks, Rest());
      r := Ok(blocks);
    }

    /** pickle_load. */
    method LoadAll() returns (r: Result<Loaded>)
      requires Valid() && off == 0
      modifies this
      ensures Valid() && r == Load(p)
    {
      var meta := ParseMeta();
      if meta.Err? { return Err(meta.error); }
      var tensors := LoadData(meta.value.dataStart, meta.value.infos);
      r := if tensors.Ok? then Ok(Loaded(meta.value, tensors.value)) else Err(tensors.error);
    }

    /** The loop of pickle_load over the tensors. */
    method LoadData(start: nat, infos: seq<Info>) returns (r: Result<seq<seq<seq<nat>>>>)
      requires Valid()
      modifies this
      ensures Valid() && r == LoadTensors(p, start, infos)
    {
      var tensors: seq<seq<seq<nat>>> := [];
      var i := 0;
      assert infos[0..] == infos;
      GatheredEnds([], LoadTensors(p, start, infos));
      while i < |infos|
        invariant 0 <= i <= |infos| && Valid()
        invariant LoadTensors(p, start, infos) == Gathered(tensors, LoadTensors(p, start, infos[i..]))
      {
        TensorsStep(tensors, p, start, infos, i);
        var blocks := LoadOne(start, infos[i]);
        if blocks.Err? { return Err(blocks.error); }
        tensors := tensors + [blocks.value];
        i := i + 1;
      }
      GatheredEnds(tensors, Err(BadFormat));
      r := Ok(tensors);
    }

    method LoadOne(start: nat, info: Info) returns (r: Result<seq<seq<nat>>>)
      requires Valid()
      modifies this
      ensures Valid() && r == LoadTensor(p, start, info)
    {
      SeekTo(start + Signed(info.offset, WORD64));
      r := DequantStream(info.tag, info.elements);
    }
  }
}
