/**
 scripts/make_tiny_gguf.py as it runs: the data offsets are computed in one loop, and the file is
 appended to piece by piece, with padding that follows from its length.
 */
module GgufWriter {
  import opened Gguf
  import opened GgufRoundTrip
  import GgufReader

  /** The data offset of the i-th tensor. */
  function OffsetAt(ts: seq<Tensor>, i: nat): nat
    requires i <= |ts|
  {
    if i == 0 then 0 else Next(ts[i - 1], OffsetAt(ts, i - 1))
  }

  /** The loop that fills data_offsets. */
  method ComputeOffsets(ts: seq<Tensor>) returns (offsets: seq<nat>)
    ensures |offsets| == |ts| && forall i {:trigger offsets[i]} | 0 <= i < |ts| :: offsets[i] == OffsetAt(ts, i)
  {
    offsets := [];
    var cur := 0;
    var i := 0;
    while i < |ts|
      invariant 0 <= i <= |ts| && |offsets| == i && cur == OffsetAt(ts, i)
      invariant forall k {:trigger offsets[k]} | 0 <= k < i :: offsets[k] == OffsetAt(ts, k)
    {
      offsets := offsets + [cur];
      cur := NextMultiple(cur + 4 * |ts[i].weights|);
      i := i + 1;
    }
  }

  method NextMultiple(pos: nat) returns (r: nat)
    ensures r == AlignUp(pos, 32)
  {
    r := pos;
    var mod := r % 32;
    if mod != 0 { r := r + 32 - mod; }
  }

  class File {
    var out: Bytes

    constructor ()
      ensures out == []
    {
      out := [];
    }

    method Append(b: Bytes)
      modifies this
      ensures out == old(out) + b
    {
      out := out + b;
    }

    /** write_str. */
    method WriteStr(s: Bytes)
      modifies this
      ensures out == old(out) + StrBytes(s)
    {
      out := out + Le(|s|, 8);
      out := out + s;
      Assoc(old(out), Le(|s|, 8), s);
    }

    /** write_kv_str, write_kv_u32, write_kv_f32 and write_kv_bool. */
    method WriteKv(kv: Kv)
      requires Writable(kv.value)
      modifies this
      ensures out == old(out) + KvBytes(kv)
    {
      WriteStr(kv.key);
      ghost var o := out;
      match kv.value {
        case UInt(_, n) => { Append(Le(4, 4)); Append(Le(n, 4)); Assoc(o, Le(4, 4), Le(n, 4)); }
        case Float32(p) => { Append(Le(6, 4)); Append(Le(p, 4)); Assoc(o, Le(6, 4), Le(p, 4)); }
        case Boolean(b) => { Append(Le(7, 4)); Append([if b then 1 else 0]); Assoc(o, Le(7, 4), [if b then 1 else 0]); }
        case Str(s) => { Append(Le(8, 4)); WriteStr(s); Assoc(o, Le(8, 4), StrBytes(s)); }
      }
      Assoc(old(out), StrBytes(kv.key), ValueBytes(kv.value));
    }

    method WriteKvs(kvs: seq<Kv>)
      requires forall i | 0 <= i < |kvs| :: Writable(kvs[i].value)
      modifies this
      ensures out == old(out) + KvsBytes(kvs)
    {
      var i := 0;
      while i < |kvs|
        invariant 0 <= i <= |kvs| && out + KvsBytes(kvs[i..]) == old(out) + KvsBytes(kvs)
      {
        assert kvs[i..][1..] == kvs[i + 1..];
        Assoc(out, KvBytes(kvs[i]), KvsBytes(kvs[i + 1..]));
        WriteKv(kvs[i]);
        i := i + 1;
      }
      assert KvsBytes(kvs[i..]) == [] && out + [] == out;
    }

    method WriteDims(dims: seq<nat>)
      modifies this
      ensures out == old(out) + DimsBytes(dims)
    {
      var i := 0;
      while i < |dims|
        invariant 0 <= i <= |dims| && out + DimsBytes(dims[i..]) == old(out) + DimsBytes(dims)
      {
        assert dims[i..][1..] == dims[i + 1..];
        Assoc(out, Le(dims[i], 8), DimsBytes(dims[i + 1..]));
        out := out + Le(dims[i], 8);
        i := i + 1;
      }
      assert DimsBytes(dims[i..]) == [] && out + [] == out;
    }

    method WriteInfo(t: Tensor, offset: nat)
      modifies this
      ensures out == old(out) + InfoBytes(t, offset)
    {
      WriteStr(t.name);
      Append(Le(|t.dims|, 4));
      WriteDims(t.dims);
      Append(Le(0, 4));
      Append(Le(offset, 8));
      Grouped(old(out), StrBytes(t.name), Le(|t.dims|, 4), DimsBytes(t.dims), Le(0, 4), Le(offset, 8));
    }

    method WriteInfos(ts: seq<Tensor>, offsets: seq<nat>)
      requires |offsets| == |ts| && forall i {:trigger offsets[i]} | 0 <= i < |ts| :: offsets[i] == OffsetAt(ts, i)
      modifies this
      ensures out == old(out) + InfosBytes(ts, 0)
    {
      var i := 0;
      assert ts[0..] == ts;
      while i < |ts|
        invariant 0 <= i <= |ts| && out + InfosBytes(ts[i..], OffsetAt(ts, i)) == old(out) + InfosBytes(ts, 0)
      {
        InfosStep(ts, i, offsets[i]);
        Assoc(out, InfoBytes(ts[i], offsets[i]), InfosBytes(ts[i + 1..], OffsetAt(ts, i + 1)));
        WriteInfo(ts[i], offsets[i]);
        i := i + 1;
      }
      assert InfosBytes(ts[i..], OffsetAt(ts, i)) == [] && out + [] == out;
    }

    /** Zeros up to the next multiple of 32. */
    method Pad()
      modifies this
      ensures out == old(out) + Padding(|old(out)|) && |out| == AlignUp(|old(out)|, 32)
    {
      var mod := |out| % 32;
      if mod != 0 { out := out + Zeros(32 - mod); }
    }

    method WriteWords(ws: seq<nat>)
      modifies this
      ensures out == old(out) + WordsBytes(ws)
    {
      var i := 0;
      while i < |ws|
        invariant 0 <= i <= |ws| && out + WordsBytes(ws[i..]) == old(out) + WordsBytes(ws)
      {
        assert ws[i..][1..] == ws[i + 1..];
        Assoc(out, Le(ws[i], 4), WordsBytes(ws[i + 1..]));
        out := out + Le(ws[i], 4);
        i := i + 1;
      }
      assert WordsBytes(ws[i..]) == [] && out + [] == out;
    }

    method WriteData(ts: seq<Tensor>)
      modifies this
      ensures out == old(out) + DataBytes(ts, |old(out)|)
    {
      var i := 0;
      assert ts[0..] == ts;
      while i < |ts|
        invariant 0 <= i <= |ts| && out + DataBytes(ts[i..], |out|) == old(out) + DataBytes(ts, |old(out)|)
      {
        ghost var (words, end) := (WordsBytes(ts[i].weights), |out| + 4 * |ts[i].weights|);
        assert ts[i..][1..] == ts[i + 1..];
        DataStep(out, words, Padding(end), DataBytes(ts[i + 1..], AlignUp(end, 32)));
        WriteWords(ts[i].weights);
        Pad();
        i := i + 1;
      }
      assert DataBytes(ts[i..], |out|) == [] && out + [] == out;
    }

    /** The whole script: header, metadata, tensor table, alignment and data. */
    method WriteFile(m: Model)
      requires WritableModel(m) && out == []
      modifies this
      ensures out == FileBytes(m)
    {
      var offsets := ComputeOffsets(m.tensors);
      WriteHead(m, offsets);
      Pad();
      WriteData(m.tensors);
    }

    method WriteHead(m: Model, offsets: seq<nat>)
      requires WritableModel(m) && out == []
      requires |offsets| == |m.tensors|
      requires forall i {:trigger offsets[i]} | 0 <= i < |offsets| :: offsets[i] == OffsetAt(m.tensors, i)
      modifies this
      ensures out == HeadBytes(m)
    {
      out := Le(MAGIC, 4);
      Append(Le(3, 4));
      Append(Le(|m.tensors|, 8));
      Append(Le(|m.kvs|, 8));
      WriteKvs(m.kvs);
      WriteInfos(m.tensors, offsets);
    }
  }

  /** The script's file, loaded by the kernel: every key, value, shape and weight comes back. */
  method WriteAndLoad(m: Model) returns (r: Result<Loaded>)
    requires Fits(m) && (m.tensors == [] || Aligned(m))
    ensures r == Ok(Loaded(MetaOf(m), BlocksOf(m.tensors)))
  {
    var file := new File();
    file.WriteFile(m);
    var stream := new GgufReader.Stream(file.out);
    r := stream.LoadAll();
    RoundTrip(m);
  }

  lemma Grouped(o: Bytes, a: Bytes, b: Bytes, c: Bytes, d: Bytes, e: Bytes)
    ensures o + a + b + c + d + e == o + (a + b + c + d + e)
  {
    Assoc(o + a + b + c, d, e);
    Assoc(o, a + b + c, d + e);
    Assoc(a + b + c, d, e);
    Assoc(o + a, b, c);
    Assoc(o, a, b + c);
    Assoc(a, b, c);
  }

  lemma InfosStep(ts: seq<Tensor>, i: nat, cur: nat)
    requires i < |ts| && cur == OffsetAt(ts, i)
    ensures InfosBytes(ts[i..], cur) == InfoBytes(ts[i], cur) + InfosBytes(ts[i + 1..], OffsetAt(ts, i + 1))
  {
    assert ts[i..][0] == ts[i] && ts[i..][1..] == ts[i + 1..];
  }

  lemma DataStep(o: Bytes, a: Bytes, b: Bytes, c: Bytes)
    ensures o + (a + b + c) == o + a + b + c
  {
    Assoc(o, a + b, c);
    Assoc(o, a, b);
  }
}
