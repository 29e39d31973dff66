/**
 Symbol lookup in one library (kernel/exec/ldso.c): the System V hash table of gABI chapter 5
 and the GNU hash table with its Bloom filter, each against a linear scan of the symbols.

 names[i] is the NUL-terminated string of symbol i.  32-bit words are numbers below 2^32 and
 their bit operations are written as arithmetic; a Bloom word is the set of its set bits.
 */
module SymbolHash {
  import opened Options
  import opened Powers

  type Byte = c: int | 0 <= c < 256
  type Word = w: int | 0 <= w < 0x1_0000_0000
  type Name = seq<Byte>

  /** Some symbol at or after index `lo` has the name. */
  ghost predicate Defined(names: seq<Name>, lo: nat, name: Name) {
    exists i :: lo <= i < |names| && names[i] == name
  }

  // ----- System V -----------------------------------------------------------------------

  function XorBit(a: nat, b: nat): (r: nat)
    ensures r == (a + b) % 2
  {
    if a % 2 == b % 2 then 0 else 1
  }

  /** Exclusive or of two four-bit numbers. */
  function XorNibble(a: nat, b: nat): (r: nat)
    requires a < 16 && b < 16
    ensures r < 16
    ensures r == 8 * ((a / 8 + b / 8) % 2) + 4 * ((a / 4 + b / 4) % 2) + 2 * ((a / 2 + b / 2) % 2) + (a + b) % 2
  {
    8 * XorBit(a / 8, b / 8) + 4 * XorBit(a / 4, b / 4) + 2 * XorBit(a / 2, b / 2) + XorBit(a, b)
  }

  /** Fold the top four bits into bits 4..7, and clear them. */
  function Fold(h: Word): (r: Word)
    ensures r < 0x1000_0000
  {
    var top, low := h / 0x1000_0000, h % 0x1000_0000;
    Join(low / 256, XorNibble(low / 16 % 16, top), low % 16)
  }

  /** Bits 8 to 27, bits 4 to 7 and the lowest four. */
  function Join(a: nat, b: nat, c: nat): (r: Word)
    requires a < 0x10_0000 && b < 16 && c < 16
    ensures r == 256 * a + 16 * b + c && r < 0x1000_0000
  {
    a * 256 + b * 16 + c
  }

  /** One round of elf_hash: shift in the byte, and fold. */
  function ElfHashStep(h: Word, c: Byte): (r: Word)
    ensures r < 0x1000_0000
  {
    Fold((h * 16 + c) % 0x1_0000_0000)
  }

  function ElfHash(name: Name): (h: Word)
    ensures h < 0x1000_0000
  {
    if name == [] then 0 else ElfHashStep(ElfHash(name[..|name| - 1]), name[|name| - 1])
  }

  method ComputeElfHash(name: Name) returns (h: Word)
    ensures h == ElfHash(name)
  {
    h := 0;
    for k := 0 to |name|
      invariant h == ElfHash(name[..k])
    {
      assert name[..k + 1][..k] == name[..k];
      h := ElfHashStep(h, name[k]);
    }
    assert name[..|name|] == name;
  }

  /** Folding in bits: the lowest four and those from 8 to 27 stay, bits 4 to 7 become the exclusive or of
      themselves and the four at the top. */
  lemma FoldIs(h: Word)
    ensures var r := Fold(h);
            && r % 16 == h % 16 && r / 256 == h / 256 % 0x10_0000
            && r / 16 % 16 == XorNibble(h / 16 % 16, h / 0x1000_0000)
  {
    var top, low := h / 0x1000_0000, h % 0x1000_0000;
    LowDigits(h, top, low);
    Recomposed(low / 256, XorNibble(low / 16 % 16, top), low % 16);
  }

  lemma LowDigits(h: nat, top: nat, low: nat)
    requires h == 0x1000_0000 * top + low && low < 0x1000_0000
    ensures low % 16 == h % 16 && low / 16 % 16 == h / 16 % 16 && low / 256 == h / 256 % 0x10_0000
  {
    assert h / 256 == 0x10_0000 * top + low / 256;
    assert h / 16 == 16 * (0x10_0000 * top) + low / 16;
  }

  lemma Recomposed(a: nat, b: nat, c: nat)
    requires b < 16 && c < 16
    ensures var r := 256 * a + 16 * b + c; r % 16 == c && r / 16 % 16 == b && r / 256 == a
  {
  }

  /** Nothing is folded while the hash is small. */
  lemma FoldSmall(h: Word)
    requires h < 0x1000_0000
    ensures Fold(h) == h
  {
    XorZero(h / 16 % 16);
    Decomposed(h);
  }

  lemma Decomposed(h: nat)
    ensures h == h / 256 * 256 + h / 16 % 16 * 16 + h % 16
  {
    assert h / 16 == 16 * (h / 256) + h / 16 % 16;
  }

  lemma XorZero(a: nat)
    requires a < 16
    ensures XorNibble(a, 0) == a
  {
  }

  /** The bytes as a number to base 16, with carries. */
  function Hexadecimal(name: Name): nat {
    if name == [] then 0 else 16 * Hexadecimal(name[..|name| - 1]) + name[|name| - 1]
  }

  function Pow16(n: nat): nat { if n == 0 then 1 else 16 * Pow16(n - 1) }

  lemma {:induction false} HexadecimalBound(name: Name)
    ensures Hexadecimal(name) <= 17 * Pow16(|name|) - 17
    decreases |name|
  {
    if name != [] { HexadecimalBound(name[..|name| - 1]); }
  }

  /** The hash of a name of up to five bytes. */
  lemma {:induction false} ElfShort(name: Name)
    requires |name| <= 5
    ensures ElfHash(name) == Hexadecimal(name)
    decreases |name|
  {
    if name != [] {
      ElfShort(name[..|name| - 1]);
      ShortBound(name);
      StepSmall(ElfHash(name[..|name| - 1]), name[|name| - 1]);
    }
  }

  lemma StepSmall(h: Word, c: Byte)
    requires 16 * h + c < 0x1000_0000
    ensures ElfHashStep(h, c) == 16 * h + c
  {
    FoldSmall((h * 16 + c) % 0x1_0000_0000);
  }

  lemma ShortBound(name: Name)
    requires |name| <= 5
    ensures Hexadecimal(name) < 0x1000_0000
  {
    HexadecimalBound(name);
    SmallPow(|name|);
  }

  lemma SmallPow(n: nat)
    requires n <= 5
    ensures Pow16(n) <= 0x10_0000
  {
    assert Pow16(5) == 0x10_0000 && Pow16(4) == 0x1_0000 && Pow16(3) == 0x1000 && Pow16(2) == 0x100;
  }

  datatype SysvTable = SysvTable(buckets: seq<nat>, chain: seq<nat>)

  /** Starting at `start` and following `chain`, the walk meets exactly `list` and then 0. */
  predicate IsChain(chain: seq<nat>, start: nat, list: seq<nat>)
    decreases |list|
  {
    if list == [] then start == 0
    else start == list[0] && 0 < start < |chain| && IsChain(chain, chain[start], list[1..])
  }

  /** The table the link editor promises: one chain per bucket, ending in 0, and every symbol
      on the chain of its hash. */
  ghost predicate SysvWellFormed(t: SysvTable, names: seq<Name>) {
    && |t.buckets| > 0 && |t.chain| == |names|
    && (forall b | 0 <= b < |t.buckets| :: exists list :: IsChain(t.chain, t.buckets[b], list))
    && (forall i, list | 0 < i < |names| && IsChain(t.chain, t.buckets[ElfHash(names[i]) % |t.buckets|], list) ::
              i in list)
  }

  /** lookup_sysv_hash: finds a symbol of that name exactly when a scan of symbols 1.. does. */
  method LookupSysv(t: SysvTable, names: seq<Name>, name: Name) returns (r: Option<nat>)
    requires SysvWellFormed(t, names)
    ensures r.Some? ==> 0 < r.value < |names| && names[r.value] == name
    ensures r.None? <==> !Defined(names, 1, name)
  {
    var hash := ComputeElfHash(name);
    var idx: nat := t.buckets[hash % |t.buckets|];
    ghost var list :| IsChain(t.chain, idx, list);
    ghost var rest := list;
    while idx != 0 && idx < |t.chain|
      invariant IsChain(t.chain, idx, rest)
      invariant forall i | i in list && 0 < i < |names| && names[i] == name :: i in rest
      decreases |rest|
    {
      if names[idx] == name {
        assert Defined(names, 1, name);
        return Some(idx);
      }
      idx := t.chain[idx];
      rest := rest[1..];
    }
    assert rest == [] && forall i | 0 < i < |names| && names[i] == name :: i in list;
    return None;
  }

  // ----- GNU ----------------------------------------------------------------------------

  function GnuHash(name: Name): Word {
    if name == [] then 5381 else (GnuHash(name[..|name| - 1]) * 33 + name[|name| - 1]) % 0x1_0000_0000
  }

  method ComputeGnuHash(name: Name) returns (h: Word)
    ensures h == GnuHash(name)
  {
    h := 5381;
    for k := 0 to |name|
      invariant h == GnuHash(name[..k])
    {
      assert name[..k + 1][..k] == name[..k];
      h := (h * 32 + h + name[k]) % 0x1_0000_0000;
    }
    assert name[..|name|] == name;
  }

  /** The hash as a polynomial in 33 over the bytes, with 5381 in front. */
  function Polynomial(name: Name): nat {
    if name == [] then 5381 else 33 * Polynomial(name[..|name| - 1]) + name[|name| - 1]
  }

  lemma {:induction false} GnuHashIs(name: Name)
    ensures GnuHash(name) == Polynomial(name) % 0x1_0000_0000
    decreases |name|
  {
    if name != [] {
      GnuHashIs(name[..|name| - 1]);
      ModHorner(Polynomial(name[..|name| - 1]), name[|name| - 1]);
    }
  }

  lemma ModHorner(x: nat, c: nat)
    ensures (x % 0x1_0000_0000 * 33 + c) % 0x1_0000_0000 == (33 * x + c) % 0x1_0000_0000
  {
  }

  datatype GnuTable = GnuTable(symoffset: nat, shift: nat, bloom: seq<set<nat>>, buckets: seq<nat>, chain: seq<Word>)

  /** The two bits that a hash sets in its Bloom word. */
  function BloomMask(t: GnuTable, h: Word): set<nat> { {h % 64, Shr(h, t.shift) % 64} }

  function BloomWord(t: GnuTable, h: Word): set<nat>
    requires |t.bloom| > 0
  {
    t.bloom[h / 64 % |t.bloom|]
  }

  function ChainWord(t: GnuTable, i: nat): Word
    requires t.symoffset <= i < t.symoffset + |t.chain|
  {
    t.chain[i - t.symoffset]
  }

  /** Last symbol of its bucket. */
  predicate EndMark(t: GnuTable, i: nat)
    requires t.symoffset <= i < t.symoffset + |t.chain|
  {
    ChainWord(t, i) % 2 == 1
  }

  /** The layout of the filter and the chain words: bits h and h >> shift, modulo 64, of word h / 64; the lowest
      bit of a chain word ends the bucket. */
  lemma GnuLayout(t: GnuTable, h: Word, i: nat)
    requires |t.bloom| > 0 && t.symoffset <= i < t.symoffset + |t.chain|
    ensures BloomWord(t, h) == t.bloom[h / 64 % |t.bloom|] && EndMark(t, i) == (t.chain[i - t.symoffset] % 2 == 1)
    ensures h % 64 in BloomMask(t, h) && |BloomMask(t, h)| <= 2
    ensures t.shift == 6 ==> BloomMask(t, h) == {h % 64, h / 64 % 64}
  {
    assert Pow2(6) == 64;
  }

  /** A symbol hashed to its bucket: the bucket starts no later, no end mark lies between, and
      the chain word agrees with the hash but for its lowest bit. */
  predicate Placed(t: GnuTable, names: seq<Name>, i: nat)
    requires |t.buckets| > 0 && t.symoffset <= i < |names| && |names| == t.symoffset + |t.chain|
  {
    var h := GnuHash(names[i]);
    var start := t.buckets[h % |t.buckets|];
    && t.symoffset <= start <= i
    && (forall k | start <= k < i :: !EndMark(t, k))
    && ChainWord(t, i) / 2 == h / 2
  }

  /** What the link editor promises of DT_GNU_HASH. */
  ghost predicate GnuWellFormed(t: GnuTable, names: seq<Name>) {
    && |t.buckets| > 0 && |t.bloom| > 0 && t.shift < 32 && |names| == t.symoffset + |t.chain|
    && (forall i | t.symoffset <= i < |names| ::
          Placed(t, names, i) && BloomMask(t, GnuHash(names[i])) <= BloomWord(t, GnuHash(names[i])))
    && (forall b | 0 <= b < |t.buckets| && t.buckets[b] >= t.symoffset ::
          exists e :: t.buckets[b] <= e < |names| && EndMark(t, e))
  }

  /** A defined name passes the Bloom filter and finds its bucket in use. */
  lemma NoFalseNegative(t: GnuTable, names: seq<Name>, name: Name)
    requires GnuWellFormed(t, names) && Defined(names, t.symoffset, name)
    ensures var h := GnuHash(name);
            BloomMask(t, h) <= BloomWord(t, h) && t.buckets[h % |t.buckets|] >= t.symoffset
  {
    var i :| t.symoffset <= i < |names| && names[i] == name;
    assert Placed(t, names, i);
  }

  /** The chain walk of lookup_gnu_hash from a bucket in use. */
  method WalkGnuChain(t: GnuTable, names: seq<Name>, name: Name, hash: Word, start: nat) returns (r: Option<nat>)
    requires GnuWellFormed(t, names) && hash == GnuHash(name)
    requires start == t.buckets[hash % |t.buckets|] >= t.symoffset
    ensures r.Some? ==> t.symoffset <= r.value < |names| && names[r.value] == name
    ensures r.None? ==> forall i | t.symoffset <= i < |names| :: names[i] != name
  {
    var idx := start;
    ghost var end :| start <= end < |names| && EndMark(t, end);
    while true
      invariant start <= idx <= end
      invariant forall k | start <= k < idx :: names[k] != name && !EndMark(t, k)
      decreases end - idx
    {
      var word := ChainWord(t, idx);
      if word / 2 == hash / 2 && names[idx] == name { return Some(idx); }
      assert Placed(t, names, idx);
      if word % 2 == 1 { break; }
      idx := idx + 1;
    }
    assert EndMark(t, idx) && names[idx] != name;
    forall i | t.symoffset <= i < |names| ensures names[i] != name {
      assert Placed(t, names, i);
    }
    return None;
  }

  /** lookup_gnu_hash: the Bloom filter rejects no defined name, the walk stops at the end mark,
      and a symbol is found exactly when a scan of the hashed symbols finds one. */
  method LookupGnu(t: GnuTable, names: seq<Name>, name: Name) returns (r: Option<nat>)
    requires GnuWellFormed(t, names)
    ensures r.Some? ==> t.symoffset <= r.value < |names| && names[r.value] == name
    ensures r.None? <==> !Defined(names, t.symoffset, name)
  {
    if Defined(names, t.symoffset, name) { NoFalseNegative(t, names, name); }
    var hash := ComputeGnuHash(name);
    if !(BloomMask(t, hash) <= BloomWord(t, hash)) { return None; }
    var start := t.buckets[hash % |t.buckets|];
    if start < t.symoffset { return None; }
    r := WalkGnuChain(t, names, name, hash, start);
  }
}
