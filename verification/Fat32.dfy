/**
 The FAT32 driver (kernel/fs/fat32.c) on a disk of 512-byte sectors without I/O errors:
 fat_get and fat_set as reads and updates of one table despite four-byte packing and the
 mirrored copy, fat32_free_chain on every table, and fat32_read_file and fat32_write_file
 over the chain of a file with one-sector clusters.
 */
module Fat32 {

  type Byte = b: int | 0 <= b < 256
  type Sector = s: seq<Byte> | |s| == 512 witness seq(512, _ => 0)
  type Word = w: int | 0 <= w < 0x1_0000_0000

  const END_OF_CHAIN := 0x0FFF_FFF8
  const NO_ENTRY := 0x0FFF_FFFF
  const ENTRY_RANGE := 0x1000_0000

  // --- Words in sectors -------------------------------------------------------------

  function Join(a: Byte, b: Byte, c: Byte, d: Byte): (w: Word)
    ensures w as int == a as int + 256 * b as int + 65536 * c as int + 16777216 * d as int
  {
    var (x: int, y: int, z: int, t: int) := (a, b, c, d);
    x + 0x100 * (y + 0x100 * (z + 0x100 * t))
  }

  /** The memcpy of a little-endian word out of a sector. */
  function WordAt(s: Sector, off: nat): (w: Word)
    requires off + 4 <= 512
  {
    Join(s[off], s[off + 1], s[off + 2], s[off + 3])
  }

  function ByteOf(w: Word, k: nat): (b: Byte)
    requires k < 4
  {
    if k == 0 then w % 0x100 else if k == 1 then w / 0x100 % 0x100
    else if k == 2 then w / 0x100 / 0x100 % 0x100 else w / 0x100 / 0x100 / 0x100
  }

  lemma JoinBytes(w: Word)
    ensures Join(ByteOf(w, 0), ByteOf(w, 1), ByteOf(w, 2), ByteOf(w, 3)) == w
  {
    var q: int := w / 0x100;
    var r: int := q / 0x100;
    assert q == 0x100 * r + q % 0x100;
    assert r == 0x100 * (r / 0x100) + r % 0x100;
  }

  /** The memcpy of a word into a sector. */
  function PutWord(s: Sector, off: nat, w: Word): (r: Sector)
    requires off + 4 <= 512
    ensures forall k | 0 <= k < 512 && !(off <= k < off + 4) :: r[k] == s[k]
  {
    s[off := ByteOf(w, 0)][off + 1 := ByteOf(w, 1)][off + 2 := ByteOf(w, 2)][off + 3 := ByteOf(w, 3)]
  }

  lemma WordPut(s: Sector, off: nat, w: Word, at: nat)
    requires off + 4 <= 512 && at + 4 <= 512
    requires at == off || at + 4 <= off || off + 4 <= at
    ensures WordAt(PutWord(s, off, w), at) == if at == off then w else WordAt(s, at)
  {
    JoinBytes(w);
  }

  // --- The table --------------------------------------------------------------------

  /** The parsed BPB in sectors: the FATs start at `fatStart`, the data region at `dataStart`. */
  datatype Layout = Layout(fatStart: nat, fatSize: nat, numFats: nat, dataStart: nat)

  function Entries(l: Layout): nat { 128 * l.fatSize }

  /** The FATs that fat_set writes lie before the data region, on a disk below 4 GB. */
  predicate LayoutOk(l: Layout) {
    && l.fatStart + l.fatSize <= l.dataStart < 0x80_0000
    && (l.numFats >= 2 ==> l.fatStart + 2 * l.fatSize <= l.dataStart)
  }

  /** The layout fat32_init computes has that form as soon as there is a FAT at all. */
  lemma InitLayout(reserved: nat, fatSize: nat, numFats: nat)
    requires reserved + fatSize * numFats < 0x80_0000
    ensures numFats >= 1 ==> LayoutOk(Layout(reserved, fatSize, numFats, reserved + fatSize * numFats))
  {
    if numFats >= 2 {
      assert fatSize * numFats == fatSize * 2 + fatSize * (numFats - 2);
      assert fatSize * (numFats - 2) >= 0;
    } else if numFats == 1 {
      assert fatSize * numFats == fatSize;
    }
  }

  ghost predicate DiskOk(l: Layout, disk: seq<Sector>) {
    LayoutOk(l) && l.dataStart <= |disk|
  }

  /** The 28-bit entry of a cluster in the first FAT. */
  function Entry(l: Layout, disk: seq<Sector>, c: nat): (e: nat)
    requires c < Entries(l) && l.fatStart + l.fatSize <= |disk|
    ensures e < ENTRY_RANGE
  {
    WordAt(disk[l.fatStart + c / 128], c % 128 * 4) % ENTRY_RANGE
  }

  /** The first FAT as a sequence of entries. */
  ghost function Table(l: Layout, disk: seq<Sector>): (t: seq<nat>)
    requires DiskOk(l, disk)
    ensures |t| == Entries(l)
  {
    seq(Entries(l), c requires 0 <= c < Entries(l) => Entry(l, disk, c))
  }

  predicate HasMirror(l: Layout) { l.numFats >= 2 && l.fatSize > 0 }

  predicate SectorMirrored(l: Layout, disk: seq<Sector>, k: nat)
    requires k + l.fatSize < |disk|
  {
    disk[k + l.fatSize] == disk[k]
  }

  /** The second FAT, when there is one, equals the first. */
  ghost predicate Mirrored(l: Layout, disk: seq<Sector>)
    requires DiskOk(l, disk)
  {
    HasMirror(l) ==> forall k: nat | l.fatStart <= k < l.fatStart + l.fatSize :: SectorMirrored(l, disk, k)
  }

  /** The disk after fat_set: one word of one sector, and the whole sector in the mirror. */
  function SetOnDisk(l: Layout, disk: seq<Sector>, c: nat, v: Word): (after: seq<Sector>)
    requires LayoutOk(l) && l.dataStart <= |disk| && c < Entries(l)
    ensures |after| == |disk|
  {
    var sec := l.fatStart + c / 128;
    var s := PutWord(disk[sec], c % 128 * 4, v);
    if HasMirror(l) then disk[sec := s][sec + l.fatSize := s] else disk[sec := s]
  }

  /** The byte address of an entry: fat_offset + cluster * 4 in 32-bit arithmetic, where fat_offset is
      512 * fatStart. */
  function FatByte(l: Layout, cluster: Word): (b: nat)
    ensures b % 512 <= 508 && b == (512 * l.fatStart + 4 * cluster) % 0x1_0000_0000
  {
    var word := (l.fatStart * 128 + cluster) % 0x4000_0000;
    assert 4 * word % 512 == 4 * (word % 128);
    4 * word
  }

  lemma InTableByte(l: Layout, c: Word)
    requires LayoutOk(l) && c < Entries(l)
    ensures FatByte(l, c) / 512 == l.fatStart + c / 128 && FatByte(l, c) % 512 == c % 128 * 4
  {
  }

  /** The disk after fat_set stored a word at a byte address of its first FAT. */
  function StoreAt(l: Layout, disk: seq<Sector>, at: nat, v: Word): (after: seq<Sector>)
    requires at / 512 < |disk| && at % 512 <= 508
    ensures |after| == |disk|
  {
    var sec := at / 512;
    var s := PutWord(disk[sec], at % 512, v);
    if HasMirror(l) && sec + l.fatSize < |disk| then disk[sec := s][sec + l.fatSize := s] else disk[sec := s]
  }

  lemma StoreIsSet(l: Layout, disk: seq<Sector>, c: Word, v: Word)
    requires DiskOk(l, disk) && c < Entries(l)
    ensures FatByte(l, c) / 512 < |disk| && StoreAt(l, disk, FatByte(l, c), v) == SetOnDisk(l, disk, c, v)
  {
    InTableByte(l, c);
  }

  lemma SetEntry(l: Layout, disk: seq<Sector>, c: nat, v: Word, d: nat)
    requires DiskOk(l, disk) && c < Entries(l) && d < Entries(l)
    ensures Entry(l, SetOnDisk(l, disk, c, v), d) == if d == c then v % ENTRY_RANGE else Entry(l, disk, d)
  {
    var (sec, at) := (l.fatStart + c / 128, l.fatStart + d / 128);
    var after := SetOnDisk(l, disk, c, v);
    if at == sec {
      assert after[at] == PutWord(disk[sec], c % 128 * 4, v);
      assert d == c || d % 128 != c % 128;
      WordPut(disk[sec], c % 128 * 4, v, d % 128 * 4);
    } else {
      assert after[at] == disk[at];
    }
  }

  /** fat_set is a map update on cluster numbers; it keeps the mirror equal and touches nothing
      outside the FATs. */
  lemma SetIsUpdate(l: Layout, disk: seq<Sector>, c: nat, v: Word)
    requires DiskOk(l, disk) && c < Entries(l)
    ensures Table(l, SetOnDisk(l, disk, c, v)) == Table(l, disk)[c := v % ENTRY_RANGE]
    ensures Mirrored(l, disk) ==> Mirrored(l, SetOnDisk(l, disk, c, v))
    ensures forall k | 0 <= k < |disk| && !(l.fatStart <= k < l.dataStart) :: SetOnDisk(l, disk, c, v)[k] == disk[k]
  {
    var after := SetOnDisk(l, disk, c, v);
    forall d: nat | d < Entries(l) ensures Table(l, after)[d] == Table(l, disk)[c := v % ENTRY_RANGE][d] {
      SetEntry(l, disk, c, v, d);
    }
    if Mirrored(l, disk) && HasMirror(l) {
      forall k: nat | l.fatStart <= k < l.fatStart + l.fatSize ensures SectorMirrored(l, after, k) {
        assert SectorMirrored(l, disk, k);
      }
    }
  }

  /** A change within the FATs only that keeps the mirror. */
  ghost predicate FatOnly(l: Layout, before: seq<Sector>, after: seq<Sector>)
    requires DiskOk(l, before)
  {
    && |after| == |before|
    && (Mirrored(l, before) ==> Mirrored(l, after))
    && forall k | 0 <= k < |before| && !(l.fatStart <= k < l.dataStart) :: after[k] == before[k]
  }

  /** The bytes of the disk from its beginning. */
  function DiskByte(disk: seq<Sector>, at: nat): Byte
    requires at < 512 * |disk|
  {
    disk[at / 512][at % 512]
  }

  /** The entry of cluster c: the four bytes at 4c in the FAT, lowest first, without the top four bits. */
  lemma EntryBytes(l: Layout, disk: seq<Sector>, c: nat)
    requires DiskOk(l, disk) && c < Entries(l)
    ensures 512 * l.fatStart + 4 * c + 4 <= 512 * |disk|
    ensures var at := 512 * l.fatStart + 4 * c;
            var (a: int, b: int) := (DiskByte(disk, at), DiskByte(disk, at + 1));
            var (x: int, y: int) := (DiskByte(disk, at + 2), DiskByte(disk, at + 3));
            Table(l, disk)[c] == (a + 256 * b + 65536 * x + 16777216 * y) % 0x1000_0000
  {
    var (at, sec, off) := (512 * l.fatStart + 4 * c, l.fatStart + c / 128, c % 128 * 4);
    assert at == 512 * sec + off && off + 4 <= 512;
    PlaceOf(sec, off);
    PlaceOf(sec, off + 1);
    PlaceOf(sec, off + 2);
    PlaceOf(sec, off + 3);
  }

  lemma PlaceOf(sec: nat, off: nat)
    requires off < 512
    ensures (512 * sec + off) / 512 == sec && (512 * sec + off) % 512 == off
  {
  }

  /** fat_set writes those four bytes, top bits included, lowest first. */
  lemma SetBytes(l: Layout, disk: seq<Sector>, c: nat, v: Word)
    requires DiskOk(l, disk) && c < Entries(l)
    ensures 512 * l.fatStart + 4 * c + 4 <= 512 * |disk|
    ensures var (at, after) := (512 * l.fatStart + 4 * c, SetOnDisk(l, disk, c, v));
            var (a: int, b: int) := (DiskByte(after, at), DiskByte(after, at + 1));
            var (x: int, y: int) := (DiskByte(after, at + 2), DiskByte(after, at + 3));
            a + 256 * b + 65536 * x + 16777216 * y == v
  {
    var (at, sec, off) := (512 * l.fatStart + 4 * c, l.fatStart + c / 128, c % 128 * 4);
    assert at == 512 * sec + off && off + 4 <= 512;
    PlaceOf(sec, off);
    PlaceOf(sec, off + 1);
    PlaceOf(sec, off + 2);
    PlaceOf(sec, off + 3);
    JoinBytes(v);
  }

  /** A second FAT gets the same sector; without one, one sector changes. */
  lemma MirrorBytes(l: Layout, disk: seq<Sector>, c: nat, v: Word)
    requires DiskOk(l, disk) && c < Entries(l)
    ensures var (sec, after) := (l.fatStart + c / 128, SetOnDisk(l, disk, c, v));
            && (l.numFats >= 2 ==> sec + l.fatSize < |disk| && after[sec + l.fatSize] == after[sec])
            && forall k | 0 <= k < |disk| && k != sec && !(l.numFats >= 2 && k == sec + l.fatSize) ::
                 after[k] == disk[k]
  {
  }

  /** Chains go on with the cluster numbers from 2 to 0x0FFFFFF7. */
  lemma LiveNumbers(c: nat)
    ensures Live(c) <==> c >= 2 && c <= 0x0FFF_FFF7
  {
  }

  // --- Chains -----------------------------------------------------------------------

  /** The least index from `i` on whose entry is 0, or n. */
  function FirstZero(t: seq<nat>, i: nat, n: nat): (f: nat)
    requires i <= n <= |t|
    ensures i <= f <= n && (f < n ==> t[f] == 0) && forall k | i <= k < f :: t[k] != 0
    decreases n - i
  {
    if i == n || t[i] == 0 then i else FirstZero(t, i + 1, n)
  }

  lemma FirstZeroUnique(t: seq<nat>, i: nat, n: nat, f: nat)
    requires i <= f <= n <= |t| && (f < n ==> t[f] == 0) && forall k | i <= k < f :: t[k] != 0
    ensures FirstZero(t, i, n) == f
  {
    var g := FirstZero(t, i, n);
    assert !(g < f) && !(f < g);
  }

  /** A cluster number the chain loops go on with. */
  predicate Live(c: nat) { 2 <= c < END_OF_CHAIN }

  /** Every entry that the loops would follow is a cluster of the table. */
  ghost predicate InRange(t: seq<nat>) { forall c | 0 <= c < |t| && Live(t[c]) :: t[c] < |t| }

  /** The cluster n links after `c`; a number that is not live has no successor. */
  ghost function Nth(t: seq<nat>, c: nat, n: nat): (r: nat)
    requires InRange(t) && (Live(c) ==> c < |t|)
    ensures Live(r) ==> r < |t|
    decreases n
  {
    if n == 0 || !Live(c) then c else Nth(t, t[c], n - 1)
  }

  ghost predicate Reachable(t: seq<nat>, start: nat, d: nat)
    requires InRange(t) && (Live(start) ==> start < |t|)
  {
    Live(d) && exists n: nat :: Nth(t, start, n) == d
  }

  lemma {:induction false} NthNext(t: seq<nat>, c: nat, n: nat)
    requires InRange(t) && (Live(c) ==> c < |t|)
    ensures var r := Nth(t, c, n); Nth(t, c, n + 1) == if Live(r) then t[r] else r
    decreases n
  {
    if n > 0 && Live(c) { NthNext(t, t[c], n - 1); }
  }

  lemma ReachNext(t: seq<nat>, start: nat, d: nat)
    requires InRange(t) && (Live(start) ==> start < |t|) && Reachable(t, start, d)
    ensures d < |t| && (Live(t[d]) ==> Reachable(t, start, t[d]))
  {
    var n: nat :| Nth(t, start, n) == d;
    NthNext(t, start, n);
  }

  /** Nothing is reachable outside a set that holds the start and is closed under links. */
  lemma {:induction false} ReachStays(t: seq<nat>, c: nat, n: nat, z: set<nat>)
    requires InRange(t) && (Live(c) ==> c < |t| && c in z)
    requires forall d | d in z :: d < |t| && (Live(t[d]) ==> t[d] in z)
    ensures Live(Nth(t, c, n)) ==> Nth(t, c, n) in z
    decreases n
  {
    if n > 0 && Live(c) { ReachStays(t, t[c], n - 1, z); }
  }

  /** What fat32_free_chain should leave: the reachable entries zero, all others as they were. */
  ghost predicate Freed(t: seq<nat>, after: seq<nat>, start: nat)
    requires InRange(t) && (Live(start) ==> start < |t|)
  {
    && |after| == |t|
    && forall d: nat | d < |t| :: after[d] == if Reachable(t, start, d) then 0 else t[d]
  }

  /** The state of fat32_free_chain: the `zeroed` clusters are reachable and all their links lead
      into the set or to the cluster in hand. */
  ghost predicate Freeing(t: seq<nat>, now: seq<nat>, start: nat, cluster: nat, zeroed: set<nat>)
    requires InRange(t) && (Live(start) ==> start < |t|)
  {
    && |now| == |t|
    && (Live(cluster) ==> cluster < |t| && Reachable(t, start, cluster))
    && (forall d | d in zeroed :: d < |t| && Reachable(t, start, d))
    && (forall d | d in zeroed :: Live(t[d]) && t[d] != cluster ==> t[d] in zeroed)
    && (Live(start) && start != cluster ==> start in zeroed)
    && (forall d: nat | d < |t| :: now[d] == if d in zeroed then 0 else t[d])
  }

  lemma FreeStart(t: seq<nat>, start: nat)
    requires InRange(t) && (Live(start) ==> start < |t|)
    ensures Freeing(t, t, start, start, {})
  {
    if Live(start) { assert Nth(t, start, 0) == start; }
  }

  /** The rounds left: a cluster met a second time reads as 0, which ends the loop. */
  ghost function Remaining(t: seq<nat>, zeroed: set<nat>, cluster: nat): nat {
    2 * (if |zeroed| <= |t| then |t| - |zeroed| else 0) + if Live(cluster) then 1 else 0
  }

  lemma FreeStep(t: seq<nat>, now: seq<nat>, start: nat, cluster: nat, zeroed: set<nat>)
    requires InRange(t) && (Live(start) ==> start < |t|)
    requires Freeing(t, now, start, cluster, zeroed) && Live(cluster)
    ensures Freeing(t, now[cluster := 0], start, now[cluster], zeroed + {cluster})
    ensures Remaining(t, zeroed + {cluster}, now[cluster]) < Remaining(t, zeroed, cluster)
  {
    ReachNext(t, start, cluster);
    FewerThan(zeroed + {cluster}, |t|);
    if cluster in zeroed { assert zeroed + {cluster} == zeroed; }
  }

  lemma FreeDone(t: seq<nat>, now: seq<nat>, start: nat, cluster: nat, zeroed: set<nat>)
    requires InRange(t) && (Live(start) ==> start < |t|)
    requires Freeing(t, now, start, cluster, zeroed) && !Live(cluster)
    ensures Freed(t, now, start)
  {
    forall d: nat | d < |t| && Reachable(t, start, d) ensures d in zeroed {
      var n: nat :| Nth(t, start, n) == d;
      ReachStays(t, start, n, zeroed);
    }
  }

  /** `cs` is the chain from its first cluster: each entry names the next, the last one none. */
  ghost predicate IsChain(t: seq<nat>, cs: seq<nat>) {
    && |cs| > 0
    && (forall i | 0 <= i < |cs| :: Live(cs[i]) && cs[i] < |t|)
    && (forall i | 0 <= i < |cs| :: Linked(t, cs, i))
  }

  predicate Linked(t: seq<nat>, cs: seq<nat>, i: nat)
    requires i < |cs| && cs[i] < |t|
  {
    if i == |cs| - 1 then !Live(t[cs[i]]) else t[cs[i]] == cs[i + 1]
  }

  /** A chain that ends visits no cluster twice. */
  lemma {:induction false} ChainDistinct(t: seq<nat>, cs: seq<nat>, i: nat, j: nat)
    requires IsChain(t, cs) && i < j < |cs|
    ensures cs[i] != cs[j]
    decreases |cs| - j
  {
    assert Linked(t, cs, i) && Linked(t, cs, j);
    if cs[i] == cs[j] && j + 1 < |cs| { ChainDistinct(t, cs, i + 1, j + 1); }
  }

  /** Two chains that share no cluster at their ends cannot share one anywhere: a shared cluster
      has one successor, so the chains share their last cluster. */
  lemma {:induction false} SharedTail(t: seq<nat>, cs: seq<nat>, ds: seq<nat>, i: nat, j: nat)
    requires IsChain(t, cs) && IsChain(t, ds) && i < |cs| && j < |ds| && cs[i] == ds[j]
    ensures cs[i..] == ds[j..]
    decreases |cs| - i
  {
    assert Linked(t, cs, i) && Linked(t, ds, j);
    if i + 1 < |cs| {
      SharedTail(t, cs, ds, i + 1, j + 1);
      assert cs[i..] == [cs[i]] + cs[i + 1..] && ds[j..] == [ds[j]] + ds[j + 1..];
    }
  }

  // --- File contents ----------------------------------------------------------------

  /** cluster_to_offset in sectors, with one sector a cluster. */
  function SectorOf(l: Layout, c: nat): nat
    requires c >= 2
  {
    l.dataStart + (c - 2)
  }

  ghost predicate OnDisk(l: Layout, disk: seq<Sector>, cs: seq<nat>) {
    forall i | 0 <= i < |cs| :: 2 <= cs[i] && SectorOf(l, cs[i]) < |disk|
  }

  /** The bytes of the clusters `cs` in order. */
  ghost function Contents(l: Layout, disk: seq<Sector>, cs: seq<nat>): (b: seq<Byte>)
    requires OnDisk(l, disk, cs)
    ensures |b| == 512 * |cs|
  {
    seq(512 * |cs|, i requires 0 <= i < 512 * |cs| => disk[SectorOf(l, cs[i / 512])][i % 512])
  }

  /** Byte i of a file is byte i % 512 of the sector of its cluster, the first data sector being cluster 2. */
  lemma ContentsBytes(l: Layout, disk: seq<Sector>, cs: seq<nat>, i: nat)
    requires OnDisk(l, disk, cs) && i < 512 * |cs|
    ensures var at := 512 * (l.dataStart + cs[i / 512]) - 1024 + i % 512;
            0 <= at < 512 * |disk| && Contents(l, disk, cs)[i] == DiskByte(disk, at)
  {
    var sec := SectorOf(l, cs[i / 512]);
    assert (512 * sec + i % 512) / 512 == sec && (512 * sec + i % 512) % 512 == i % 512;
  }

  function Overwrite<T>(s: seq<T>, off: nat, b: seq<T>): (r: seq<T>)
    requires off + |b| <= |s|
    ensures |r| == |s|
    ensures forall i | 0 <= i < |s| :: r[i] == if off <= i < off + |b| then b[i - off] else s[i]
  {
    s[..off] + b + s[off + |b|..]
  }

  lemma OverwriteMore<T>(s: seq<T>, off: nat, b: seq<T>, n: nat, m: nat)
    requires off + |b| <= |s| && n + m <= |b|
    ensures Overwrite(Overwrite(s, off, b[..n]), off + n, b[n..n + m]) == Overwrite(s, off, b[..n + m])
  {
    var r := Overwrite(Overwrite(s, off, b[..n]), off + n, b[n..n + m]);
    var e := Overwrite(s, off, b[..n + m]);
    forall i | 0 <= i < |s| ensures r[i] == e[i] { }
  }

  /** The sectors of other clusters, and those before the data region, are the same on both disks. */
  ghost predicate SameElsewhere(l: Layout, before: seq<Sector>, after: seq<Sector>, cs: seq<nat>) {
    && |after| == |before|
    && forall k | 0 <= k < |before| && !(k >= l.dataStart && k - l.dataStart + 2 in cs) :: after[k] == before[k]
  }

  /** Files on other chains read the same, and so does the FAT. */
  lemma SameElsewhereKeeps(l: Layout, before: seq<Sector>, after: seq<Sector>, cs: seq<nat>)
    requires SameElsewhere(l, before, after, cs) && DiskOk(l, before)
    ensures Table(l, after) == Table(l, before) && (Mirrored(l, before) ==> Mirrored(l, after))
    ensures forall ds: seq<nat> | OnDisk(l, before, ds) && (forall c | c in ds :: c !in cs) ::
              OnDisk(l, after, ds) && Contents(l, after, ds) == Contents(l, before, ds)
  {
    forall d: nat | d < Entries(l) ensures Table(l, after)[d] == Table(l, before)[d] {
      assert after[l.fatStart + d / 128] == before[l.fatStart + d / 128];
    }
    if Mirrored(l, before) && HasMirror(l) {
      forall k: nat | l.fatStart <= k < l.fatStart + l.fatSize ensures SectorMirrored(l, after, k) {
        assert SectorMirrored(l, before, k);
      }
    }
    forall ds: seq<nat> | OnDisk(l, before, ds) && (forall c | c in ds :: c !in cs)
      ensures OnDisk(l, after, ds) && Contents(l, after, ds) == Contents(l, before, ds)
    {
      OtherContents(l, before, after, cs, ds);
    }
  }

  lemma OtherContents(l: Layout, before: seq<Sector>, after: seq<Sector>, cs: seq<nat>, ds: seq<nat>)
    requires SameElsewhere(l, before, after, cs) && OnDisk(l, before, ds) && forall c | c in ds :: c !in cs
    ensures OnDisk(l, after, ds) && Contents(l, after, ds) == Contents(l, before, ds)
  {
    assert OnDisk(l, after, ds);
    forall i | 0 <= i < 512 * |ds| ensures Contents(l, after, ds)[i] == Contents(l, before, ds)[i] {
      assert ds[i / 512] in ds;
    }
  }

  /** Changing part of the sector of the k-th cluster changes those bytes of the file only. */
  lemma SectorPatched(l: Layout, disk: seq<Sector>, t: seq<nat>, cs: seq<nat>, k: nat, pos: nat, b: seq<Byte>)
    requires OnDisk(l, disk, cs) && IsChain(t, cs) && k < |cs| && pos + |b| <= 512
    ensures var sec := SectorOf(l, cs[k]);
            var after := disk[sec := Overwrite(disk[sec], pos, b)];
            && OnDisk(l, after, cs)
            && Contents(l, after, cs) == Overwrite(Contents(l, disk, cs), 512 * k + pos, b)
            && SameElsewhere(l, disk, after, cs)
  {
    var sec := SectorOf(l, cs[k]);
    var after := disk[sec := Overwrite(disk[sec], pos, b)];
    assert OnDisk(l, after, cs);
    var was := Contents(l, disk, cs);
    forall i | 0 <= i < 512 * |cs| ensures Contents(l, after, cs)[i] == Overwrite(was, 512 * k + pos, b)[i] {
      var j := i / 512;
      if j < k { ChainDistinct(t, cs, j, k); } else if j > k { ChainDistinct(t, cs, k, j); }
    }
    assert cs[k] in cs;
  }

  /** One sector more of a file read in order. */
  lemma ContentsStep(l: Layout, disk: seq<Sector>, cs: seq<nat>, k: nat)
    requires OnDisk(l, disk, cs) && k < |cs|
    ensures Contents(l, disk, cs)[..512 * k] + disk[SectorOf(l, cs[k])] == Contents(l, disk, cs)[..512 * (k + 1)]
  {
  }

  // --- How much is read and written ---------------------------------------------------

  function Rounded(n: nat): (r: nat)
    ensures n <= r < n + 512 && r % 512 == 0
  {
    (n + 511) / 512 * 512
  }

  /** The bytes that fat32_read_file delivers. */
  function Readable(size: nat, bufSize: nat, chain: nat): (n: nat)
    ensures n <= size && n <= bufSize && n <= chain && (n == size || n == bufSize || n == chain)
  {
    var wanted := if size < bufSize then size else bufSize;
    if wanted < chain then wanted else chain
  }

  /** The cast `(int)` of a 32-bit count. */
  function AsInt(n: nat): (i: int)
    ensures -0x8000_0000 <= i < 0x8000_0000 && (i - n) % 0x1_0000_0000 == 0
  {
    var low := n % 0x1_0000_0000;
    if low < 0x8000_0000 then low else low - 0x1_0000_0000
  }

  function NewSize(size: nat, offset: nat, count: nat): nat {
    if count > 0 && offset + count > size then offset + count else size
  }

  /** The first n bytes of the buffer come from the file, the others are as they were. */
  predicate ReadSoFar(buf: seq<Byte>, was: seq<Byte>, file: seq<Byte>, n: nat) {
    n <= |buf| == |was| && n <= |file| && buf[..n] == file[..n] && buf[n..] == was[n..]
  }

  lemma RoundedStep(toRead: nat, k: nat, chain: nat)
    requires k < chain && 512 * k < toRead
    ensures 512 * (k + 1) <= Rounded(if toRead < 512 * chain then toRead else 512 * chain)
  {
  }

  lemma RoundedEnd(n: nat, toRead: nat, k: nat)
    requires n == (if 512 * k < toRead then 512 * k else toRead) && (k > 0 ==> 512 * (k - 1) < toRead)
    ensures Rounded(n) == 512 * k
  {
  }

  /** The driver writes past the size it was given exactly when the file ends inside a cluster and the
      buffer inside the same one. */
  lemma Overruns(size: nat, bufSize: nat, chain: nat)
    requires chain % 512 == 0
    ensures var n := Readable(size, bufSize, chain);
            Rounded(n) > bufSize <==> n % 512 != 0 && bufSize - n < 512 - n % 512
  {
  }

  /** The driver's state; the block device fails only past its end. */
  class Volume {
    const l: Layout
    var disk: seq<Sector>

    ghost predicate Valid()
      reads this
    {
      DiskOk(l, disk)
    }

    constructor (l: Layout, disk: seq<Sector>)
      requires DiskOk(l, disk)
      ensures this.l == l && this.disk == disk && Valid()
    {
      this.l, this.disk := l, disk;
    }

    /** fat_get, for every cluster number.  A sector past the end of the disk cannot be read. */
    method FatGet(cluster: Word) returns (entry: nat)
      requires Valid()
      ensures cluster < 2 ==> entry == NO_ENTRY
      ensures 2 <= cluster < Entries(l) ==> entry == Table(l, disk)[cluster]
      ensures cluster >= 2 ==>
                var at := FatByte(l, cluster);
                entry == if at / 512 < |disk| then WordAt(disk[at / 512], at % 512) % ENTRY_RANGE else NO_ENTRY
    {
      if cluster < 2 { return NO_ENTRY; }
      var fatByte := FatByte(l, cluster);
      if cluster < Entries(l) { InTableByte(l, cluster); }
      if fatByte / 512 >= |disk| { return NO_ENTRY; }
      var sector := disk[fatByte / 512];
      entry := WordAt(sector, fatByte % 512) % ENTRY_RANGE;
    }

    /** fat_set, for every cluster number: `false` is the source's -1.  Past the table it changes the word
        where the entry would be, and the same sector as far behind it as the mirror. */
    method FatSet(cluster: Word, value: Word) returns (ok: bool)
      requires Valid()
      modifies this
      ensures Valid() && ok == (cluster >= 2 && FatByte(l, cluster) / 512 < |old(disk)|)
      ensures disk == if ok then StoreAt(l, old(disk), FatByte(l, cluster), value) else old(disk)
      ensures 2 <= cluster < Entries(l) ==>
                && ok && Table(l, disk) == old(Table(l, disk))[cluster := value % ENTRY_RANGE]
                && FatOnly(l, old(disk), disk)
    {
      if cluster < 2 { return false; }
      var fatByte := FatByte(l, cluster);
      if cluster < Entries(l) {
        InTableByte(l, cluster);
        SetIsUpdate(l, disk, cluster, value);
        StoreIsSet(l, disk, cluster, value);
      }
      var fatSec := fatByte / 512;
      if fatSec >= |disk| { return false; }
      var sector := PutWord(disk[fatSec], fatByte % 512, value);
      disk := disk[fatSec := sector];
      if l.numFats >= 2 && l.fatSize > 0 && fatSec + l.fatSize < |disk| {
        disk := disk[fatSec + l.fatSize := sector];
      }
      ok := true;
    }

    /** The body of the loop of fat32_free_chain. */
    method FreeOne(cluster: Word, ghost t: seq<nat>, ghost start: nat, ghost zeroed: set<nat>) returns (next: nat)
      requires Valid() && InRange(t) && (Live(start) ==> start < |t|) && Live(cluster)
      requires Freeing(t, Table(l, disk), start, cluster, zeroed)
      modifies this
      ensures Valid() && FatOnly(l, old(disk), disk)
      ensures Freeing(t, Table(l, disk), start, next, zeroed + {cluster})
      ensures Remaining(t, zeroed + {cluster}, next) < Remaining(t, zeroed, cluster)
    {
      FreeStep(t, Table(l, disk), start, cluster, zeroed);
      next := FatGet(cluster);
      var _ := FatSet(cluster, 0);
    }

    /** fat32_free_chain: stops on every table, also a cyclic one, and zeroes exactly what is
        reachable from the start. */
    method FreeChain(start: Word)
      requires Valid() && InRange(Table(l, disk)) && (Live(start) ==> start < Entries(l))
      modifies this
      ensures Valid() && Freed(old(Table(l, disk)), Table(l, disk), start)
      ensures FatOnly(l, old(disk), disk)
    {
      ghost var t := Table(l, disk);
      ghost var zeroed: set<nat> := {};
      var cluster: nat := start;
      FreeStart(t, start);
      while cluster >= 2 && cluster < END_OF_CHAIN
        invariant Valid() && FatOnly(l, old(disk), disk)
        invariant Freeing(t, Table(l, disk), start, cluster, zeroed)
        decreases Remaining(t, zeroed, cluster)
      {
        var next := FreeOne(cluster, t, start, zeroed);
        zeroed := zeroed + {cluster};
        cluster := next;
      }
      FreeDone(t, Table(l, disk), start, cluster, zeroed);
    }

    /** fat32_alloc_cluster pairs the entry of cluster f with the number f + 2: it marks and hands
        out a cluster that was free exactly when the entry two further on was 0 as well. */
    method AllocCluster(totalClusters: Word) returns (cluster: Word)
      requires Valid() && 2 + totalClusters <= Entries(l) < 0x1_0000_0000
      modifies this
      ensures Valid()
      ensures var t := old(Table(l, disk));
              var f := FirstZero(t, 0, totalClusters);
              && (cluster == 0 <==> f == totalClusters)
              && (cluster == 0 ==> disk == old(disk))
              && (cluster != 0 ==> cluster == f + 2 && Table(l, disk) == t[f + 2 := 0x0FFF_FFF8])
    {
      ghost var t := Table(l, disk);
      var sec := l.fatStart;
      while sec < l.fatStart + l.fatSize
        invariant l.fatStart <= sec <= l.fatStart + l.fatSize && disk == old(disk)
        invariant forall k | 0 <= k < 128 * (sec - l.fatStart) && k < totalClusters :: t[k] != 0
      {
        var i := ScanSector(sec, totalClusters);
        if i < 128 && 128 * (sec - l.fatStart) + i < totalClusters {
          FirstZeroUnique(t, 0, totalClusters, 128 * (sec - l.fatStart) + i);
          cluster := 128 * (sec - l.fatStart) + 2 + i;
          var _ := FatSet(cluster, END_OF_CHAIN);
          return;
        }
        sec := sec + 1;
      }
      FirstZeroUnique(t, 0, totalClusters, totalClusters);
      return 0;
    }

    /** The inner loop of fat32_alloc_cluster: the first free entry of a sector of the FAT, or the
        place where the loop gives up. */
    method ScanSector(sec: nat, totalClusters: Word) returns (i: nat)
      requires Valid() && l.fatStart <= sec < l.fatStart + l.fatSize && 2 + totalClusters <= Entries(l)
      ensures i <= 128
      ensures var base := 128 * (sec - l.fatStart);
              && (forall k | base <= k < base + i && k < totalClusters :: Table(l, disk)[k] != 0)
              && (i < 128 && base + i < totalClusters ==> Table(l, disk)[base + i] == 0)
    {
      ghost var t := Table(l, disk);
      var base := 128 * (sec - l.fatStart);
      i := 0;
      while i < 128 && base + i < totalClusters
        invariant i <= 128 && forall k | base <= k < base + i && k < totalClusters :: t[k] != 0
      {
        var entry := WordAt(disk[sec], i * 4) % ENTRY_RANGE;
        assert entry == t[base + i] by {
          assert (base + i) / 128 == sec - l.fatStart && (base + i) % 128 == i;
        }
        if entry == 0 { return; }
        i := i + 1;
      }
    }

    /** Since the entry that was found 0 stays 0, a second allocation hands out the same cluster. */
    method AllocTwice(totalClusters: Word) returns (a: Word, b: Word)
      requires Valid() && 2 + totalClusters <= Entries(l) < 0x1_0000_0000
      modifies this
      ensures Valid() && a == b
      ensures a != 0 ==> 2 <= a < Entries(l) && Table(l, disk)[b] == END_OF_CHAIN && Table(l, disk)[a - 2] == 0
    {
      ghost var t := Table(l, disk);
      a := AllocCluster(totalClusters);
      FirstZeroUnique(Table(l, disk), 0, totalClusters, FirstZero(t, 0, totalClusters));
      b := AllocCluster(totalClusters);
    }

    /** fat32_read_file on a file with chain `cs`.  Whole clusters are copied, so that the buffer must hold
        the bytes delivered, rounded up; Overruns says when they are more than bufSize.  A count of 2^31 or
        more comes back negative. */
    method ReadFile(first: Word, size: Word, buf: array<Byte>, bufSize: Word, ghost cs: seq<nat>) returns (n: int)
      requires Valid()
      requires first >= 2 ==> IsChain(Table(l, disk), cs) && OnDisk(l, disk, cs) && cs[0] == first
      requires first >= 2 ==> buf.Length >= Rounded(Readable(size, bufSize, 512 * |cs|))
      modifies buf
      ensures first < 2 ==> n == -1 && buf[..] == old(buf[..])
      ensures first >= 2 ==> n == AsInt(Readable(size, bufSize, 512 * |cs|))
      ensures first >= 2 ==>
                var stored := Rounded(Readable(size, bufSize, 512 * |cs|));
                && stored <= 512 * |cs| && buf[..stored] == Contents(l, disk, cs)[..stored]
                && buf[stored..] == old(buf[stored..])
    {
      if first < 2 { return -1; }
      var toRead := if size < bufSize then size else bufSize;
      var remaining: nat := toRead;
      var cluster: nat := first;
      var offset: nat := 0;
      ghost var k := 0;
      while cluster >= 2 && cluster < END_OF_CHAIN && remaining > 0
        invariant 0 <= k <= |cs| && offset + remaining == toRead
        invariant offset == (if 512 * k < toRead then 512 * k else toRead) && (k > 0 ==> 512 * (k - 1) < toRead)
        invariant if k < |cs| then cluster == cs[k] else !Live(cluster)
        invariant ReadSoFar(buf[..], old(buf[..]), Contents(l, disk, cs), 512 * k)
        decreases |cs| - k
      {
        RoundedStep(toRead, k, |cs|);
        var chunk := if remaining < 512 then remaining else 512;
        CopyCluster(buf, offset, cluster, cs, k, old(buf[..]));
        offset := offset + chunk;
        remaining := remaining - chunk;
        cluster := NextCluster(cluster, cs, k);
        k := k + 1;
      }
      n := AsInt(offset);
      RoundedEnd(offset, toRead, k);
      assert buf[..][..512 * k] == buf[..512 * k] && buf[..][512 * k..] == buf[512 * k..];
    }

    /** fat_get along a chain. */
    method NextCluster(cluster: nat, ghost cs: seq<nat>, ghost k: nat) returns (next: nat)
      requires Valid() && IsChain(Table(l, disk), cs) && k < |cs| && cluster == cs[k]
      ensures if k + 1 < |cs| then next == cs[k + 1] else !Live(next)
    {
      assert Linked(Table(l, disk), cs, k);
      next := FatGet(cluster);
    }

    /** The k-th cluster of a file, copied behind those before it. */
    method CopyCluster(buf: array<Byte>, offset: nat, cluster: nat, ghost cs: seq<nat>, ghost k: nat,
                       ghost was: seq<Byte>)
      requires Valid() && OnDisk(l, disk, cs) && k < |cs| && cluster == cs[k]
      requires offset == 512 * k && offset + 512 <= buf.Length
      requires ReadSoFar(buf[..], was, Contents(l, disk, cs), offset)
      modifies buf
      ensures ReadSoFar(buf[..], was, Contents(l, disk, cs), offset + 512)
    {
      CopySector(buf, offset, disk[SectorOf(l, cluster)]);
      ContentsStep(l, disk, cs, k);
      assert buf[..][..offset + 512] == buf[..offset] + buf[offset..offset + 512];
      assert buf[..][offset + 512..] == was[offset + 512..];
    }

    /** read_sectors of one sector into the caller's buffer. */
    method CopySector(buf: array<Byte>, at: nat, sector: Sector)
      requires at + 512 <= buf.Length
      modifies buf
      ensures buf[..at] == old(buf[..at]) && buf[at..at + 512] == sector && buf[at + 512..] == old(buf[at + 512..])
    {
      forall i | 0 <= i < 512 { buf[at + i] := sector[i]; }
    }

    /** The inner loop of fat32_write_file: the cluster that holds byte `target`. */
    method Forward(first: Word, target: Word, ghost cs: seq<nat>) returns (cur: nat, clustByte: nat)
      requires Valid() && IsChain(Table(l, disk), cs) && cs[0] == first
      requires target < 512 * |cs| && target < 0xFFFF_FE00
      ensures clustByte == target / 512 * 512 && cur == cs[target / 512]
    {
      cur, clustByte := first, 0;
      ghost var k := 0;
      while clustByte + 512 <= target
        invariant 0 <= k < |cs| && clustByte == 512 * k <= target && cur == cs[k]
      {
        cur := NextCluster(cur, cs, k);
        clustByte := clustByte + 512;
        k := k + 1;
      }
    }

    /** fat32_write_file on a file whose chain `cs` covers the range written. */
    method WriteFile(first: Word, size: Word, buf: seq<Byte>, offset: Word, ghost cs: seq<nat>)
      returns (n: int, outSize: nat)
      requires Valid() && IsChain(Table(l, disk), cs) && OnDisk(l, disk, cs) && cs[0] == first
      requires offset + |buf| <= 512 * |cs| && offset + |buf| <= 0xFFFF_FE00
      modifies this
      ensures Valid() && n == AsInt(|buf|)
      ensures outSize == NewSize(size, offset, |buf|)
      ensures outSize == if |buf| == 0 || offset + |buf| <= size then size else offset + |buf|
      ensures OnDisk(l, disk, cs) && Contents(l, disk, cs) == Overwrite(old(Contents(l, disk, cs)), offset, buf)
      ensures SameElsewhere(l, old(disk), disk, cs)
      ensures Table(l, disk) == old(Table(l, disk)) && (old(Mirrored(l, disk)) ==> Mirrored(l, disk))
    {
      ghost var was := Contents(l, disk, cs);
      assert Overwrite(was, offset, buf[..0]) == was;
      if |buf| == 0 {
        SameElsewhereKeeps(l, old(disk), disk, cs);
        return 0, size;
      }
      outSize := if offset + |buf| > size then offset + |buf| else size;
      var written := 0;
      while written < |buf|
        invariant written <= |buf| && Valid()
        invariant SameElsewhere(l, old(disk), disk, cs) && Table(l, disk) == old(Table(l, disk))
        invariant OnDisk(l, disk, cs) && Contents(l, disk, cs) == Overwrite(was, offset, buf[..written])
      {
        written := WriteChunk(first, buf, offset, written, was, cs);
        SameElsewhereKeeps(l, old(disk), disk, cs);
      }
      SameElsewhereKeeps(l, old(disk), disk, cs);
      assert buf[..written] == buf;
      n := AsInt(written);
    }

    /** One round of the loop of fat32_write_file: read a cluster, modify it, write it back. */
    method WriteChunk(first: Word, buf: seq<Byte>, offset: Word, written: nat, ghost was: seq<Byte>, ghost cs: seq<nat>)
      returns (after: nat)
      requires Valid() && IsChain(Table(l, disk), cs) && OnDisk(l, disk, cs) && cs[0] == first
      requires offset + |buf| <= 512 * |cs| && offset + |buf| <= 0xFFFF_FE00
      requires written < |buf| && |was| == 512 * |cs| && Contents(l, disk, cs) == Overwrite(was, offset, buf[..written])
      modifies this
      ensures Valid() && written < after <= |buf|
      ensures OnDisk(l, disk, cs) && Contents(l, disk, cs) == Overwrite(was, offset, buf[..after])
      ensures SameElsewhere(l, old(disk), disk, cs)
    {
      var target := offset + written;
      var cur, clustByte := Forward(first, target, cs);
      var pos := target - clustByte;
      var avail := 512 - pos;
      var toWrite := if |buf| - written > avail then avail else |buf| - written;
      var sec := SectorOf(l, cur);
      var sector: Sector := Overwrite(disk[sec], pos, buf[written..written + toWrite]);
      disk := disk[sec := sector];
      SectorPatched(l, old(disk), Table(l, old(disk)), cs, target / 512, pos, buf[written..written + toWrite]);
      OverwriteMore(was, offset, buf, written, toWrite);
      after := written + toWrite;
    }

    /** Writing and reading back: the old contents with the range replaced, also through the
        buffer of the reader. */
    method WriteThenRead(first: Word, size: Word, data: seq<Byte>, offset: Word, buf: array<Byte>, bufSize: Word,
                         ghost cs: seq<nat>)
      returns (n: int)
      requires Valid() && IsChain(Table(l, disk), cs) && OnDisk(l, disk, cs) && cs[0] == first
      requires offset + |data| <= 512 * |cs| && offset + |data| <= 0xFFFF_FE00 && size <= 512 * |cs|
      requires buf.Length >= Rounded(Readable(NewSize(size, offset, |data|), bufSize, 512 * |cs|))
      modifies this, buf
      ensures var newSize := NewSize(size, offset, |data|);
              var count := if newSize < bufSize then newSize else bufSize;
              && n == AsInt(count)
              && buf[..count] == Overwrite(old(Contents(l, disk, cs)), offset, data)[..count]
    {
      var _, newSize := WriteFile(first, size, data, offset, cs);
      n := ReadFile(first, newSize, buf, bufSize, cs);
    }
  }

  lemma {:induction false} FewerThan(z: set<nat>, n: nat)
    requires forall d | d in z :: d < n
    ensures |z| <= n
    decreases n
  {
    if n > 0 { FewerThan(z - {n - 1}, n - 1); }
  }
}
