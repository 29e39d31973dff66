/**
 Futexes (kernel/exec/futex.c): the array of waiters, the hash buckets of eight entries that
 index it, and the wait and wake operations over both.

 Bit masks are sets of bit numbers.  The reading of the user word and the current pid are
 inputs.
 */
module Futex {
  import opened Options
  import opened SetSizes

  const MAX_FUTEX_WAITERS := 256
  const FUTEX_HASH_BUCKETS := 64
  const BUCKET_SIZE := 8

  datatype Waiter = Waiter(inUse: bool, uaddr: nat, bits: set<nat>, pid: nat)

  function Xor(a: nat, b: nat): nat {
    if a == 0 && b == 0 then 0 else (if a % 2 == b % 2 then 0 else 1) + 2 * Xor(a / 2, b / 2)
  }

  /** futex_hash. */
  function Hash(uaddr: nat): (h: nat)
    ensures h < FUTEX_HASH_BUCKETS
  {
    Mixed(uaddr / 0x1000) % FUTEX_HASH_BUCKETS
  }

  function Mixed(v: nat): nat {
    var w := Xor(v, v / 0x1_0000);
    Xor(w, w / 0x100)
  }

  type Buckets = b: seq<seq<nat>> |
    |b| == FUTEX_HASH_BUCKETS && forall k :: 0 <= k < FUTEX_HASH_BUCKETS ==> |b[k]| == BUCKET_SIZE
    witness seq(FUTEX_HASH_BUCKETS, _ => seq(BUCKET_SIZE, _ => 0))

  /** A non-empty entry names a live waiter that hashes to its bucket ... */
  ghost predicate EntryOk(waiters: seq<Waiter>, b: nat, e: nat) {
    e != 0 ==> e <= |waiters| && waiters[e - 1].inUse && Hash(waiters[e - 1].uaddr) == b
  }

  /** ... and no waiter is named twice. */
  ghost predicate TablesOk(waiters: seq<Waiter>, buckets: Buckets) {
    && |waiters| == MAX_FUTEX_WAITERS
    && (forall b, s | 0 <= b < FUTEX_HASH_BUCKETS && 0 <= s < BUCKET_SIZE :: EntryOk(waiters, b, buckets[b][s]))
    && (forall b | 0 <= b < FUTEX_HASH_BUCKETS :: NoDuplicates(buckets[b]))
  }

  predicate NoDuplicates(bucket: seq<nat>) {
    forall s, t | 0 <= s < t < |bucket| && bucket[s] != 0 :: bucket[s] != bucket[t]
  }

  /** The live waiters that cannot be found through their bucket are exactly `dropped`. */
  ghost predicate Accounts(waiters: seq<Waiter>, buckets: Buckets, dropped: set<nat>) {
    && (forall i | i in dropped :: i < |waiters| && waiters[i].inUse)
    && (forall i: nat | i < |waiters| && waiters[i].inUse ::
          i in dropped <==> i + 1 !in buckets[Hash(waiters[i].uaddr)])
  }

  /** Entries of different buckets name different waiters, since a waiter has one hash. */
  lemma BucketsDisjoint(waiters: seq<Waiter>, buckets: Buckets, b: nat, s: nat, c: nat, t: nat)
    requires TablesOk(waiters, buckets)
    requires b < FUTEX_HASH_BUCKETS && c < FUTEX_HASH_BUCKETS && s < BUCKET_SIZE && t < BUCKET_SIZE
    requires buckets[b][s] != 0 && buckets[b][s] == buckets[c][t]
    ensures b == c && s == t
  {
    assert EntryOk(waiters, b, buckets[b][s]) && EntryOk(waiters, c, buckets[c][t]);
  }

  /** The test of FUTEX_WAKE (no mask) and FUTEX_WAKE_BITSET. */
  predicate Matches(w: Waiter, uaddr: nat, mask: Option<set<nat>>) {
    w.inUse && w.uaddr == uaddr && (mask.Some? ==> w.bits * mask.value != {})
  }

  /** What a linear scan of the waiters would match. */
  function Matching(waiters: seq<Waiter>, uaddr: nat, mask: Option<set<nat>>): set<nat> {
    set i: nat | i < |waiters| && Matches(waiters[i], uaddr, mask)
  }

  /** A waiter matches if it waits on the address and, when bits are asked for, shares one of them. */
  lemma MatchingIs(waiters: seq<Waiter>, uaddr: nat, mask: Option<set<nat>>, i: nat)
    ensures i in Matching(waiters, uaddr, mask) <==>
            && i < |waiters| && waiters[i].inUse && waiters[i].uaddr == uaddr
            && match mask
               case None => true
               case Some(bits) => exists b :: b in bits && b in waiters[i].bits
  {
    if i < |waiters| && mask.Some? {
      if b :| b in mask.value && b in waiters[i].bits { assert b in waiters[i].bits * mask.value; }
    }
  }

  /** Bit k of a number. */
  function Bit(n: nat, k: nat): (b: nat)
    ensures b <= 1
  {
    if k == 0 then n % 2 else Bit(n / 2, k - 1)
  }

  /** Xor adds the bits modulo 2. */
  lemma {:induction false} XorBit(a: nat, b: nat, k: nat)
    ensures Bit(Xor(a, b), k) == (Bit(a, k) + Bit(b, k)) % 2
    decreases k
  {
    if a == 0 && b == 0 {
      ZeroBit(k);
    } else if k > 0 {
      XorBit(a / 2, b / 2, k - 1);
      assert Xor(a, b) / 2 == Xor(a / 2, b / 2);
    }
  }

  lemma {:induction false} ZeroBit(k: nat)
    ensures Bit(0, k) == 0
    decreases k
  {
    if k > 0 { ZeroBit(k - 1); }
  }

  lemma FourBits(n: nat, k: nat)
    ensures Bit(n / 16, k) == Bit(n, k + 4)
  {
    assert n / 2 / 2 / 2 / 2 == n / 16;
    assert Bit(n, k + 4) == Bit(n / 2, k + 3) == Bit(n / 2 / 2, k + 2);
    assert Bit(n / 2 / 2, k + 2) == Bit(n / 2 / 2 / 2, k + 1) == Bit(n / 2 / 2 / 2 / 2, k);
  }

  lemma EightBits(n: nat, k: nat)
    ensures Bit(n / 0x100, k) == Bit(n, k + 8)
  {
    assert n / 16 / 16 == n / 0x100;
    FourBits(n / 16, k);
    FourBits(n, k + 4);
  }

  lemma SixteenBits(n: nat, k: nat)
    ensures Bit(n / 0x1_0000, k) == Bit(n, k + 16)
  {
    assert n / 0x100 / 0x100 == n / 0x1_0000;
    EightBits(n / 0x100, k);
    EightBits(n, k + 8);
  }

  lemma FoldedByte(w: nat, k: nat)
    ensures Bit(Xor(w, w / 0x100), k) == (Bit(w, k) + Bit(w, k + 8)) % 2
  {
    XorBit(w, w / 0x100, k);
    EightBits(w, k);
  }

  lemma FoldedHalf(v: nat, k: nat)
    ensures Bit(Xor(v, v / 0x1_0000), k) == (Bit(v, k) + Bit(v, k + 16)) % 2
  {
    XorBit(v, v / 0x1_0000, k);
    SixteenBits(v, k);
  }

  /** The bucket is the remainder by 64 of a number whose bits mix four bits of the page number, eight apart. */
  lemma HashBits(uaddr: nat, k: nat)
    ensures Hash(uaddr) == Mixed(uaddr / 4096) % 64
    ensures var page := uaddr / 4096;
            Bit(Mixed(page), k) == (Bit(page, k) + Bit(page, k + 8) + Bit(page, k + 16) + Bit(page, k + 24)) % 2
  {
    var page := uaddr / 4096;
    MixedBits(page, Xor(page, page / 0x1_0000), k);
  }

  lemma MixedBits(page: nat, w: nat, k: nat)
    requires w == Xor(page, page / 0x1_0000)
    ensures Bit(Xor(w, w / 0x100), k) ==
            (Bit(page, k) + Bit(page, k + 8) + Bit(page, k + 16) + Bit(page, k + 24)) % 2
  {
    FoldedHalf(page, k);
    FoldedHalf(page, k + 8);
    FoldedByte(w, k);
    Parity(Bit(page, k), Bit(page, k + 16), Bit(page, k + 8), Bit(page, k + 24));
  }

  lemma Parity(a: nat, b: nat, c: nat, d: nat)
    ensures ((a + b) % 2 + (c + d) % 2) % 2 == (a + c + b + d) % 2
  {
  }

  /** Those of them that the bucket of the address names. */
  function Named(waiters: seq<Waiter>, buckets: Buckets, uaddr: nat, mask: Option<set<nat>>): set<nat> {
    set i: nat | i in Matching(waiters, uaddr, mask) && i + 1 in buckets[Hash(uaddr)]
  }

  function Min(a: nat, b: nat): (m: nat)
    ensures m <= a && m <= b && (m == a || m == b)
  {
    if a < b then a else b
  }

  /** The waiters of `woken` released, all others as they were. */
  function Released(waiters: seq<Waiter>, woken: set<nat>): seq<Waiter> {
    seq(|waiters|, i requires 0 <= i < |waiters| => if i in woken then waiters[i].(inUse := false) else waiters[i])
  }

  lemma ReleasedMeans(waiters: seq<Waiter>, woken: set<nat>)
    requires forall i | i in woken :: i < |waiters| && waiters[i].inUse
    ensures var after := Released(waiters, woken);
            forall i | 0 <= i < |waiters| ::
              if i in woken then waiters[i].inUse && !after[i].inUse else after[i] == waiters[i]
  {
  }

  /** A bucket without the entries of `woken`. */
  function Unlinked(bucket: seq<nat>, woken: set<nat>): seq<nat> {
    seq(|bucket|, s requires 0 <= s < |bucket| => if bucket[s] != 0 && bucket[s] - 1 in woken then 0 else bucket[s])
  }

  function SetEntry(buckets: Buckets, b: nat, s: nat, e: nat): Buckets
    requires b < FUTEX_HASH_BUCKETS && s < BUCKET_SIZE
  {
    var row: seq<nat> := buckets[b];
    var row': seq<nat> := row[s := e];
    buckets[b := row']
  }

  /** No entry names a waiter that is not in use. */
  lemma FreeWaiterUnnamed(waiters: seq<Waiter>, buckets: Buckets, i: nat)
    requires TablesOk(waiters, buckets) && i < |waiters| && !waiters[i].inUse
    ensures forall c | 0 <= c < FUTEX_HASH_BUCKETS :: i + 1 !in buckets[c]
  {
    forall c, t | 0 <= c < FUTEX_HASH_BUCKETS && 0 <= t < BUCKET_SIZE ensures buckets[c][t] != i + 1 {
      assert EntryOk(waiters, c, buckets[c][t]);
    }
  }

  lemma WaiterAdded(waiters: seq<Waiter>, buckets: Buckets, i: nat, w: Waiter)
    requires TablesOk(waiters, buckets) && i < |waiters| && !waiters[i].inUse
    ensures TablesOk(waiters[i := w], buckets)
  {
    FreeWaiterUnnamed(waiters, buckets, i);
    forall c, t | 0 <= c < FUTEX_HASH_BUCKETS && 0 <= t < BUCKET_SIZE
      ensures EntryOk(waiters[i := w], c, buckets[c][t])
    {
      assert EntryOk(waiters, c, buckets[c][t]);
      assert buckets[c][t] in buckets[c];
    }
  }

  /** A new waiter whose bucket is full: in use, but dropped. */
  lemma WaiterDropped(waiters: seq<Waiter>, buckets: Buckets, dropped: set<nat>, i: nat, w: Waiter)
    requires TablesOk(waiters, buckets) && Accounts(waiters, buckets, dropped)
    requires i < |waiters| && !waiters[i].inUse && w.inUse
    ensures TablesOk(waiters[i := w], buckets) && Accounts(waiters[i := w], buckets, dropped + {i})
  {
    WaiterAdded(waiters, buckets, i, w);
    FreeWaiterUnnamed(waiters, buckets, i);
  }

  /** A new waiter linked into an empty entry of its bucket: both tables stay in step. */
  lemma WaiterLinked(waiters: seq<Waiter>, buckets: Buckets, dropped: set<nat>, i: nat, w: Waiter, s: nat)
    requires TablesOk(waiters, buckets) && Accounts(waiters, buckets, dropped)
    requires i < |waiters| && !waiters[i].inUse && w.inUse
    requires s < BUCKET_SIZE && buckets[Hash(w.uaddr)][s] == 0
    ensures TablesOk(waiters[i := w], SetEntry(buckets, Hash(w.uaddr), s, i + 1))
    ensures Accounts(waiters[i := w], SetEntry(buckets, Hash(w.uaddr), s, i + 1), dropped)
  {
    var b, now := Hash(w.uaddr), waiters[i := w];
    var t := SetEntry(buckets, b, s, i + 1);
    FreeWaiterUnnamed(waiters, buckets, i);
    WaiterAdded(waiters, buckets, i, w);
    assert NoDuplicates(t[b]);
    forall k: nat | k < |now| && now[k].inUse ensures k in dropped <==> k + 1 !in t[Hash(now[k].uaddr)] {
      if k == i {
        assert t[b][s] == i + 1;
      } else {
        EntryKept(buckets, b, s, i + 1, Hash(now[k].uaddr), k + 1);
      }
    }
  }

  /** Filling an empty entry with another waiter changes nothing about this one. */
  lemma EntryKept(buckets: Buckets, b: nat, s: nat, e: nat, c: nat, x: nat)
    requires b < FUTEX_HASH_BUCKETS && s < BUCKET_SIZE && buckets[b][s] == 0 && c < FUTEX_HASH_BUCKETS
    requires x != 0 && x != e
    ensures x in buckets[c] <==> x in SetEntry(buckets, b, s, e)[c]
  {
    if x in buckets[c] {
      var t :| 0 <= t < BUCKET_SIZE && buckets[c][t] == x;
      assert SetEntry(buckets, b, s, e)[c][t] == x;
    }
  }

  /** Releasing named waiters of one bucket and unlinking them there keeps both tables in step. */
  lemma WaitersReleased(waiters: seq<Waiter>, buckets: Buckets, b: nat, woken: set<nat>)
    requires TablesOk(waiters, buckets) && b < FUTEX_HASH_BUCKETS
    requires forall k | k in woken :: k < |waiters| && Hash(waiters[k].uaddr) == b
    ensures TablesOk(Released(waiters, woken), buckets[b := Unlinked(buckets[b], woken)])
  {
    var w, t := Released(waiters, woken), buckets[b := Unlinked(buckets[b], woken)];
    forall c, s | 0 <= c < FUTEX_HASH_BUCKETS && 0 <= s < BUCKET_SIZE ensures EntryOk(w, c, t[c][s]) {
      assert EntryOk(waiters, c, buckets[c][s]);
    }
  }

  /** ... and drops nobody. */
  lemma ReleasedAccounts(waiters: seq<Waiter>, buckets: Buckets, dropped: set<nat>, b: nat, woken: set<nat>)
    requires Accounts(waiters, buckets, dropped) && b < FUTEX_HASH_BUCKETS
    requires forall k | k in woken :: k < |waiters| && k !in dropped
    ensures Accounts(Released(waiters, woken), buckets[b := Unlinked(buckets[b], woken)], dropped)
  {
    var w, t := Released(waiters, woken), buckets[b := Unlinked(buckets[b], woken)];
    forall k: nat | k < |w| && w[k].inUse ensures k in dropped <==> k + 1 !in t[Hash(w[k].uaddr)] {
      ReleasedLinked(buckets, b, woken, Hash(waiters[k].uaddr), k);
    }
  }

  lemma ReleasedLinked(buckets: Buckets, b: nat, woken: set<nat>, c: nat, k: nat)
    requires b < FUTEX_HASH_BUCKETS && c < FUTEX_HASH_BUCKETS && k !in woken
    ensures k + 1 in buckets[c] <==> k + 1 in buckets[b := Unlinked(buckets[b], woken)][c]
  {
    if k + 1 in buckets[c] {
      var s :| 0 <= s < BUCKET_SIZE && buckets[c][s] == k + 1;
      assert buckets[b := Unlinked(buckets[b], woken)][c][s] == k + 1;
    }
  }

  /** One more waiter of the bucket released. */
  lemma ReleaseOne(waiters: seq<Waiter>, bucket: seq<nat>, woken: set<nat>, k: nat)
    requires k < |waiters|
    ensures Released(waiters, woken)[k := Released(waiters, woken)[k].(inUse := false)] ==
              Released(waiters, woken + {k})
    ensures Unlinked(Unlinked(bucket, woken), {k}) == Unlinked(bucket, woken + {k})
  {
  }

  /** Every matching waiter named in the first `n` entries of the bucket is among the woken. */
  ghost predicate Swept(waiters: seq<Waiter>, bucket: seq<nat>, n: nat, uaddr: nat, mask: Option<set<nat>>,
                        woken: set<nat>)
    requires n <= |bucket|
  {
    forall s | 0 <= s < n && 0 < bucket[s] <= |waiters| && Matches(waiters[bucket[s] - 1], uaddr, mask) ::
      bucket[s] - 1 in woken
  }

  /** The state of the wake loop at entry i: the `woken`, all named and matching, are released from
      both tables, and no match before the entry is left. */
  ghost predicate Sweeping(w0: seq<Waiter>, t0: Buckets, w: seq<Waiter>, t: Buckets, uaddr: nat,
                           mask: Option<set<nat>>, i: nat, woken: set<nat>) {
    && i <= BUCKET_SIZE && woken <= Named(w0, t0, uaddr, mask)
    && w == Released(w0, woken) && t == t0[Hash(uaddr) := Unlinked(t0[Hash(uaddr)], woken)]
    && Swept(w0, t0[Hash(uaddr)], i, uaddr, mask, woken)
  }

  lemma SweptAll(waiters: seq<Waiter>, buckets: Buckets, uaddr: nat, mask: Option<set<nat>>, woken: set<nat>)
    requires Swept(waiters, buckets[Hash(uaddr)], BUCKET_SIZE, uaddr, mask, woken)
    ensures Named(waiters, buckets, uaddr, mask) <= woken
  {
  }

  lemma SweepHit(waiters: seq<Waiter>, buckets: Buckets, i: nat, uaddr: nat, mask: Option<set<nat>>, woken: set<nat>)
    requires var bucket := buckets[Hash(uaddr)];
             i < BUCKET_SIZE && 0 < bucket[i] <= |waiters| && Matches(waiters[bucket[i] - 1], uaddr, mask) &&
             Swept(waiters, bucket, i, uaddr, mask, woken) && woken <= Named(waiters, buckets, uaddr, mask)
    ensures var bucket := buckets[Hash(uaddr)];
            Swept(waiters, bucket, i, uaddr, mask, woken + {bucket[i] - 1}) &&
            woken + {bucket[i] - 1} <= Named(waiters, buckets, uaddr, mask)
  {
    assert buckets[Hash(uaddr)][i] in buckets[Hash(uaddr)];
  }

  lemma SweepMiss(waiters: seq<Waiter>, buckets: Buckets, i: nat, uaddr: nat, mask: Option<set<nat>>, woken: set<nat>)
    requires var bucket := buckets[Hash(uaddr)];
             i < BUCKET_SIZE && Swept(waiters, bucket, i, uaddr, mask, woken) &&
             !(0 < bucket[i] <= |waiters| && bucket[i] - 1 !in woken && Matches(waiters[bucket[i] - 1], uaddr, mask))
    ensures Swept(waiters, buckets[Hash(uaddr)], i + 1, uaddr, mask, woken)
  {
  }

  /** A wake through the bucket falls short of a scan of all waiters exactly when a match was dropped
      and the request goes beyond the matches that were not. */
  lemma WakeShortfall(matching: set<nat>, dropped: set<nat>, val: nat)
    ensures Min(val, |matching - dropped|) == Min(val, |matching|) <==>
            matching * dropped == {} || val <= |matching - dropped|
  {
    assert matching == (matching - dropped) + (matching * dropped);
    assert |matching| == |matching - dropped| + |matching * dropped|;
    if matching * dropped == {} { assert matching - dropped == matching; }
  }

  datatype Request =
    | WaitFor(uaddr: nat, val: nat, userWord: Option<nat>, bits: set<nat>, pid: nat)
    | WakeUp(uaddr: nat, count: int, mask: Option<set<nat>>)

  /** The entries of a bucket in use. */
  function Filled(bucket: seq<nat>): set<nat> { set s: nat | s < |bucket| && bucket[s] != 0 }

  lemma FullIff(bucket: seq<nat>)
    requires |bucket| == BUCKET_SIZE
    ensures 0 !in bucket <==> |Filled(bucket)| == BUCKET_SIZE
    ensures |Filled(bucket)| <= BUCKET_SIZE
  {
    var all: set<nat> := {0, 1, 2, 3, 4, 5, 6, 7};
    assert |all| == BUCKET_SIZE;
    SubsetSize(Filled(bucket), all);
    if 0 in bucket {
      var s :| 0 <= s < |bucket| && bucket[s] == 0;
      SubsetSize(Filled(bucket), all - {s});
    } else {
      assert Filled(bucket) == all;
    }
  }

  lemma MatchingAdded(waiters: seq<Waiter>, i: nat, w: Waiter)
    requires i < |waiters| && !waiters[i].inUse && w.inUse
    ensures |Matching(waiters[i := w], w.uaddr, None)| == |Matching(waiters, w.uaddr, None)| + 1
  {
    var matching := Matching(waiters, w.uaddr, None);
    assert i !in matching && Matching(waiters[i := w], w.uaddr, None) == matching + {i};
  }

  lemma FilledAdded(buckets: Buckets, b: nat, s: nat, e: nat)
    requires b < FUTEX_HASH_BUCKETS && s < BUCKET_SIZE && buckets[b][s] == 0 && e != 0
    ensures |Filled(SetEntry(buckets, b, s, e)[b])| == |Filled(buckets[b])| + 1
  {
    var filled := Filled(buckets[b]);
    assert s !in filled && Filled(SetEntry(buckets, b, s, e)[b]) == filled + {s};
  }

  /** Fewer than 256 live waiters leave a free slot. */
  lemma SomeFree(waiters: seq<Waiter>, uaddr: nat)
    requires |waiters| == MAX_FUTEX_WAITERS && |Matching(waiters, uaddr, None)| < 9
    requires forall i: nat | i < |waiters| && waiters[i].inUse :: waiters[i].uaddr == uaddr
    ensures exists i :: 0 <= i < |waiters| && !waiters[i].inUse
  {
    if forall i | 0 <= i < |waiters| :: waiters[i].inUse {
      var nine: set<nat> := {0, 1, 2, 3, 4, 5, 6, 7, 8};
      assert |nine| == 9;
      SubsetSize(nine, Matching(waiters, uaddr, None));
    }
  }

  class FutexTable {
    var waiters: seq<Waiter>
    var buckets: Buckets
    ghost var dropped: set<nat>   // waiters added while their bucket was full

    ghost predicate Valid()
      reads this
    {
      TablesOk(waiters, buckets) && Accounts(waiters, buckets, dropped)
    }

    constructor ()
      ensures Valid() && dropped == {} && forall i | 0 <= i < MAX_FUTEX_WAITERS :: !waiters[i].inUse
      ensures forall b | 0 <= b < FUTEX_HASH_BUCKETS :: buckets[b] == seq(BUCKET_SIZE, _ => 0)
    {
      waiters := seq(MAX_FUTEX_WAITERS, _ => Waiter(false, 0, {}, 0));
      buckets := seq(FUTEX_HASH_BUCKETS, _ => seq(BUCKET_SIZE, _ => 0));
      dropped := {};
    }

    method AllocWaiter() returns (r: Option<nat>)
      ensures r.None? <==> forall i | 0 <= i < |waiters| :: waiters[i].inUse
      ensures r.Some? ==> r.value < |waiters| && !waiters[r.value].inUse
    {
      for i := 0 to |waiters|
        invariant forall k | 0 <= k < i :: waiters[k].inUse
      {
        if !waiters[i].inUse { return Some(i); }
      }
      return None;
    }

    /** Store the index in the first empty entry `s`; a full bucket drops it silently (s == 8). */
    method BucketAdd(b: nat, idx: nat) returns (ghost s: nat)
      requires b < FUTEX_HASH_BUCKETS
      modifies this`buckets
      ensures s < BUCKET_SIZE <==> 0 in old(buckets)[b]
      ensures s < BUCKET_SIZE ==> old(buckets)[b][s] == 0 && buckets == SetEntry(old(buckets), b, s, idx + 1)
      ensures s >= BUCKET_SIZE ==> buckets == old(buckets)
    {
      for k := 0 to BUCKET_SIZE
        invariant buckets == old(buckets)
        invariant forall j | 0 <= j < k :: buckets[b][j] != 0
      {
        if buckets[b][k] == 0 {
          buckets := SetEntry(buckets, b, k, idx + 1);
          s := k;
          return;
        }
      }
      s := BUCKET_SIZE;
    }

    method BucketRemove(b: nat, idx: nat)
      requires b < FUTEX_HASH_BUCKETS && NoDuplicates(buckets[b])
      modifies this`buckets
      ensures buckets == old(buckets)[b := Unlinked(old(buckets)[b], {idx})]
    {
      for s := 0 to BUCKET_SIZE
        invariant buckets == old(buckets)
        invariant forall k | 0 <= k < s :: buckets[b][k] != idx + 1
      {
        if buckets[b][s] == idx + 1 {
          buckets := SetEntry(buckets, b, s, 0);
          assert buckets[b] == Unlinked(old(buckets)[b], {idx});
          return;
        }
      }
      assert buckets[b] == Unlinked(buckets[b], {idx});
    }

    /** FUTEX_WAIT and FUTEX_WAIT_BITSET up to their task_block.  A new waiter takes slot i and entry
        s of its bucket, or is dropped. */
    method Wait(uaddr: nat, val: nat, userWord: Option<nat>, bits: set<nat>, pid: nat)
      returns (rc: int, ghost i: nat, ghost s: nat)
      requires Valid()
      modifies this
      ensures Valid()
      ensures rc == -14 <==> userWord.None?
      ensures rc == -11 <==> userWord.Some? && userWord.value != val
      ensures rc == -12 <==>
              userWord.Some? && userWord.value == val && forall k | 0 <= k < |old(waiters)| :: old(waiters)[k].inUse
      ensures rc in {0, -11, -12, -14}
      ensures rc != 0 ==> waiters == old(waiters) && buckets == old(buckets) && dropped == old(dropped)
      ensures rc == 0 ==>
                && i < |waiters| && !old(waiters)[i].inUse
                && waiters == old(waiters)[i := Waiter(true, uaddr, bits, pid)]
                && (0 in old(buckets)[Hash(uaddr)] ==>
                      && s < BUCKET_SIZE && old(buckets)[Hash(uaddr)][s] == 0 && dropped == old(dropped)
                      && buckets == SetEntry(old(buckets), Hash(uaddr), s, i + 1))
                && (0 !in old(buckets)[Hash(uaddr)] ==> buckets == old(buckets) && dropped == old(dropped) + {i})
    {
      i, s := 0, 0;
      if userWord.None? { return -14, i, s; }
      if userWord.value != val { return -11, i, s; }
      var slot := AllocWaiter();
      if slot.None? { return -12, i, s; }
      i := slot.value;
      var w := Waiter(true, uaddr, bits, pid);
      waiters := waiters[slot.value := w];
      s := BucketAdd(Hash(uaddr), slot.value);
      if s < BUCKET_SIZE {
        WaiterLinked(old(waiters), old(buckets), dropped, i, w, s);
      } else {
        WaiterDropped(old(waiters), old(buckets), dropped, i, w);
        dropped := dropped + {i};
      }
      rc := 0;
    }

    /** FUTEX_WAKE and FUTEX_WAKE_BITSET.  `val` is the count as the C code compares it: (int)val.  The
        matches that were not dropped are woken, as many as asked for. */
    method Wake(uaddr: nat, val: int, mask: Option<set<nat>>) returns (count: nat, ghost woken: set<nat>)
      requires Valid()
      modifies this`waiters, this`buckets
      ensures Valid()
      ensures woken <= Matching(old(waiters), uaddr, mask) - dropped && |woken| == count
      ensures waiters == Released(old(waiters), woken)
      ensures forall i | 0 <= i < |waiters| ::
                if i in woken then old(waiters)[i].inUse && !waiters[i].inUse else waiters[i] == old(waiters)[i]
      ensures buckets == old(buckets)[Hash(uaddr) := Unlinked(old(buckets)[Hash(uaddr)], woken)]
      ensures count == if val < 0 then 0 else Min(val, |Matching(old(waiters), uaddr, mask) - dropped|)
      // It wakes as many as a linear scan would, except past a dropped match.
      ensures val >= 0 ==>
                var matching := Matching(old(waiters), uaddr, mask);
                count == Min(val, |matching|) <==> matching * dropped == {} || val <= |matching - dropped|
    {
      ghost var done;
      ghost var matching := Matching(waiters, uaddr, mask);
      assert Named(waiters, buckets, uaddr, mask) == matching - dropped;
      count, woken, done := Sweep(uaddr, val, mask);
      WaitersReleased(old(waiters), old(buckets), Hash(uaddr), woken);
      ReleasedAccounts(old(waiters), old(buckets), dropped, Hash(uaddr), woken);
      SubsetSize(woken, matching - dropped);
      if done {
        SweptAll(old(waiters), old(buckets), uaddr, mask, woken);
        assert woken == matching - dropped;
      }
      if val >= 0 { WakeShortfall(matching, dropped, val); }
      ReleasedMeans(old(waiters), woken);
    }

    /** A dropped waiter is woken by no later run of waits and wakes: it stays in its slot for ever. */
    method RunAll(requests: seq<Request>)
      requires Valid()
      modifies this
      ensures Valid() && old(dropped) <= dropped
      ensures forall i | i in old(dropped) :: waiters[i] == old(waiters)[i] && waiters[i].inUse
    {
      for k := 0 to |requests|
        invariant Valid() && old(dropped) <= dropped
        invariant forall i | i in old(dropped) :: waiters[i] == old(waiters)[i]
      {
        match requests[k] {
          case WaitFor(uaddr, val, userWord, bits, pid) =>
            var _, _, _ := Wait(uaddr, val, userWord, bits, pid);
          case WakeUp(uaddr, val, mask) =>
            var _, _ := Wake(uaddr, val, mask);
        }
      }
    }

    /** The table holds n waiters of one process on one address, and nothing else. */
    ghost predicate Queue(uaddr: nat, pid: nat, n: nat)
      reads this
    {
      && Valid() && |Matching(waiters, uaddr, None)| == n
      && (forall i: nat | i < |waiters| && waiters[i].inUse :: waiters[i] == Waiter(true, uaddr, {}, pid))
      && (n <= 8 ==> dropped == {} && |Filled(buckets[Hash(uaddr)])| == n)
      && (n == 9 ==> |dropped| == 1)
    }

    method Enqueue(uaddr: nat, pid: nat, ghost n: nat)
      requires Queue(uaddr, pid, n) && n < 9
      modifies this
      ensures Queue(uaddr, pid, n + 1)
    {
      ghost var b := Hash(uaddr);
      assert 0 in buckets[b] <==> n < 8 by { FullIff(buckets[b]); }
      assert !(forall k | 0 <= k < |waiters| :: waiters[k].inUse) by { SomeFree(waiters, uaddr); }
      ghost var i, s;
      var rc;
      rc, i, s := Wait(uaddr, 0, Some(0), {}, pid);
      MatchingAdded(old(waiters), i, Waiter(true, uaddr, {}, pid));
      if n < 8 { FilledAdded(old(buckets), b, s, i + 1); }
    }

    /** Nine waiters on one address: a wake of nine finds eight, and the ninth stays. */
    method NineWaiters(uaddr: nat, pid: nat) returns (count: nat)
      requires Valid() && dropped == {} && (forall i | 0 <= i < MAX_FUTEX_WAITERS :: !waiters[i].inUse)
      requires buckets[Hash(uaddr)] == seq(BUCKET_SIZE, _ => 0)
      modifies this
      ensures Valid() && count == 8 && |dropped| == 1
      ensures forall i | i in dropped :: i < |waiters| && waiters[i] == Waiter(true, uaddr, {}, pid)
    {
      assert Filled(buckets[Hash(uaddr)]) == {} && Matching(waiters, uaddr, None) == {};
      for n := 0 to 9
        invariant Queue(uaddr, pid, n)
      {
        Enqueue(uaddr, pid, n);
      }
      ghost var matching := Matching(waiters, uaddr, None);
      assert dropped <= matching;
      assert matching == (matching - dropped) + dropped;
      assert |matching| == |matching - dropped| + |dropped|;
      ghost var woken;
      count, woken := Wake(uaddr, 9, None);
    }

    /** The wake loop: it ends with the bucket swept (`done`) or with enough waiters woken. */
    method Sweep(uaddr: nat, val: int, mask: Option<set<nat>>)
      returns (count: nat, ghost woken: set<nat>, ghost done: bool)
      requires TablesOk(waiters, buckets)
      modifies this`waiters, this`buckets
      ensures woken <= Named(old(waiters), old(buckets), uaddr, mask) && |woken| == count
      ensures waiters == Released(old(waiters), woken)
      ensures buckets == old(buckets)[Hash(uaddr) := Unlinked(old(buckets)[Hash(uaddr)], woken)]
      ensures if val < 0 then count == 0 else count <= val && (done || count == val)
      ensures done ==> Swept(old(waiters), old(buckets)[Hash(uaddr)], BUCKET_SIZE, uaddr, mask, woken)
    {
      var b := Hash(uaddr);
      count, woken := 0, {};
      ghost var w0, t0 := waiters, buckets;
      assert w0 == Released(w0, {}) && t0[b] == Unlinked(t0[b], {}) && t0[b := t0[b]] == t0;
      var i := 0;
      while i < BUCKET_SIZE && count < val
        invariant 0 <= i <= BUCKET_SIZE && |woken| == count && (0 <= val ==> count <= val) && (val < 0 ==> count == 0)
        invariant Sweeping(w0, t0, waiters, buckets, uaddr, mask, i, woken)
        decreases BUCKET_SIZE - i, if i < BUCKET_SIZE && buckets[b][i] != 0 then 1 else 0
      {
        var hit;
        hit, woken := SweepStep(uaddr, i, mask, woken, w0, t0);
        if hit { count := count + 1; } else { i := i + 1; }
      }
      done := i == BUCKET_SIZE;
    }

    /** One round of the wake loop: the entry is woken and looked at again, or passed. */
    method SweepStep(uaddr: nat, i: nat, mask: Option<set<nat>>, ghost woken: set<nat>, ghost w0: seq<Waiter>,
                     ghost t0: Buckets)
      returns (hit: bool, ghost after: set<nat>)
      requires TablesOk(w0, t0) && i < BUCKET_SIZE && Sweeping(w0, t0, waiters, buckets, uaddr, mask, i, woken)
      modifies this`waiters, this`buckets
      ensures hit ==> |after| == |woken| + 1 && old(buckets)[Hash(uaddr)][i] != 0 && buckets[Hash(uaddr)][i] == 0
      ensures !hit ==> after == woken && buckets == old(buckets)
      ensures Sweeping(w0, t0, waiters, buckets, uaddr, mask, if hit then i else i + 1, after)
    {
      var b := Hash(uaddr);
      after := woken;
      hit := WakeEntry(b, i, uaddr, mask, woken, w0, t0);
      if hit {
        SweepHit(w0, t0, i, uaddr, mask, woken);
        after := woken + {t0[b][i] - 1};
      } else {
        SweepMiss(w0, t0, i, uaddr, mask, woken);
      }
    }

    /** The body of the wake loop at entry `i`: release the waiter if it matches. */
    method WakeEntry(b: nat, i: nat, uaddr: nat, mask: Option<set<nat>>,
                     ghost woken: set<nat>, ghost w0: seq<Waiter>, ghost t0: Buckets) returns (hit: bool)
      requires TablesOk(w0, t0) && b == Hash(uaddr) && i < BUCKET_SIZE && woken <= Named(w0, t0, uaddr, mask)
      requires waiters == Released(w0, woken) && buckets == t0[b := Unlinked(t0[b], woken)]
      modifies this`waiters, this`buckets
      ensures hit <==> 0 < t0[b][i] <= |w0| && t0[b][i] - 1 !in woken && Matches(w0[t0[b][i] - 1], uaddr, mask)
      ensures hit ==> waiters == Released(w0, woken + {t0[b][i] - 1})
      ensures hit ==> buckets == t0[b := Unlinked(t0[b], woken + {t0[b][i] - 1})]
      ensures hit ==> old(buckets)[b][i] != 0 && buckets[b][i] == 0
      ensures !hit ==> waiters == old(waiters) && buckets == old(buckets)
    {
      assert EntryOk(w0, b, t0[b][i]);
      var e := buckets[b][i];
      hit := e != 0 && Matches(waiters[e - 1], uaddr, mask);
      if hit {
        var idx := e - 1;
        assert NoDuplicates(buckets[b]) by { WaitersReleased(w0, t0, b, woken); }
        ReleaseOne(w0, t0[b], woken, idx);
        waiters := waiters[idx := waiters[idx].(inUse := false)];
        BucketRemove(b, idx);
      }
    }
  }
}
