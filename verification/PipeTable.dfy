/**
 The global tables of pipes and pipe descriptors (kernel/exec/pipe.c): pipe_create and
 pipe_close.  A free pipe always leaves two free descriptors, so pipe_create fails exactly
 when all sixteen pipes are in use.
 */
module PipeTable {
  import opened Options
  import opened SetSizes

  const MAX_PIPES := 16
  const MAX_PIPE_FDS := 32
  const PIPE_FD_BASE := 200

  datatype Ends = Ends(inUse: bool, readOpen: bool, writeOpen: bool)
  datatype Descriptor = Descriptor(inUse: bool, pipe: nat, isWriteEnd: bool)

  /** Each descriptor in use names an open end of a pipe in use, and no two name the same end. */
  ghost predicate TablesOk(pipes: seq<Ends>, fds: seq<Descriptor>) {
    && |pipes| == MAX_PIPES && |fds| == MAX_PIPE_FDS
    && (forall i | 0 <= i < |fds| && fds[i].inUse ::
          fds[i].pipe < MAX_PIPES && pipes[fds[i].pipe].inUse &&
          if fds[i].isWriteEnd then pipes[fds[i].pipe].writeOpen else pipes[fds[i].pipe].readOpen)
    && (forall i, j | 0 <= i < j < |fds| && fds[i].inUse && fds[j].inUse ::
          !(fds[i].pipe == fds[j].pipe && fds[i].isWriteEnd == fds[j].isWriteEnd))
    // A pipe is released with its last end.
    && (forall p | 0 <= p < |pipes| && pipes[p].inUse :: pipes[p].readOpen || pipes[p].writeOpen)
  }

  /** The end a descriptor names, as one of 32 numbers. */
  function End(d: Descriptor): nat { 2 * d.pipe + if d.isWriteEnd then 1 else 0 }

  function InUse(fds: seq<Descriptor>): set<nat> { set i: nat | i < |fds| && fds[i].inUse }

  /** The numbers below n. */
  function Below(n: nat): (r: set<nat>)
    ensures |r| == n && forall i: nat :: i in r <==> i < n
  {
    if n == 0 then {} else Below(n - 1) + {n - 1}
  }

  /** Descriptors that name different ends are no more than the ends they can name. */
  lemma {:induction false} Injection(fds: seq<Descriptor>, a: set<nat>, b: set<nat>)
    requires forall i | i in a :: i < |fds| && End(fds[i]) in b
    requires forall i, j | i in a && j in a && i != j :: End(fds[i]) != End(fds[j])
    ensures |a| <= |b|
    decreases a
  {
    if a != {} {
      var i :| i in a;
      Injection(fds, a - {i}, b - {End(fds[i])});
    }
  }

  /** With pipe `p` free, at least two descriptors are free. */
  lemma FreePipeLeavesDescriptors(pipes: seq<Ends>, fds: seq<Descriptor>, p: nat)
    requires TablesOk(pipes, fds) && p < MAX_PIPES && !pipes[p].inUse
    ensures |InUse(fds)| <= MAX_PIPE_FDS - 2
  {
    var ends := OtherEnds(|fds|, p);
    forall i | i in InUse(fds) ensures End(fds[i]) in ends { assert fds[i].pipe != p; }
    Injection(fds, InUse(fds), ends);
  }

  /** The n ends but for the two of pipe p. */
  lemma OtherEnds(n: nat, p: nat) returns (ends: set<nat>)
    requires 2 * p + 1 < n
    ensures |ends| == n - 2 && forall e: nat :: e in ends <==> e < n && e / 2 != p
  {
    ends := Below(n) - {2 * p, 2 * p + 1};
    assert Below(n) == ends + {2 * p, 2 * p + 1};
    assert |ends + {2 * p, 2 * p + 1}| == |ends| + |{2 * p, 2 * p + 1}|;
  }

  lemma AllButOne(fds: seq<Descriptor>, x: nat)
    requires |fds| == MAX_PIPE_FDS && forall y | 0 <= y < |fds| && y != x :: fds[y].inUse
    ensures |InUse(fds)| >= MAX_PIPE_FDS - 1
  {
    assert |Below(MAX_PIPE_FDS) - {x}| >= MAX_PIPE_FDS - 1;
    SubsetSize(Below(MAX_PIPE_FDS) - {x}, InUse(fds));
  }

  class Tables {
    var pipes: seq<Ends>
    var fds: seq<Descriptor>

    ghost predicate Valid()
      reads this
    {
      TablesOk(pipes, fds)
    }

    constructor ()
      ensures Valid() && |pipes| == 16 && |fds| == 32 && forall p | 0 <= p < MAX_PIPES :: !pipes[p].inUse
    {
      pipes := seq(MAX_PIPES, _ => Ends(false, false, false));
      fds := seq(MAX_PIPE_FDS, _ => Descriptor(false, 0, false));
    }

    /** First free index, and the first free one after it, or the table size. */
    method FindTwoFree() returns (r: nat, w: nat)
      requires |fds| == MAX_PIPE_FDS
      ensures r <= w <= MAX_PIPE_FDS && (r == w ==> r == MAX_PIPE_FDS)
      ensures r < MAX_PIPE_FDS ==> !fds[r].inUse
      ensures w < MAX_PIPE_FDS ==> !fds[w].inUse
      ensures forall i | 0 <= i < w && i != r :: fds[i].inUse
    {
      r, w := MAX_PIPE_FDS, MAX_PIPE_FDS;
      for i := 0 to MAX_PIPE_FDS
        invariant r <= MAX_PIPE_FDS && w == MAX_PIPE_FDS && (r < MAX_PIPE_FDS ==> r < i && !fds[r].inUse)
        invariant forall k | 0 <= k < i && k != r :: fds[k].inUse
      {
        if !fds[i].inUse {
          if r == MAX_PIPE_FDS {
            r := i;
          } else {
            w := i;
            return;
          }
        }
      }
    }

    method PipeCreate() returns (res: Option<(nat, nat)>)
      requires Valid()
      modifies this
      ensures Valid()
      ensures res.None? <==> forall p | 0 <= p < MAX_PIPES :: old(pipes)[p].inUse
      ensures res.None? ==> pipes == old(pipes) && fds == old(fds)
      ensures res.Some? ==> 200 <= res.value.0 < res.value.1 < 232
      ensures res.Some? ==>
                var (r, w) := (res.value.0 - PIPE_FD_BASE, res.value.1 - PIPE_FD_BASE);
                && 0 <= r < w < MAX_PIPE_FDS && !old(fds)[r].inUse && !old(fds)[w].inUse
                && exists p :: 0 <= p < MAX_PIPES && !old(pipes)[p].inUse &&
                     pipes == old(pipes)[p := Ends(true, true, true)] &&
                     fds == old(fds)[r := Descriptor(true, p, false)][w := Descriptor(true, p, true)]
    {
      var pi := 0;
      while pi < MAX_PIPES && pipes[pi].inUse
        invariant pi <= MAX_PIPES && forall p | 0 <= p < pi :: pipes[p].inUse
      {
        pi := pi + 1;
      }
      if pi == MAX_PIPES { return None; }
      var r, w := FindTwoFree();
      // The source undoes its work here when it finds fewer than two descriptors; it never does.
      assert w < MAX_PIPE_FDS by {
        FreePipeLeavesDescriptors(pipes, fds, pi);
        if w == MAX_PIPE_FDS { AllButOne(fds, r); }
      }
      pipes := pipes[pi := Ends(true, true, true)];
      fds := fds[r := Descriptor(true, pi, false)][w := Descriptor(true, pi, true)];
      return Some((r + PIPE_FD_BASE, w + PIPE_FD_BASE));
    }

    predicate IsPipeFd(fd: int)
      requires |fds| == MAX_PIPE_FDS
      reads this
    {
      PIPE_FD_BASE <= fd < PIPE_FD_BASE + MAX_PIPE_FDS && fds[fd - PIPE_FD_BASE].inUse
    }

    method PipeClose(fd: int) returns (rc: int)
      requires Valid()
      modifies this
      ensures Valid()
      ensures rc == if old(IsPipeFd(fd)) then 0 else -1
      ensures rc == -1 ==> pipes == old(pipes) && fds == old(fds)
      ensures rc == 0 ==>
                var i := fd - PIPE_FD_BASE;
                var d := old(fds)[i];
                var p := old(pipes)[d.pipe];
                && fds == old(fds)[i := d.(inUse := false)]
                && pipes == old(pipes)[d.pipe :=
                     var q := if d.isWriteEnd then p.(writeOpen := false) else p.(readOpen := false);
                     if q.readOpen || q.writeOpen then q else q.(inUse := false)]
    {
      if !IsPipeFd(fd) { return -1; }
      var i := fd - PIPE_FD_BASE;
      var d := fds[i];
      var p := pipes[d.pipe];
      if d.isWriteEnd { p := p.(writeOpen := false); } else { p := p.(readOpen := false); }
      fds := fds[i := d.(inUse := false)];
      if !p.readOpen && !p.writeOpen { p := p.(inUse := false); }
      pipes := pipes[d.pipe := p];
      return 0;
    }
  }
}
