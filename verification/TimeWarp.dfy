/**
 Dynamic time warping in the speech recogniser (kernel/audio/stt.c): the table of
 dtw_distance holds, in its last cell, the least total cost over all monotone warping paths,
 and match_utterance picks the first best word.
 */
module TimeWarp {
  import opened Options
  import opened Powers

  const SPECTRUM_BINS := 16
  const TEMPLATE_MAX_FRAMES := 40
  const INFINITE := 0x7FFF_FFFF
  const THRESHOLD := 35

  type Frame = f: seq<nat> | |f| == SPECTRUM_BINS && forall k :: 0 <= k < SPECTRUM_BINS ==> f[k] < 256
    witness seq(SPECTRUM_BINS, _ => 0)

  function Diff(a: nat, b: nat): nat { if a < b then b - a else a - b }

  /** Sum of |difference| over the first `n` bins. */
  function CostUpTo(f: Frame, g: Frame, n: nat): (c: nat)
    requires n <= SPECTRUM_BINS
    ensures c <= 255 * n
  {
    if n == 0 then 0 else CostUpTo(f, g, n - 1) + Diff(f[n - 1], g[n - 1])
  }

  function Cost(f: Frame, g: Frame): (c: nat)
    ensures c <= 255 * SPECTRUM_BINS
  {
    CostUpTo(f, g, SPECTRUM_BINS)
  }

  /** The distance of two bins. */
  function Bin(f: Frame, g: Frame, k: nat): nat
    requires k < 16
  {
    if f[k] >= g[k] then f[k] - g[k] else g[k] - f[k]
  }

  /** The cost of a pair of frames is the sum over the sixteen bins. */
  lemma CostIs(f: Frame, g: Frame)
    ensures Cost(f, g) == Bin(f, g, 0) + Bin(f, g, 1) + Bin(f, g, 2) + Bin(f, g, 3) + Bin(f, g, 4) + Bin(f, g, 5) +
                          Bin(f, g, 6) + Bin(f, g, 7) + Bin(f, g, 8) + Bin(f, g, 9) + Bin(f, g, 10) +
                          Bin(f, g, 11) + Bin(f, g, 12) + Bin(f, g, 13) + Bin(f, g, 14) + Bin(f, g, 15)
  {
    assert CostUpTo(f, g, 2) == Bin(f, g, 0) + Bin(f, g, 1);
    assert CostUpTo(f, g, 4) == CostUpTo(f, g, 2) + Bin(f, g, 2) + Bin(f, g, 3);
    assert CostUpTo(f, g, 6) == CostUpTo(f, g, 4) + Bin(f, g, 4) + Bin(f, g, 5);
    assert CostUpTo(f, g, 8) == CostUpTo(f, g, 6) + Bin(f, g, 6) + Bin(f, g, 7);
    assert CostUpTo(f, g, 10) == CostUpTo(f, g, 8) + Bin(f, g, 8) + Bin(f, g, 9);
    assert CostUpTo(f, g, 12) == CostUpTo(f, g, 10) + Bin(f, g, 10) + Bin(f, g, 11);
    assert CostUpTo(f, g, 14) == CostUpTo(f, g, 12) + Bin(f, g, 12) + Bin(f, g, 13);
    assert CostUpTo(f, g, 16) == CostUpTo(f, g, 14) + Bin(f, g, 14) + Bin(f, g, 15);
  }

  // ----- Warping paths ------------------------------------------------------------------

  type Cell = (nat, nat)

  /** One step: a frame further in one sequence or in both. */
  predicate IsStep(a: Cell, b: Cell) {
    || (b.0 == a.0 + 1 && b.1 == a.1)
    || (b.0 == a.0 && b.1 == a.1 + 1)
    || (b.0 == a.0 + 1 && b.1 == a.1 + 1)
  }

  predicate StepAt(p: seq<Cell>, k: nat)
    requires k + 1 < |p|
  {
    IsStep(p[k], p[k + 1])
  }

  /** A warping path from the first pair of frames to the pair (i, j). */
  predicate IsPath(p: seq<Cell>, i: nat, j: nat) {
    && |p| > 0 && p[0] == (0, 0) && p[|p| - 1] == (i, j)
    && forall k :: 0 <= k < |p| - 1 ==> StepAt(p, k)
  }

  predicate Inside(p: seq<Cell>, n: nat, m: nat) {
    forall k :: 0 <= k < |p| ==> p[k].0 < n && p[k].1 < m
  }

  function PathCost(x: seq<Frame>, y: seq<Frame>, p: seq<Cell>): nat
    requires Inside(p, |x|, |y|)
  {
    if p == [] then 0
    else PathCost(x, y, p[..|p| - 1]) + Cost(x[p[|p| - 1].0], y[p[|p| - 1].1])
  }

  function Min(a: nat, b: nat): (m: nat)
    ensures m <= a && m <= b && (m == a || m == b)
  {
    if b < a then b else a
  }

  /** The recurrence of the table, without its sentinel. */
  function Best(x: seq<Frame>, y: seq<Frame>, i: nat, j: nat): (d: nat)
    requires i < |x| && j < |y|
    ensures d <= (i + j + 1) * 4080
    decreases i + j
  {
    Cost(x[i], y[j]) +
    if i == 0 && j == 0 then 0
    else if i == 0 then Best(x, y, 0, j - 1)
    else if j == 0 then Best(x, y, i - 1, 0)
    else Min(Min(Best(x, y, i - 1, j), Best(x, y, i, j - 1)), Best(x, y, i - 1, j - 1))
  }

  /** Cells of a path are inside the rectangle it spans. */
  lemma {:induction false} CellInside(p: seq<Cell>, i: nat, j: nat, k: nat)
    requires IsPath(p, i, j) && k < |p|
    ensures p[k].0 <= i && p[k].1 <= j
    decreases |p| - k
  {
    if k < |p| - 1 {
      CellInside(p, i, j, k + 1);
      assert StepAt(p, k);
    }
  }

  lemma PathInside(p: seq<Cell>, i: nat, j: nat)
    requires IsPath(p, i, j)
    ensures Inside(p, i + 1, j + 1)
  {
    forall k | 0 <= k < |p| ensures p[k].0 <= i && p[k].1 <= j { CellInside(p, i, j, k); }
  }

  /** No path is cheaper than the recurrence. */
  lemma {:induction false} BestIsLeast(x: seq<Frame>, y: seq<Frame>, p: seq<Cell>, i: nat, j: nat)
    requires i < |x| && j < |y| && IsPath(p, i, j)
    requires Inside(p, |x|, |y|)
    ensures Best(x, y, i, j) <= PathCost(x, y, p)
    decreases |p|
  {
    var n := |p| - 1;
    if n > 0 {
      var q := p[..n];
      var (a, b) := p[n - 1];
      assert StepAt(p, n - 1);
      forall k | 0 <= k < n - 1 ensures StepAt(q, k) { assert StepAt(p, k); }
      assert IsPath(q, a, b);
      BestIsLeast(x, y, q, a, b);
    }
  }

  /** A path goes on to a neighbouring cell at the cost of that cell. */
  lemma ExtendPath(x: seq<Frame>, y: seq<Frame>, q: seq<Cell>, a: nat, b: nat, i: nat, j: nat) returns (p: seq<Cell>)
    requires i < |x| && j < |y| && IsPath(q, a, b) && Inside(q, a + 1, b + 1)
    requires (a == i && b + 1 == j) || (a + 1 == i && b == j) || (a + 1 == i && b + 1 == j)
    ensures IsPath(p, i, j) && Inside(p, i + 1, j + 1)
    ensures PathCost(x, y, p) == Cost(x[i], y[j]) + PathCost(x, y, q)
  {
    p := q + [(i, j)];
    assert p[..|p| - 1] == q;
    forall k | 0 <= k < |p| - 1 ensures StepAt(p, k) {
      if k < |q| - 1 { assert StepAt(q, k); }
    }
  }

  /** Some path costs exactly what the recurrence says. */
  lemma {:induction false} BestIsAttained(x: seq<Frame>, y: seq<Frame>, i: nat, j: nat) returns (p: seq<Cell>)
    requires i < |x| && j < |y|
    ensures IsPath(p, i, j)
    ensures Inside(p, i + 1, j + 1)
    ensures PathCost(x, y, p) == Best(x, y, i, j)
    decreases i + j
  {
    if i == 0 && j == 0 {
      p := [(0, 0)];
      assert p[..0] == [];
    } else {
      var a, b := Predecessor(x, y, i, j);
      var q := BestIsAttained(x, y, a, b);
      p := ExtendPath(x, y, q, a, b, i, j);
    }
  }

  lemma Predecessor(x: seq<Frame>, y: seq<Frame>, i: nat, j: nat) returns (a: nat, b: nat)
    requires i < |x| && j < |y| && i + j > 0
    ensures (a == i && b + 1 == j) || (a + 1 == i && b == j) || (a + 1 == i && b + 1 == j)
    ensures Best(x, y, i, j) == Cost(x[i], y[j]) + Best(x, y, a, b)
  {
    a, b := i, j;
    if i == 0 {
      b := j - 1;
    } else if j == 0 {
      a := i - 1;
    } else {
      var m := Min(Min(Best(x, y, i - 1, j), Best(x, y, i, j - 1)), Best(x, y, i - 1, j - 1));
      if m == Best(x, y, i - 1, j) { a := i - 1; }
      else if m == Best(x, y, i, j - 1) { b := j - 1; }
      else { a, b := i - 1, j - 1; }
    }
  }

  /** `d` is the least total cost of a warping path between the two sequences. */
  ghost predicate IsLeastPathCost(x: seq<Frame>, y: seq<Frame>, d: nat)
    requires |x| > 0 && |y| > 0
  {
    && (exists p: seq<Cell> :: IsPath(p, |x| - 1, |y| - 1) && Inside(p, |x|, |y|) && PathCost(x, y, p) == d)
    && (forall p: seq<Cell> | IsPath(p, |x| - 1, |y| - 1) :: Inside(p, |x|, |y|) && d <= PathCost(x, y, p))
  }

  lemma {:induction false} BestIsLeastPathCost(x: seq<Frame>, y: seq<Frame>)
    requires |x| > 0 && |y| > 0
    ensures IsLeastPathCost(x, y, Best(x, y, |x| - 1, |y| - 1))
  {
    var p := BestIsAttained(x, y, |x| - 1, |y| - 1);
    assert Inside(p, |x|, |y|);
    forall q: seq<Cell> | IsPath(q, |x| - 1, |y| - 1)
      ensures Inside(q, |x|, |y|) && Best(x, y, |x| - 1, |y| - 1) <= PathCost(x, y, q)
    {
      PathInside(q, |x| - 1, |y| - 1);
      BestIsLeast(x, y, q, |x| - 1, |y| - 1);
    }
  }

  // ----- The table ----------------------------------------------------------------------

  function Clip(x: seq<Frame>): seq<Frame> { if |x| > TEMPLATE_MAX_FRAMES then x[..TEMPLATE_MAX_FRAMES] else x }

  /** Cell (i, j) of the finished table: the best cost of the first i and j frames, the
      sentinel along the borders, zero in the corner. */
  function CellValue(x: seq<Frame>, y: seq<Frame>, i: nat, j: nat): (v: nat)
    requires i <= |x| && j <= |y|
  {
    if i == 0 && j == 0 then 0 else if i == 0 || j == 0 then INFINITE else Best(x, y, i - 1, j - 1)
  }

  /** What dtw_distance returns. */
  function Distance(captured: seq<Frame>, tpl: seq<Frame>): nat
    requires |captured| + |tpl| > 0
  {
    var x, y := Clip(captured), Clip(tpl);
    Average(CellValue(x, y, |x|, |y|), |x| + |y|)
  }

  function Average(total: nat, count: nat): nat
    requires count > 0
  {
    total / count
  }

  method LocalCost(f: Frame, g: Frame) returns (cost: nat)
    ensures cost == Cost(f, g)
  {
    cost := 0;
    for b := 0 to SPECTRUM_BINS
      invariant cost == CostUpTo(f, g, b)
    {
      var fb: int, gb: int := f[b], g[b];
      var d := fb - gb;
      if d < 0 { d := -d; }
      cost := cost + d;
    }
  }

  /** One cell from its three neighbours; the minimum is never the sentinel. */
  method Relax(dp: array2<int>, x: seq<Frame>, y: seq<Frame>, i: nat, j: nat)
    requires dp.Length0 == dp.Length1 == TEMPLATE_MAX_FRAMES + 1
    requires |x| <= TEMPLATE_MAX_FRAMES && |y| <= TEMPLATE_MAX_FRAMES
    requires 1 <= i <= |x| && 1 <= j <= |y|
    requires dp[i - 1, j] == CellValue(x, y, i - 1, j) && dp[i, j - 1] == CellValue(x, y, i, j - 1)
    requires dp[i - 1, j - 1] == CellValue(x, y, i - 1, j - 1)
    modifies dp
    ensures dp[i, j] == CellValue(x, y, i, j)
    ensures forall a: nat, b: nat | a < dp.Length0 && b < dp.Length1 && !(a == i && b == j) :: dp[a, b] == old(dp[a, b])
  {
    var cost := LocalCost(x[i - 1], y[j - 1]);
    var m := dp[i - 1, j];
    if dp[i, j - 1] < m { m := dp[i, j - 1]; }
    if dp[i - 1, j - 1] < m { m := dp[i - 1, j - 1]; }
    assert m < INFINITE && cost + m < INFINITE;   // no addition to the sentinel, no overflow
    dp[i, j] := cost + m;
  }

  method DtwDistance(captured: seq<Frame>, tpl: seq<Frame>) returns (score: nat)
    requires |captured| + |tpl| > 0
    ensures score == Distance(captured, tpl)
    // The score averages the least total cost over all warping paths of the first forty frames.
    ensures var x := if |captured| > 40 then captured[..40] else captured;
            var y := if |tpl| > 40 then tpl[..40] else tpl;
            if captured == [] || tpl == [] then score == 0x7FFF_FFFF / (|x| + |y|)
            else exists d: nat :: IsLeastPathCost(x, y, d) && score == d / (|x| + |y|)
  {
    var x, y := Clip(captured), Clip(tpl);
    var dp := new int[TEMPLATE_MAX_FRAMES + 1, TEMPLATE_MAX_FRAMES + 1];
    for i := 0 to |x| + 1
      invariant forall a: nat, b: nat | a < i && b <= |y| :: dp[a, b] == INFINITE
    {
      for j := 0 to |y| + 1
        invariant forall a: nat, b: nat | a < i && b <= |y| :: dp[a, b] == INFINITE
        invariant forall b: nat | b < j :: dp[i, b] == INFINITE
      {
        dp[i, j] := INFINITE;
      }
    }
    dp[0, 0] := 0;
    for i := 1 to |x| + 1
      invariant forall a: nat, b: nat | a < i && b <= |y| :: dp[a, b] == CellValue(x, y, a, b)
      invariant forall a: nat | i <= a <= |x| :: dp[a, 0] == CellValue(x, y, a, 0)
    {
      for j := 1 to |y| + 1
        invariant forall a: nat, b: nat | a < i && b <= |y| :: dp[a, b] == CellValue(x, y, a, b)
        invariant forall a: nat | i <= a <= |x| :: dp[a, 0] == CellValue(x, y, a, 0)
        invariant forall b: nat | b < j :: dp[i, b] == CellValue(x, y, i, b)
      {
        Relax(dp, x, y, i, j);
      }
    }
    score := Average(dp[|x|, |y|], |x| + |y|);
    DistanceMeans(captured, tpl);
  }

  lemma DistanceMeans(captured: seq<Frame>, tpl: seq<Frame>)
    requires |captured| + |tpl| > 0
    ensures var x := if |captured| > 40 then captured[..40] else captured;
            var y := if |tpl| > 40 then tpl[..40] else tpl;
            if captured == [] || tpl == [] then Distance(captured, tpl) == 0x7FFF_FFFF / (|x| + |y|)
            else exists d: nat :: IsLeastPathCost(x, y, d) && Distance(captured, tpl) == d / (|x| + |y|)
  {
    if captured != [] && tpl != [] { BestIsLeastPathCost(Clip(captured), Clip(tpl)); }
  }

  // ----- Matching -----------------------------------------------------------------------

  datatype Entry = Entry(word: string, frames: seq<Frame>)

  /** match_utterance: the first lexicon word with the least score, if that is good enough. */
  method MatchUtterance(captured: seq<Frame>, lexicon: seq<Entry>) returns (r: Option<string>)
    ensures |captured| < 2 ==> r.None?
    ensures r.None? && |captured| >= 2 ==> forall k | 0 <= k < |lexicon| ::
              Distance(captured, lexicon[k].frames) > 35
    ensures r.Some? ==> |captured| >= 2 && exists k ::
              && 0 <= k < |lexicon| && r.value == lexicon[k].word && Distance(captured, lexicon[k].frames) <= 35
              && (forall l | 0 <= l < |lexicon| ::
                    Distance(captured, lexicon[k].frames) <= Distance(captured, lexicon[l].frames))
              && (forall l | 0 <= l < k ::
                    Distance(captured, lexicon[k].frames) < Distance(captured, lexicon[l].frames))
  {
    if |captured| < 2 { return None; }
    var best := INFINITE;
    var word := None;
    ghost var at := 0;
    for i := 0 to |lexicon|
      invariant word.None? ==> i == 0 && best == INFINITE
      invariant word.Some? ==> 0 <= at < i && word.value == lexicon[at].word
      invariant word.Some? ==> best == Distance(captured, lexicon[at].frames)
      invariant word.Some? ==> forall l | 0 <= l < i :: best <= Distance(captured, lexicon[l].frames)
      invariant word.Some? ==> forall l | 0 <= l < at :: best < Distance(captured, lexicon[l].frames)
    {
      var score := DtwDistance(captured, lexicon[i].frames);
      ScoreFinite(captured, lexicon[i].frames);
      if score < best {
        best, word, at := score, Some(lexicon[i].word), i;
      }
    }
    if best > THRESHOLD { return None; }
    return word;
  }

  lemma ScoreFinite(captured: seq<Frame>, tpl: seq<Frame>)
    requires |captured| >= 2
    ensures Distance(captured, tpl) < INFINITE
  {
    var x, y := Clip(captured), Clip(tpl);
    AverageBelow(CellValue(x, y, |x|, |y|), |x| + |y|);
  }

  lemma AverageBelow(total: nat, count: nat)
    requires count >= 2 && total <= INFINITE
    ensures Average(total, count) < INFINITE
  {
    var q := total / count;
    assert total == q * count + total % count;
    MulMono(2, count, q);
  }
}
