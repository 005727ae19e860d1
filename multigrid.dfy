/**
 * The multigrid V-cycle driver Multigrid<VECTOR>: set_edge_matrices,
 * level_mgstep and vcycle.
 *
 * Vectors are sequences of reals. The level matrix, the transfer, the two
 * smoothers, the coarse solver and the optional edge operators are supplied
 * by the caller as functions; the model only knows their size contracts
 * (OperatorsFit, EdgesFit). The per-level arrays solution, t and defect are
 * sequences of vectors indexed by level, as MGLevelObject indexes them by
 * level; entries below minlevel are not used.
 *
 * What one call of level_mgstep does to the three arrays is the function
 * Step; which backend calls it makes, in which order, is StepCalls.
 * Multigrid.LevelMgStep is proved to do exactly Step and to make exactly
 * the calls StepCalls lists; the lemmas below state what Step and StepCalls
 * guarantee.
 */
module Multigrid {

  type Vec = seq<real>

  /** The vector of length n with every entry zero (`v = 0.` keeps the size). */
  function Zero(n: nat): (z: Vec)
    ensures |z| == n
  {
    if n == 0 then [] else [0.0] + Zero(n - 1)
  }

  /** In-place addition `a += b` of two vectors of the same size. */
  function Add(a: Vec, b: Vec): (r: Vec)
    requires |a| == |b|
    ensures |r| == |a|
  {
    if |a| == 0 then [] else [a[0] + b[0]] + Add(a[1..], b[1..])
  }

  /** In-place subtraction `a -= b` of two vectors of the same size. */
  function Sub(a: Vec, b: Vec): (r: Vec)
    requires |a| == |b|
    ensures |r| == |a|
  {
    if |a| == 0 then [] else [a[0] - b[0]] + Sub(a[1..], b[1..])
  }

  lemma {:induction false} ZeroAt(n: nat, i: nat)
    requires i < n
    ensures Zero(n)[i] == 0.0
  {
    if i > 0 {
      ZeroAt(n - 1, i - 1);
    }
  }

  lemma {:induction false} AddAt(a: Vec, b: Vec, i: nat)
    requires |a| == |b| && i < |a|
    ensures Add(a, b)[i] == a[i] + b[i]
  {
    if i > 0 {
      AddAt(a[1..], b[1..], i - 1);
    }
  }

  lemma {:induction false} SubAt(a: Vec, b: Vec, i: nat)
    requires |a| == |b| && i < |a|
    ensures Sub(a, b)[i] == a[i] - b[i]
  {
    if i > 0 {
      SubAt(a[1..], b[1..], i - 1);
    }
  }

  /** Adding to a zeroed vector copies: `t = 0; t += b` leaves t == b. */
  lemma AddZero(n: nat, b: Vec)
    requires |b| == n
    ensures Add(Zero(n), b) == b
  {
    forall i | 0 <= i < n ensures Add(Zero(n), b)[i] == b[i] {
      AddAt(Zero(n), b, i);
      ZeroAt(n, i);
    }
  }

  datatype Option<T> = None | Some(value: T)

  /** An operator applied on a level: `op.vmult(level, dst, src)` overwrites dst. */
  type LevelMap = (nat, Vec) -> Vec

  /**
   * The caller-supplied collaborators. dofs(l) is the number of degrees of
   * freedom on level l; restrict(l, v) is what transfer.restrict_and_add(l,
   * dst, v) adds to dst; prolongate(l, v) is what transfer.prolongate(l, dst,
   * v) writes to dst; a smoother maps (level, solution, defect) to the new
   * solution; coarse maps (level, solution, defect) to the coarse solution.
   */
  datatype Operators = Operators(
    dofs: nat -> nat,
    matrix: LevelMap,
    restrict: LevelMap,
    prolongate: LevelMap,
    preSmooth: (nat, Vec, Vec) -> Vec,
    postSmooth: (nat, Vec, Vec) -> Vec,
    coarse: (nat, Vec, Vec) -> Vec)

  /** The size contracts of the collaborators. */
  ghost predicate OperatorsFit(o: Operators)
  {
    && (forall l, v :: |v| == o.dofs(l) ==> |o.matrix(l, v)| == o.dofs(l))
    && (forall l, v :: 0 < l && |v| == o.dofs(l) ==> |o.restrict(l, v)| == o.dofs(l - 1))
    && (forall l, v :: 0 < l && |v| == o.dofs(l - 1) ==> |o.prolongate(l, v)| == o.dofs(l))
    && (forall l, x, d :: |x| == o.dofs(l) && |d| == o.dofs(l) ==> |o.preSmooth(l, x, d)| == o.dofs(l))
    && (forall l, x, d :: |x| == o.dofs(l) && |d| == o.dofs(l) ==> |o.postSmooth(l, x, d)| == o.dofs(l))
    && (forall l, x, d :: |x| == o.dofs(l) && |d| == o.dofs(l) ==> |o.coarse(l, x, d)| == o.dofs(l))
  }

  /** The configuration one V-cycle runs with. */
  datatype Cycle = Cycle(minlevel: nat, ops: Operators, edgeDown: Option<LevelMap>, edgeUp: Option<LevelMap>)

  /** edge_down.vmult maps level l to level l-1, edge_up.Tvmult level l-1 to level l. */
  ghost predicate EdgesFit(c: Cycle)
  {
    && (c.edgeDown.Some? ==>
          forall l, v :: 0 < l && |v| == c.ops.dofs(l) ==> |c.edgeDown.value(l, v)| == c.ops.dofs(l - 1))
    && (c.edgeUp.Some? ==>
          forall l, v :: 0 < l && |v| == c.ops.dofs(l - 1) ==> |c.edgeUp.value(l, v)| == c.ops.dofs(l))
  }

  ghost predicate Fits(c: Cycle)
  {
    OperatorsFit(c.ops) && EdgesFit(c)
  }

  /** The three per-level arrays of the driver. */
  type Levels = seq<Vec>

  datatype LevelVectors = LevelVectors(solution: Levels, t: Levels, defect: Levels)

  /** Level l is present in all three arrays, each vector sized for level l. */
  ghost predicate SizedAt(c: Cycle, s: LevelVectors, l: nat)
  {
    && l < |s.solution| && l < |s.t| && l < |s.defect|
    && |s.solution[l]| == c.ops.dofs(l)
    && |s.t[l]| == c.ops.dofs(l)
    && |s.defect[l]| == c.ops.dofs(l)
  }

  /** Every level from minlevel to hi is sized. */
  ghost predicate Sized(c: Cycle, s: LevelVectors, hi: nat)
  {
    forall l: nat :: c.minlevel <= l <= hi ==> SizedAt(c, s, l)
  }

  /** r holds the same vectors as s at level l. */
  ghost predicate Agree(s: LevelVectors, r: LevelVectors, l: nat)
  {
    && (l < |s.solution| ==> l < |r.solution| && r.solution[l] == s.solution[l])
    && (l < |s.t| ==> l < |r.t| && r.t[l] == s.t[l])
    && (l < |s.defect| ==> l < |r.defect| && r.defect[l] == s.defect[l])
  }

  ghost predicate SameLevels(s: LevelVectors, r: LevelVectors)
  {
    |r.solution| == |s.solution| && |r.t| == |s.t| && |r.defect| == |s.defect|
  }

  /**
   * One pass of the restriction loop of level_mgstep(L) with loop variable l:
   * t[l-1] is zeroed (overwritten by edge_down.vmult on the first pass when
   * edge_down is set), the restriction of t[l] is added to it and the result
   * is subtracted from defect[l-1].
   */
  function CascadeStep(c: Cycle, L: nat, l: nat, s: LevelVectors): (r: LevelVectors)
    requires Fits(c) && c.minlevel < l <= L && Sized(c, s, L)
    ensures Sized(c, r, L) && SameLevels(s, r) && r.solution == s.solution
    ensures forall k: nat :: k != l - 1 ==> Agree(s, r, k)
  {
    assert SizedAt(c, s, L) && SizedAt(c, s, l) && SizedAt(c, s, l - 1);
    var first := if l == L && c.edgeDown.Some? then c.edgeDown.value(L, s.solution[L]) else Zero(|s.t[l - 1]|);
    var tl := Add(first, c.ops.restrict(l, s.t[l]));
    var r := s.(t := s.t[l - 1 := tl], defect := s.defect[l - 1 := Sub(s.defect[l - 1], tl)]);
    assert forall k: nat :: c.minlevel <= k <= L ==> SizedAt(c, r, k) by {
      forall k | c.minlevel <= k <= L ensures SizedAt(c, r, k) {
        assert SizedAt(c, s, k);
      }
    }
    r
  }

  /**
   * The state after the restriction loop of level_mgstep(L) has run its
   * passes for L, L-1, ..., l+1 (the loop variable now being l).
   */
  function Cascade(c: Cycle, L: nat, l: nat, s: LevelVectors): (r: LevelVectors)
    requires Fits(c) && c.minlevel <= l <= L && Sized(c, s, L)
    ensures Sized(c, r, L) && SameLevels(s, r) && r.solution == s.solution
    ensures forall k: nat :: (k < l || L <= k) ==> Agree(s, r, k)
    decreases L - l
  {
    if l == L then s
    else
      var mid := Cascade(c, L, l + 1, s);
      var r := CascadeStep(c, L, l + 1, mid);
      assert forall k: nat :: (k < l || L <= k) ==> Agree(s, r, k) by {
        forall k: nat | k < l || L <= k ensures Agree(s, r, k) {
          assert Agree(s, mid, k) && Agree(mid, r, k);
        }
      }
      r
  }

  /** What the restriction loop leaves in t[k] and defect[k], for l <= k < L. */
  ghost predicate Restricted(c: Cycle, L: nat, k: nat, s: LevelVectors, r: LevelVectors)
    requires Fits(c) && c.minlevel <= k < L && Sized(c, s, L) && Sized(c, r, L)
  {
    assert SizedAt(c, s, L) && SizedAt(c, s, k) && SizedAt(c, r, k) && SizedAt(c, r, k + 1);
    var first := if k == L - 1 && c.edgeDown.Some? then c.edgeDown.value(L, s.solution[L]) else Zero(c.ops.dofs(k));
    && r.t[k] == Add(first, c.ops.restrict(k + 1, r.t[k + 1]))
    && r.defect[k] == Sub(s.defect[k], r.t[k])
  }

  /** Sizes carry over from s to r when r differs from s only at level j, where it is sized. */
  lemma SizedExcept(c: Cycle, s: LevelVectors, r: LevelVectors, hi: nat, j: nat)
    requires Sized(c, s, hi) && SizedAt(c, r, j)
    requires forall k: nat :: k != j ==> Agree(s, r, k)
    ensures Sized(c, r, hi)
  {
    forall k | c.minlevel <= k <= hi ensures SizedAt(c, r, k) {
      if k != j {
        assert SizedAt(c, s, k) && Agree(s, r, k);
      }
    }
  }

  /** A second write to the same level replaces the first. */
  lemma Overwrite(m: Levels, k: nat, a: Vec, b: Vec)
    requires k < |m|
    ensures m[k := a][k := b] == m[k := b]
  {
  }

  /** Sizes up to hi - 1 and at hi give sizes up to hi. */
  lemma SizedAbove(c: Cycle, s: LevelVectors, hi: nat)
    requires 0 < hi && Sized(c, s, hi - 1) && SizedAt(c, s, hi)
    ensures Sized(c, s, hi)
  {
    forall k: nat | c.minlevel <= k <= hi ensures SizedAt(c, s, k) {
      if k < hi {
        assert SizedAt(c, s, k);
      }
    }
  }

  /**
   * The part of level_mgstep(L), L > minlevel, before the restriction loop:
   * zero solution[L], pre-smooth it, t[L] = A solution[L].
   */
  function Smoothed(c: Cycle, L: nat, s: LevelVectors): (r: LevelVectors)
    requires Fits(c) && c.minlevel < L && Sized(c, s, L)
    ensures Sized(c, r, L) && SameLevels(s, r) && r.defect == s.defect
    ensures forall k: nat :: k != L ==> Agree(s, r, k)
  {
    assert SizedAt(c, s, L);
    var pre := c.ops.preSmooth(L, Zero(|s.solution[L]|), s.defect[L]);
    var r := s.(solution := s.solution[L := pre], t := s.t[L := c.ops.matrix(L, pre)]);
    SizedExcept(c, s, r, L, L);
    r
  }

  /**
   * The part of level_mgstep(L), L > minlevel, after the recursion: t[L] is
   * reset and receives the prolongation of solution[L-1], which is added to
   * solution[L]; with edge_up set, t[L] = edge_up^T solution[L-1] is
   * subtracted from defect[L]; last, solution[L] is post-smoothed.
   */
  function Corrected(c: Cycle, L: nat, s: LevelVectors): (r: LevelVectors)
    requires Fits(c) && c.minlevel < L && Sized(c, s, L)
    ensures Sized(c, r, L) && SameLevels(s, r)
    ensures forall k: nat :: k != L ==> Agree(s, r, k)
  {
    assert SizedAt(c, s, L) && SizedAt(c, s, L - 1);
    var p := c.ops.prolongate(L, s.solution[L - 1]);
    var sol := Add(s.solution[L], p);
    var e := if c.edgeUp.Some? then c.edgeUp.value(L, s.solution[L - 1]) else p;
    var d := if c.edgeUp.Some? then Sub(s.defect[L], e) else s.defect[L];
    var r := s.(solution := s.solution[L := c.ops.postSmooth(L, sol, d)], t := s.t[L := e], defect := s.defect[L := d]);
    SizedExcept(c, s, r, L, L);
    r
  }

  /**
   * What one call of level_mgstep(L) does to the three arrays: zero
   * solution[L]; on the coarsest level run the coarse solver; otherwise
   * Smoothed, the restriction loop, the recursion on L-1, Corrected.
   */
  function Step(c: Cycle, L: nat, s: LevelVectors): (r: LevelVectors)
    requires Fits(c) && c.minlevel <= L && Sized(c, s, L)
    ensures Sized(c, r, L) && SameLevels(s, r)
    ensures forall k: nat :: L < k ==> Agree(s, r, k)
    decreases L
  {
    if L == c.minlevel then
      assert SizedAt(c, s, L);
      var r := s.(solution := s.solution[L := c.ops.coarse(L, Zero(|s.solution[L]|), s.defect[L])]);
      SizedExcept(c, s, r, L, L);
      r
    else
      var s2 := Smoothed(c, L, s);
      var s3 := Cascade(c, L, c.minlevel, s2);
      var s4 := Step(c, L - 1, s3);
      assert Agree(s3, s4, L) && SizedAt(c, s3, L);
      SizedAbove(c, s4, L);
      var r := Corrected(c, L, s4);
      assert forall k: nat :: L < k ==> Agree(s, r, k) by {
        forall k: nat | L < k ensures Agree(s, r, k) {
          assert Agree(s, s2, k) && Agree(s2, s3, k) && Agree(s3, s4, k) && Agree(s4, r, k);
        }
      }
      r
  }

  /**
   * The closed form of the restriction loop: once it has run down to l,
   * every level k with l <= k < L holds t[k] = edge_down solution[L] (first
   * pass, edge_down set) or 0, plus the restriction of t[k+1], and defect[k]
   * has been reduced by t[k]. Levels from L up are untouched.
   */
  lemma {:induction false} CascadeEffect(c: Cycle, L: nat, l: nat, s: LevelVectors)
    requires Fits(c) && c.minlevel <= l <= L && Sized(c, s, L)
    ensures forall k: nat :: l <= k < L ==> Restricted(c, L, k, s, Cascade(c, L, l, s))
    decreases L - l
  {
    if l < L {
      CascadeEffect(c, L, l + 1, s);
      var mid := Cascade(c, L, l + 1, s);
      var r := Cascade(c, L, l, s);
      assert r == CascadeStep(c, L, l + 1, mid);
      forall k: nat | l <= k < L ensures Restricted(c, L, k, s, r) {
        assert SizedAt(c, s, k) && SizedAt(c, mid, k) && SizedAt(c, mid, k + 1) && SizedAt(c, mid, L);
        assert Agree(mid, r, k + 1);
        if k > l {
          assert Restricted(c, L, k, s, mid);
          assert Agree(mid, r, k);
        } else {
          assert Agree(s, mid, k);
        }
      }
    }
  }

  /** Without edge_down the restriction loop just restricts: t[k] is the restriction of t[k+1]. */
  lemma CascadeWithoutEdgeDown(c: Cycle, L: nat, s: LevelVectors, k: nat)
    requires Fits(c) && c.edgeDown.None? && c.minlevel <= k < L && Sized(c, s, L)
    ensures var r := Cascade(c, L, c.minlevel, s);
      SizedAt(c, r, k) && SizedAt(c, r, k + 1) && SizedAt(c, s, k)
      && r.t[k] == c.ops.restrict(k + 1, r.t[k + 1])
      && r.defect[k] == Sub(s.defect[k], r.t[k])
  {
    var r := Cascade(c, L, c.minlevel, s);
    CascadeEffect(c, L, c.minlevel, s);
    assert Restricted(c, L, k, s, r);
    assert SizedAt(c, r, k) && SizedAt(c, r, k + 1) && SizedAt(c, s, k);
    AddZero(c.ops.dofs(k), c.ops.restrict(k + 1, r.t[k + 1]));
  }

  /**
   * What level_mgstep(L), L > minlevel, leaves on level L, in terms of its
   * input and of the coarse solution it computed on L-1: the pre-smoothed
   * zero vector plus the prolongated coarse solution is post-smoothed
   * against the defect, which only edge_up changes; t[L] holds the edge_up
   * product when edge_up is set and the prolongation otherwise.
   */
  lemma CoarseGridCorrectionEffect(c: Cycle, L: nat, s: LevelVectors)
    requires Fits(c) && c.minlevel < L && Sized(c, s, L)
    ensures SizedAt(c, s, L) && SizedAt(c, Step(c, L, s), L) && SizedAt(c, Step(c, L, s), L - 1)
    ensures var r := Step(c, L, s);
      var coarse := r.solution[L - 1];
      var p := c.ops.prolongate(L, coarse);
      var pre := c.ops.preSmooth(L, Zero(c.ops.dofs(L)), s.defect[L]);
      && r.defect[L] == (if c.edgeUp.Some? then Sub(s.defect[L], c.edgeUp.value(L, coarse)) else s.defect[L])
      && r.t[L] == (if c.edgeUp.Some? then c.edgeUp.value(L, coarse) else p)
      && r.solution[L] == c.ops.postSmooth(L, Add(pre, p), r.defect[L])
  {
    var s2 := Smoothed(c, L, s);
    var s3 := Cascade(c, L, c.minlevel, s2);
    var s4 := Step(c, L - 1, s3);
    var r := Step(c, L, s);
    assert SizedAt(c, s, L) && SizedAt(c, s2, L) && SizedAt(c, s3, L) && SizedAt(c, s4, L) && SizedAt(c, s4, L - 1);
    assert r == Corrected(c, L, s4);
    assert SizedAt(c, r, L) && SizedAt(c, r, L - 1);
    assert Agree(s2, s3, L) && Agree(s3, s4, L) && Agree(s4, r, L - 1);
  }

  /**
   * On the coarsest level level_mgstep only runs the coarse solver on a
   * zeroed solution: t and defect keep their values, and no other level
   * changes.
   */
  lemma BaseCase(c: Cycle, s: LevelVectors)
    requires Fits(c) && Sized(c, s, c.minlevel)
    ensures SizedAt(c, s, c.minlevel)
    ensures var r := Step(c, c.minlevel, s);
      && r.solution[c.minlevel] == c.ops.coarse(c.minlevel, Zero(c.ops.dofs(c.minlevel)), s.defect[c.minlevel])
      && r.t == s.t && r.defect == s.defect
      && forall k: nat :: k != c.minlevel ==> Agree(s, r, k)
    ensures StepCalls(c, c.minlevel) == [CoarseSolve(c.minlevel)]
  {
    assert SizedAt(c, s, c.minlevel);
  }

  /** The backend calls the driver makes, each with the level it passes. */
  datatype Call =
    | CoarseSolve(level: nat)
    | PreSmooth(level: nat)
    | MatrixVmult(level: nat)
    | EdgeDownVmult(level: nat)
    | RestrictAndAdd(level: nat)
    | Prolongate(level: nat)
    | EdgeUpTvmult(level: nat)
    | PostSmooth(level: nat)

  /** The calls of one pass of the restriction loop of level_mgstep(L). */
  ghost function CascadeStepCalls(c: Cycle, L: nat, l: nat): seq<Call>
  {
    (if l == L && c.edgeDown.Some? then [EdgeDownVmult(L)] else []) + [RestrictAndAdd(l)]
  }

  /** The calls of the passes L, L-1, ..., l+1 of the restriction loop. */
  ghost function CascadeCalls(c: Cycle, L: nat, l: nat): seq<Call>
    requires l <= L
    decreases L - l
  {
    if l == L then [] else CascadeCalls(c, L, l + 1) + CascadeStepCalls(c, L, l + 1)
  }

  /** The calls of the coarse-grid correction on level L, in order. */
  ghost function CorrectionCalls(c: Cycle, L: nat): seq<Call>
  {
    [Prolongate(L)] + (if c.edgeUp.Some? then [EdgeUpTvmult(L)] else []) + [PostSmooth(L)]
  }

  /** The calls of one call of level_mgstep(L), in order. */
  ghost function StepCalls(c: Cycle, L: nat): seq<Call>
    requires c.minlevel <= L
    decreases L
  {
    if L == c.minlevel then [CoarseSolve(L)]
    else
      [PreSmooth(L), MatrixVmult(L)] + CascadeCalls(c, L, c.minlevel) + StepCalls(c, L - 1) + CorrectionCalls(c, L)
  }

  /**
   * The trace h extended by the calls of one pass of the restriction loop,
   * appended one at a time as the driver makes them.
   */
  ghost function CascadeStepTrace(c: Cycle, L: nat, l: nat, h: seq<Call>): seq<Call>
  {
    (if l == L && c.edgeDown.Some? then h + [EdgeDownVmult(L)] else h) + [RestrictAndAdd(l)]
  }

  /** The trace h extended by the passes L, L-1, ..., l+1 of the restriction loop. */
  ghost function CascadeTrace(c: Cycle, L: nat, l: nat, h: seq<Call>): seq<Call>
    requires l <= L
    decreases L - l
  {
    if l == L then h else CascadeStepTrace(c, L, l + 1, CascadeTrace(c, L, l + 1, h))
  }

  /** The trace h extended by the calls of the coarse-grid correction on level L. */
  ghost function CorrectionTrace(c: Cycle, L: nat, h: seq<Call>): seq<Call>
  {
    (if c.edgeUp.Some? then h + [Prolongate(L)] + [EdgeUpTvmult(L)] else h + [Prolongate(L)]) + [PostSmooth(L)]
  }

  /** The trace h extended by the calls of level_mgstep(L), one at a time. */
  ghost function StepTrace(c: Cycle, L: nat, h: seq<Call>): seq<Call>
    requires c.minlevel <= L
    decreases L
  {
    if L == c.minlevel then h + [CoarseSolve(L)]
    else
      var h4 := StepTrace(c, L - 1, CascadeTrace(c, L, c.minlevel, h + [PreSmooth(L)] + [MatrixVmult(L)]));
      CorrectionTrace(c, L, h4)
  }

  lemma {:induction false} CascadeTraceAppends(c: Cycle, L: nat, l: nat, h: seq<Call>)
    requires l <= L
    ensures CascadeTrace(c, L, l, h) == h + CascadeCalls(c, L, l)
    decreases L - l
  {
    if l < L {
      CascadeTraceAppends(c, L, l + 1, h);
    }
  }

  /** Appending the calls one at a time gives the trace StepCalls. */
  lemma AppendAssoc(a: seq<Call>, b: seq<Call>, d: seq<Call>)
    ensures a + (b + d) == a + b + d
  {
  }

  lemma CorrectionTraceAppends(c: Cycle, L: nat, h: seq<Call>)
    ensures CorrectionTrace(c, L, h) == h + CorrectionCalls(c, L)
  {
  }

  /** Appending the calls one at a time gives the trace StepCalls. */
  lemma {:induction false} StepTraceAppends(c: Cycle, L: nat, h: seq<Call>)
    requires c.minlevel <= L
    ensures StepTrace(c, L, h) == h + StepCalls(c, L)
    decreases L
  {
    if L > c.minlevel {
      var pm: seq<Call> := [PreSmooth(L), MatrixVmult(L)];
      var cc := CascadeCalls(c, L, c.minlevel);
      var sc := StepCalls(c, L - 1);
      var h2 := h + [PreSmooth(L)] + [MatrixVmult(L)];
      assert h2 == h + pm;
      CascadeTraceAppends(c, L, c.minlevel, h2);
      var h3 := CascadeTrace(c, L, c.minlevel, h2);
      AppendAssoc(h, pm, cc);
      assert h3 == h + (pm + cc);
      StepTraceAppends(c, L - 1, h3);
      var h4 := StepTrace(c, L - 1, h3);
      AppendAssoc(h, pm + cc, sc);
      assert h4 == h + (pm + cc + sc);
      CorrectionTraceAppends(c, L, h4);
      AppendAssoc(h, pm + cc + sc, CorrectionCalls(c, L));
    }
  }


  /** Position of the coarse solve within StepCalls(c, L). */
  ghost function CoarseIndex(c: Cycle, L: nat): nat
    requires c.minlevel <= L
    decreases L
  {
    if L == c.minlevel then 0 else 2 + |CascadeCalls(c, L, c.minlevel)| + CoarseIndex(c, L - 1)
  }

  /** How often call x occurs in the trace cs. */
  function Occurrences(cs: seq<Call>, x: Call): nat
  {
    if cs == [] then 0 else (if cs[0] == x then 1 else 0) + Occurrences(cs[1..], x)
  }

  lemma {:induction false} OccurrencesAppend(a: seq<Call>, b: seq<Call>, x: Call)
    ensures Occurrences(a + b, x) == Occurrences(a, x) + Occurrences(b, x)
  {
    if a == [] {
      assert a + b == b;
    } else {
      assert (a + b)[1..] == a[1..] + b;
      OccurrencesAppend(a[1..], b, x);
    }
  }

  lemma OccurrencesSingle(y: Call, x: Call)
    ensures Occurrences([y], x) == if y == x then 1 else 0
  {
    assert [y][1..] == [];
  }

  lemma {:induction false} OccurrencesAbsent(cs: seq<Call>, x: Call)
    requires x !in cs
    ensures Occurrences(cs, x) == 0
  {
    if cs != [] {
      assert x !in cs[1..];
      OccurrencesAbsent(cs[1..], x);
    }
  }

  /** A call made on the way down the V: smoothing, residual, restriction. */
  predicate Downward(call: Call)
  {
    call.PreSmooth? || call.MatrixVmult? || call.EdgeDownVmult? || call.RestrictAndAdd?
  }

  /** A call made on the way up the V: the coarse-grid correction. */
  predicate Upward(call: Call)
  {
    call.Prolongate? || call.EdgeUpTvmult? || call.PostSmooth?
  }

  /** The calls the restriction loop of level_mgstep(L) may make, its loop variable having reached l. */
  predicate CascadeCall(c: Cycle, L: nat, l: nat, call: Call)
  {
    || (call.EdgeDownVmult? && call.level == L && c.edgeDown.Some?)
    || (call.RestrictAndAdd? && l < call.level <= L)
  }

  /**
   * The restriction loop only applies edge_down (on level L, when set) and
   * restrict_and_add (on the levels it passes); edge_down comes first and
   * is applied at most once.
   */
  lemma {:induction false} CascadeCallsShape(c: Cycle, L: nat, l: nat)
    requires l <= L
    ensures forall i :: 0 <= i < |CascadeCalls(c, L, l)| ==> CascadeCall(c, L, l, CascadeCalls(c, L, l)[i])
    ensures Occurrences(CascadeCalls(c, L, l), EdgeDownVmult(L)) == if c.edgeDown.Some? && l < L then 1 else 0
    ensures c.edgeDown.Some? && l < L ==> CascadeCalls(c, L, l)[0] == EdgeDownVmult(L)
    ensures |CascadeCalls(c, L, l)| == (L - l) + (if c.edgeDown.Some? && l < L then 1 else 0)
    decreases L - l
  {
    if l < L {
      CascadeCallsShape(c, L, l + 1);
      var prev := CascadeCalls(c, L, l + 1);
      var step := CascadeStepCalls(c, L, l + 1);
      assert CascadeCalls(c, L, l) == prev + step;
      forall i | 0 <= i < |prev + step| ensures CascadeCall(c, L, l, (prev + step)[i]) {
        if i < |prev| {
          assert CascadeCall(c, L, l + 1, prev[i]);
        }
      }
      var first: seq<Call> := if l + 1 == L && c.edgeDown.Some? then [EdgeDownVmult(L)] else [];
      assert step == first + [RestrictAndAdd(l + 1)];
      OccurrencesAppend(prev, step, EdgeDownVmult(L));
      OccurrencesAppend(first, [RestrictAndAdd(l + 1)], EdgeDownVmult(L));
      OccurrencesSingle(RestrictAndAdd(l + 1), EdgeDownVmult(L));
      if first != [] {
        OccurrencesSingle(EdgeDownVmult(L), EdgeDownVmult(L));
      }
      if l + 1 < L {
        assert prev[0] == EdgeDownVmult(L) || !c.edgeDown.Some?;
      }
    }
  }

  /** Every call of level_mgstep(L) is on a level between minlevel and L. */
  lemma {:induction false} StepCallLevels(c: Cycle, L: nat)
    requires c.minlevel <= L
    ensures forall i :: 0 <= i < |StepCalls(c, L)| ==> c.minlevel <= StepCalls(c, L)[i].level <= L
    decreases L
  {
    if L > c.minlevel {
      StepCallLevels(c, L - 1);
      CascadeCallsShape(c, L, c.minlevel);
      var pm: seq<Call> := [PreSmooth(L), MatrixVmult(L)];
      var cc := CascadeCalls(c, L, c.minlevel);
      var sc := StepCalls(c, L - 1);
      var cor := CorrectionCalls(c, L);
      var cs: seq<Call> := pm + cc + sc + cor;
      assert StepCalls(c, L) == cs;
      forall i | 0 <= i < |cs| ensures c.minlevel <= cs[i].level <= L {
        if 2 <= i < 2 + |cc| {
          assert CascadeCall(c, L, c.minlevel, cc[i - 2]);
        } else if 2 + |cc| <= i < 2 + |cc| + |sc| {
          assert c.minlevel <= sc[i - 2 - |cc|].level <= L - 1;
        }
      }
    }
  }

  /** How often level_mgstep(L) makes call x itself, outside the restriction loop and the recursion. */
  function OwnCount(c: Cycle, L: nat, x: Call): nat
  {
    if x == PreSmooth(L) || x == MatrixVmult(L) || x == Prolongate(L) || x == PostSmooth(L)
       || (x == EdgeUpTvmult(L) && c.edgeUp.Some?)
    then 1 else 0
  }

  /** A call the restriction loop does not make is counted in the rest of level_mgstep(L). */
  lemma StepCallsCount(c: Cycle, L: nat, x: Call)
    requires c.minlevel < L && !x.EdgeDownVmult? && !x.RestrictAndAdd?
    ensures Occurrences(StepCalls(c, L), x) == OwnCount(c, L, x) + Occurrences(StepCalls(c, L - 1), x)
  {
    var pm: seq<Call> := [PreSmooth(L), MatrixVmult(L)];
    var cc := CascadeCalls(c, L, c.minlevel);
    var sc := StepCalls(c, L - 1);
    var cor := CorrectionCalls(c, L);
    CascadeCallsShape(c, L, c.minlevel);
    OccurrencesAbsent(cc, x);
    assert StepCalls(c, L) == pm + cc + sc + cor;
    OccurrencesAppend(pm, cc, x);
    OccurrencesAppend(pm + cc, sc, x);
    OccurrencesAppend(pm + cc + sc, cor, x);
    assert Occurrences(pm, x) == (if x == PreSmooth(L) then 1 else 0) + (if x == MatrixVmult(L) then 1 else 0);
    var mid: seq<Call> := if c.edgeUp.Some? then [EdgeUpTvmult(L)] else [];
    assert cor == [Prolongate(L)] + mid + [PostSmooth(L)];
    OccurrencesAppend([Prolongate(L)], mid, x);
    OccurrencesAppend([Prolongate(L)] + mid, [PostSmooth(L)], x);
    OccurrencesSingle(Prolongate(L), x);
    OccurrencesSingle(PostSmooth(L), x);
    if c.edgeUp.Some? {
      OccurrencesSingle(EdgeUpTvmult(L), x);
    }
  }

  /** The coarse solver runs exactly once per level_mgstep(L), on minlevel. */
  lemma {:induction false} CoarseSolvedOnce(c: Cycle, L: nat, k: nat)
    requires c.minlevel <= L
    ensures Occurrences(StepCalls(c, L), CoarseSolve(k)) == if k == c.minlevel then 1 else 0
    decreases L
  {
    if L > c.minlevel {
      CoarseSolvedOnce(c, L - 1, k);
      StepCallsCount(c, L, CoarseSolve(k));
    }
  }

  /**
   * level_mgstep(L) visits every level above minlevel up to L exactly once:
   * each such level is pre-smoothed, has its residual formed, receives the
   * prolongated correction and is post-smoothed exactly once; no other
   * level is.
   */
  lemma {:induction false} LevelVisitedOnce(c: Cycle, L: nat, x: Call)
    requires c.minlevel <= L
    requires x.PreSmooth? || x.MatrixVmult? || x.Prolongate? || x.PostSmooth?
    ensures Occurrences(StepCalls(c, L), x) == if c.minlevel < x.level <= L then 1 else 0
    decreases L
  {
    if L > c.minlevel {
      LevelVisitedOnce(c, L - 1, x);
      StepCallsCount(c, L, x);
    }
  }

  /**
   * The V shape of level_mgstep(L): the coarse solve sits at CoarseIndex,
   * every call before it goes down the V and every call after it goes up.
   */
  lemma {:induction false} StepIsVShaped(c: Cycle, L: nat)
    requires c.minlevel <= L
    ensures CoarseIndex(c, L) < |StepCalls(c, L)|
    ensures StepCalls(c, L)[CoarseIndex(c, L)] == CoarseSolve(c.minlevel)
    ensures forall i :: 0 <= i < CoarseIndex(c, L) ==> Downward(StepCalls(c, L)[i])
    ensures forall i :: CoarseIndex(c, L) < i < |StepCalls(c, L)| ==> Upward(StepCalls(c, L)[i])
    decreases L
  {
    if L > c.minlevel {
      StepIsVShaped(c, L - 1);
      CascadeCallsShape(c, L, c.minlevel);
      var pm: seq<Call> := [PreSmooth(L), MatrixVmult(L)];
      var cc := CascadeCalls(c, L, c.minlevel);
      var sc := StepCalls(c, L - 1);
      var cor := CorrectionCalls(c, L);
      var cs := pm + cc + sc + cor;
      var k := CoarseIndex(c, L - 1);
      assert StepCalls(c, L) == cs;
      assert cs[2 + |cc| + k] == sc[k];
      forall i | 0 <= i < 2 + |cc| + k ensures Downward(cs[i]) {
        if 2 <= i < 2 + |cc| {
          assert CascadeCall(c, L, c.minlevel, cc[i - 2]);
        } else if 2 + |cc| <= i {
          assert Downward(sc[i - 2 - |cc|]);
        }
      }
      forall i | 2 + |cc| + k < i < |cs| ensures Upward(cs[i]) {
        if i < 2 + |cc| + |sc| {
          assert Upward(sc[i - 2 - |cc|]);
        }
      }
    }
  }

  /**
   * Above the coarsest level the calls open with the pre-smoother and the
   * residual and close with the prolongation, edge_up when it is set, and
   * the post-smoother; the recursion on L-1 comes after the whole
   * restriction loop.
   */
  lemma CallOrder(c: Cycle, L: nat)
    requires c.minlevel < L
    ensures var cs := StepCalls(c, L);
      var n := |cs|;
      && n >= 5
      && cs[0] == PreSmooth(L) && cs[1] == MatrixVmult(L)
      && cs[2 .. 2 + |CascadeCalls(c, L, c.minlevel)|] == CascadeCalls(c, L, c.minlevel)
      && cs[2 + |CascadeCalls(c, L, c.minlevel)| .. n - |CorrectionCalls(c, L)|] == StepCalls(c, L - 1)
      && cs[n - 1] == PostSmooth(L)
      && (c.edgeUp.Some? ==> cs[n - 3] == Prolongate(L) && cs[n - 2] == EdgeUpTvmult(L))
      && (c.edgeUp.None? ==> cs[n - 2] == Prolongate(L))
  {
    var pm: seq<Call> := [PreSmooth(L), MatrixVmult(L)];
    var cc := CascadeCalls(c, L, c.minlevel);
    var sc := StepCalls(c, L - 1);
    var cor := CorrectionCalls(c, L);
    var cs := pm + cc + sc + cor;
    assert StepCalls(c, L) == cs;
    StepIsVShaped(c, L - 1);
    assert cs[2 + |cc| .. |cs| - |cor|] == sc;
    assert cs[2 .. 2 + |cc|] == cc;
  }

  /** The per-level arrays after MGLevelObject::resize(lo, hi) and reinit of the levels below done. */
  function Reinitialised(d: Levels, lo: nat, hi: nat, done: nat): Levels
  {
    seq(hi + 1, l => if lo <= l < done && l < |d| then Zero(|d[l]|) else [])
  }

  class Multigrid {
    const minlevel: nat
    const maxlevel: nat
    const ops: Operators
    var edgeDown: Option<LevelMap>
    var edgeUp: Option<LevelMap>
    var defect: Levels
    var solution: Levels
    var t: Levels
    /** Every backend call made so far, in order. */
    ghost var calls: seq<Call>

    function Config(): Cycle
      reads this
    {
      Cycle(minlevel, ops, edgeDown, edgeUp)
    }

    function Vectors(): LevelVectors
      reads this
    {
      LevelVectors(solution, t, defect)
    }

    /** A driver without edge operators; the caller fills defect before each cycle. */
    constructor (minlevel: nat, maxlevel: nat, ops: Operators)
      requires minlevel <= maxlevel
      ensures this.minlevel == minlevel && this.maxlevel == maxlevel && this.ops == ops
      ensures edgeDown == None && edgeUp == None
      ensures defect == [] && solution == [] && t == [] && calls == []
    {
      this.minlevel := minlevel;
      this.maxlevel := maxlevel;
      this.ops := ops;
      edgeDown := None;
      edgeUp := None;
      defect := [];
      solution := [];
      t := [];
      calls := [];
    }

    /** set_edge_matrices: store both edge operators. */
    method SetEdgeMatrices(down: LevelMap, up: LevelMap)
      modifies this`edgeDown, this`edgeUp
      ensures edgeDown == Some(down) && edgeUp == Some(up)
    {
      edgeDown := Some(down);
      edgeUp := Some(up);
    }

    /** level_mgstep on the coarsest level: solution = 0, then the coarse solver. */
    method SolveCoarse(level: nat)
      requires Fits(Config()) && minlevel == level && Sized(Config(), Vectors(), level)
      modifies this`solution, this`calls
      ensures Vectors() == Step(Config(), level, old(Vectors()))
      ensures calls == old(calls) + [CoarseSolve(level)]
    {
      ghost var s := Vectors();
      assert SizedAt(Config(), s, level);
      solution := solution[level := Zero(|solution[level]|)];
      solution := solution[level := ops.coarse(level, solution[level], defect[level])];
      calls := calls + [CoarseSolve(level)];
      Overwrite(s.solution, level, Zero(|s.solution[level]|), solution[level]);
    }

    /** level_mgstep above the coarsest level, up to the restriction loop: solution = 0, pre-smooth, t = A solution. */
    method PreSmoothing(level: nat)
      requires Fits(Config()) && minlevel < level && Sized(Config(), Vectors(), level)
      modifies this`solution, this`t, this`calls
      ensures Vectors() == Smoothed(Config(), level, old(Vectors()))
      ensures calls == old(calls) + [PreSmooth(level)] + [MatrixVmult(level)]
    {
      ghost var s := Vectors();
      assert SizedAt(Config(), s, level);
      solution := solution[level := Zero(|solution[level]|)];
      solution := solution[level := ops.preSmooth(level, solution[level], defect[level])];
      calls := calls + [PreSmooth(level)];
      Overwrite(s.solution, level, Zero(|s.solution[level]|), solution[level]);
      t := t[level := ops.matrix(level, solution[level])];
      calls := calls + [MatrixVmult(level)];
    }

    /**
     * One pass of the restriction loop of level_mgstep(level), loop variable l.
     */
    method RestrictionPass(level: nat, l: nat)
      requires Fits(Config()) && minlevel < l <= level && Sized(Config(), Vectors(), level)
      modifies this`t, this`defect, this`calls
      ensures Vectors() == CascadeStep(Config(), level, l, old(Vectors()))
      ensures calls == CascadeStepTrace(Config(), level, l, old(calls))
    {
      assert SizedAt(Config(), Vectors(), level) && SizedAt(Config(), Vectors(), l) && SizedAt(Config(), Vectors(), l - 1);
      t := t[l - 1 := Zero(|t[l - 1]|)];
      if l == level && edgeDown.Some? {
        t := t[level - 1 := edgeDown.value(level, solution[level])];
        calls := calls + [EdgeDownVmult(level)];
      }
      t := t[l - 1 := Add(t[l - 1], ops.restrict(l, t[l]))];
      calls := calls + [RestrictAndAdd(l)];
      defect := defect[l - 1 := Sub(defect[l - 1], t[l - 1])];
    }

    /**
     * The restriction loop of level_mgstep(level): for l = level down to
     * minlevel + 1, one RestrictionPass.
     */
    method Restriction(level: nat)
      requires Fits(Config()) && minlevel < level && Sized(Config(), Vectors(), level)
      modifies this`t, this`defect, this`calls
      ensures Vectors() == Cascade(Config(), level, minlevel, old(Vectors()))
      ensures calls == CascadeTrace(Config(), level, minlevel, old(calls))
    {
      ghost var c, s, h := Config(), Vectors(), calls;
      var l := level;
      while l > minlevel
        invariant minlevel <= l <= level
        invariant Vectors() == Cascade(c, level, l, s)
        invariant calls == CascadeTrace(c, level, l, h)
        decreases l
      {
        RestrictionPass(level, l);
        l := l - 1;
      }
    }

    /**
     * The coarse-grid correction of level_mgstep(level), after the recursion:
     * prolongate, add, the optional edge_up defect update, post-smooth.
     */
    method CoarseGridCorrection(level: nat)
      requires Fits(Config()) && minlevel < level && Sized(Config(), Vectors(), level)
      modifies this`solution, this`t, this`defect, this`calls
      ensures Vectors() == Corrected(Config(), level, old(Vectors()))
      ensures calls == CorrectionTrace(Config(), level, old(calls))
    {
      ghost var s := Vectors();
      assert SizedAt(Config(), s, level) && SizedAt(Config(), s, level - 1);
      t := t[level := Zero(|t[level]|)];
      t := t[level := ops.prolongate(level, solution[level - 1])];
      calls := calls + [Prolongate(level)];
      Overwrite(s.t, level, Zero(|s.t[level]|), t[level]);
      solution := solution[level := Add(solution[level], t[level])];
      ghost var sol := solution[level];
      if edgeUp.Some? {
        ghost var p := t[level];
        t := t[level := edgeUp.value(level, solution[level - 1])];
        calls := calls + [EdgeUpTvmult(level)];
        Overwrite(s.t, level, p, t[level]);
        defect := defect[level := Sub(defect[level], t[level])];
      }
      solution := solution[level := ops.postSmooth(level, solution[level], defect[level])];
      calls := calls + [PostSmooth(level)];
      Overwrite(s.solution, level, sol, solution[level]);
    }

    /** level_mgstep(level). */
    method LevelMgStep(level: nat)
      requires Fits(Config()) && minlevel <= level && Sized(Config(), Vectors(), level)
      modifies this`solution, this`t, this`defect, this`calls
      ensures Vectors() == Step(Config(), level, old(Vectors()))
      ensures calls == StepTrace(Config(), level, old(calls))
      decreases level
    {
      ghost var c, s, h := Config(), Vectors(), calls;
      if level == minlevel {
        SolveCoarse(level);
        return;
      }
      PreSmoothing(level);
      ghost var s2, h2 := Vectors(), calls;
      assert s2 == Smoothed(c, level, s) && h2 == h + [PreSmooth(level)] + [MatrixVmult(level)];
      Restriction(level);
      ghost var s3, h3 := Vectors(), calls;
      assert s3 == Cascade(c, level, minlevel, s2) && h3 == CascadeTrace(c, level, minlevel, h2);
      LevelMgStep(level - 1);
      ghost var s4, h4 := Vectors(), calls;
      assert Config() == c;
      assert h4 == StepTrace(Config(), level - 1, h3);
      assert s4 == Step(Config(), level - 1, s3);
      assert Agree(s3, s4, level) && SizedAt(c, s3, level);
      SizedAbove(c, s4, level);
      CoarseGridCorrection(level);
      assert Vectors() == Corrected(c, level, s4);
      assert calls == CorrectionTrace(c, level, h4);
    }

    /**
     * The first half of vcycle: solution and t are resized to the levels
     * minlevel..maxlevel and each level is reinitialised to a zero vector of
     * the size of defect on that level.
     */
    method ReinitLevels()
      requires minlevel <= maxlevel < |defect|
      modifies this`solution, this`t
      ensures solution == t == Reinitialised(defect, minlevel, maxlevel, maxlevel + 1)
    {
      solution := Reinitialised(defect, minlevel, maxlevel, minlevel);
      t := Reinitialised(defect, minlevel, maxlevel, minlevel);
      var level := minlevel;
      while level <= maxlevel
        invariant minlevel <= level <= maxlevel + 1
        invariant solution == t == Reinitialised(defect, minlevel, maxlevel, level)
      {
        solution := solution[level := Zero(|defect[level]|)];
        t := t[level := Zero(|defect[level]|)];
        level := level + 1;
      }
    }

    /** vcycle: reinitialise solution and t, then run level_mgstep(maxlevel). */
    method VCycle()
      requires minlevel <= maxlevel < |defect| && Fits(Config())
      requires forall l: nat :: minlevel <= l <= maxlevel ==> |defect[l]| == ops.dofs(l)
      modifies this`solution, this`t, this`defect, this`calls
      ensures |solution| == |t| == maxlevel + 1
      ensures forall l: nat :: minlevel <= l <= maxlevel ==> SizedAt(Config(), Vectors(), l)
      ensures Vectors() == Step(Config(), maxlevel, LevelVectors(
                Reinitialised(old(defect), minlevel, maxlevel, maxlevel + 1),
                Reinitialised(old(defect), minlevel, maxlevel, maxlevel + 1),
                old(defect)))
      ensures calls == old(calls) + StepCalls(Config(), maxlevel)
    {
      ghost var c, h := Config(), calls;
      ReinitLevels();
      ghost var s := Vectors();
      assert Sized(c, s, maxlevel) by {
        forall k: nat | minlevel <= k <= maxlevel ensures SizedAt(c, s, k) {
          assert s.solution[k] == Zero(|defect[k]|);
        }
      }
      LevelMgStep(maxlevel);
      assert Config() == c;
      StepTraceAppends(c, maxlevel, h);
      assert Sized(c, Vectors(), maxlevel);
    }
  }
}
