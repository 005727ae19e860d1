/**
 * The index and mask bookkeeping of the FiniteElement<dim,spacedim> base
 * class (source/fe/fe.cc).
 *
 * FiniteElementData is not part of this model: FEData holds the fields of
 * it that fe.cc reads, and LaidOut states how its constructor lays out the
 * cell and face DoF numbering. GeometryInfo<dim> is not part of this model
 * either: its counts and its face_to_cell_vertices / face_to_cell_lines /
 * n_children tables are the fields of a Geometry value, with the range
 * contracts of GeometryFits. A FullMatrix is represented by its dimensions
 * only, and support-point vectors only by their lengths.
 */
module FiniteElements {

  /** numbers::invalid_unsigned_int, and the modulus of unsigned int arithmetic. */
  const InvalidUnsignedInt: nat := 0xFFFF_FFFF
  const UIntModulus: int := 0x1_0000_0000

  /** The fields of FiniteElementData<dim> that the base class reads. */
  datatype FEData = FEData(
    dim: nat,
    dofsPerVertex: nat, dofsPerLine: nat, dofsPerQuad: nat,
    firstLineIndex: nat, firstQuadIndex: nat, firstHexIndex: nat,
    firstFaceLineIndex: nat, firstFaceQuadIndex: nat,
    dofsPerFace: nat, dofsPerCell: nat,
    components: nat, blocks: nat)

  /** The GeometryInfo<dim> counts and tables the base class consults. */
  datatype Geometry = Geometry(
    facesPerCell: nat, verticesPerCell: nat, linesPerCell: nat, quadsPerCell: nat,
    verticesPerFace: nat, linesPerFace: nat,
    nChildren: nat -> nat,
    faceToCellVertices: (nat, nat, bool, bool, bool) -> nat,
    faceToCellLines: (nat, nat, bool, bool, bool) -> nat)

  /** Range contracts of the GeometryInfo tables: a face-local vertex or line maps to a cell-local one. */
  ghost predicate GeometryFits(g: Geometry)
  {
    && (forall face: nat, v: nat, o: bool, f: bool, r: bool
          :: face < g.facesPerCell && v < g.verticesPerFace ==> g.faceToCellVertices(face, v, o, f, r) < g.verticesPerCell)
    && (forall face: nat, v: nat, o: bool, f: bool, r: bool
          :: face < g.facesPerCell && v < g.linesPerFace ==> g.faceToCellLines(face, v, o, f, r) < g.linesPerCell)
  }

  /**
   * The DoF numbering FiniteElementData sets up: on the cell, vertex DoFs
   * first, then line DoFs, then quad DoFs; on a face likewise, the face's
   * vertex DoFs before its line DoFs, and in 3d its own quad DoFs last. In
   * 1d and 2d no face DoF lies beyond first_face_quad_index.
   */
  ghost predicate LaidOut(d: FEData, g: Geometry)
  {
    && 1 <= d.dim <= 3
    && d.firstLineIndex == g.verticesPerCell * d.dofsPerVertex
    && d.firstQuadIndex == d.firstLineIndex + g.linesPerCell * d.dofsPerLine
    && d.firstHexIndex == d.firstQuadIndex + g.quadsPerCell * d.dofsPerQuad
    && d.firstFaceLineIndex == g.verticesPerFace * d.dofsPerVertex
    && d.firstFaceLineIndex + g.linesPerFace * d.dofsPerLine >= (if d.dofsPerFace < d.firstFaceQuadIndex then d.dofsPerFace else d.firstFaceQuadIndex)
    && (d.dim == 3 ==> d.dofsPerFace == d.firstFaceQuadIndex + d.dofsPerQuad && g.facesPerCell == g.quadsPerCell)
    && (d.dim < 3 ==> d.dofsPerFace <= d.firstFaceQuadIndex)
  }

  /** 2^e. */
  function Pow2(e: nat): (p: nat)
    ensures p >= 1
  {
    if e == 0 then 1 else 2 * Pow2(e - 1)
  }

  /** RefinementCase<dim>::isotropic_refinement: every one of the dim cut bits set. */
  function IsotropicRefinement(dim: nat): (iso: nat)
    ensures 1 <= dim ==> 1 <= iso
  {
    Pow2(dim) - 1
  }

  /* ---------------------------------------------------------------------
   * Length-one expansion and the nonzero-component table
   * ------------------------------------------------------------------- */

  /**
   * The constructor's special case for flag and mask vectors: a vector of
   * length one stands for n copies of its entry; any other vector is kept.
   */
  function Expand<T>(v: seq<T>, n: nat): seq<T>
  {
    if |v| == 1 then seq(n, i => v[0]) else v
  }

  lemma ExpandShape<T>(v: seq<T>, n: nat)
    requires |v| == 1 || |v| == n
    ensures |Expand(v, n)| == n
    ensures forall i :: 0 <= i < n ==> Expand(v, n)[i] in v
    ensures |v| == 1 ==> forall i :: 0 <= i < n ==> Expand(v, n)[i] == v[0]
    ensures |v| != 1 ==> Expand(v, n) == v
  {
  }

  /** A ComponentMask as its vector of flags; the empty mask stands for "every component". */
  type ComponentMask = seq<bool>
  /** A BlockMask likewise. */
  type BlockMask = seq<bool>

  /** ComponentMask::n_selected_components(): the number of set flags. */
  function Selected(m: seq<bool>): nat
  {
    if |m| == 0 then 0 else (if m[|m| - 1] then 1 else 0) + Selected(m[..|m| - 1])
  }

  lemma {:induction false} SelectedBound(m: seq<bool>)
    ensures Selected(m) <= |m|
    ensures Selected(m) == |m| <==> forall i :: 0 <= i < |m| ==> m[i]
    ensures Selected(m) == 0 <==> forall i :: 0 <= i < |m| ==> !m[i]
  {
    if |m| > 0 {
      var init := m[..|m| - 1];
      SelectedBound(init);
      assert forall i :: 0 <= i < |init| ==> init[i] == m[i];
    }
  }

  /** The number of selected components of every mask, one entry per mask. */
  function NonzeroCounts(masks: seq<ComponentMask>): seq<nat>
  {
    seq(|masks|, i requires 0 <= i < |masks| => Selected(masks[i]))
  }

  /** cached_primitivity: no entry of the table differs from 1. */
  predicate AllOnes(table: seq<nat>)
  {
    forall i :: 0 <= i < |table| ==> table[i] == 1
  }

  /**
   * compute_n_nonzero_components: the table holding, for every shape
   * function, the number of components its mask selects.
   */
  method ComputeNNonzeroComponents(masks: seq<ComponentMask>) returns (table: seq<nat>)
    ensures |table| == |masks|
    ensures forall i :: 0 <= i < |masks| ==> table[i] == Selected(masks[i])
  {
    table := [];
    var i := 0;
    while i < |masks|
      invariant i <= |masks|
      invariant |table| == i
      invariant forall k :: 0 <= k < i ==> table[k] == Selected(masks[k])
    {
      table := table + [Selected(masks[i])];
      i := i + 1;
    }
  }

  /**
   * An element is primitive exactly when every shape function is nonzero in
   * exactly one component, that is when every mask selects one component.
   */
  lemma PrimitiveIffOneComponentEach(masks: seq<ComponentMask>)
    ensures AllOnes(NonzeroCounts(masks)) <==> forall i :: 0 <= i < |masks| ==> Selected(masks[i]) == 1
  {
    var table := NonzeroCounts(masks);
    assert forall i :: 0 <= i < |masks| ==> table[i] == Selected(masks[i]);
  }

  /* ---------------------------------------------------------------------
   * Component masks and block masks
   * ------------------------------------------------------------------- */

  /** The mask of n components selecting exactly those in [lo, hi). */
  function Selecting(n: nat, lo: nat, hi: nat): (m: ComponentMask)
    ensures |m| == n
  {
    seq(n, c => lo <= c < hi)
  }

  /** SymmetricTensor<2,dim>::n_independent_components. */
  function SymmetricTensorComponents(dim: nat): nat
  {
    dim * (dim + 1) / 2
  }

  /** Component c starts a run of components that belong to the same block. */
  predicate RunHead(blockOf: seq<nat>, c: nat)
    requires c < |blockOf|
  {
    c == 0 || blockOf[c - 1] != blockOf[c]
  }

  /**
   * What block_mask(ComponentMask) computes: block b is set when the first
   * component of some run of components of block b is selected. The all-
   * selected (empty) component mask gives the all-selected block mask.
   */
  function BlocksOf(blockOf: seq<nat>, blocks: nat, cm: ComponentMask): (bm: BlockMask)
    requires |cm| == 0 || |cm| == |blockOf|
    ensures |cm| == 0 ==> bm == []
    ensures |cm| > 0 ==> |bm| == blocks
  {
    if |cm| == 0 then [] else seq(blocks, b requires 0 <= b => HeadSelected(blockOf, cm, b))
  }

  /** The first component of some run of block b is selected. */
  predicate HeadSelected(blockOf: seq<nat>, cm: ComponentMask, b: nat)
    requires |cm| == |blockOf|
  {
    exists c :: 0 <= c < |cm| && RunHead(blockOf, c) && blockOf[c] == b && cm[c]
  }

  /**
   * The check block_mask(ComponentMask) asserts while it walks a run: every
   * later component of the run agrees with what is already recorded for the
   * block. A mask that splits a block within a run fails it.
   */
  predicate RunsAgree(blockOf: seq<nat>, cm: ComponentMask)
    requires |cm| == |blockOf|
  {
    forall c :: 0 < c < |cm| && blockOf[c] == blockOf[c - 1] ==> cm[c] == HeadSelectedBefore(blockOf, cm, blockOf[c], c)
  }

  /** The first component of some run of block b before component `before` is selected. */
  predicate HeadSelectedBefore(blockOf: seq<nat>, cm: ComponentMask, b: nat, before: nat)
    requires |cm| == |blockOf| && before <= |cm|
  {
    exists h :: 0 <= h < before && RunHead(blockOf, h) && blockOf[h] == b && cm[h]
  }

  /** A mask that selects either all or none of the components of each block. */
  predicate Uniform(blockOf: seq<nat>, cm: ComponentMask)
    requires |cm| == |blockOf|
  {
    forall c, c' :: 0 <= c < |cm| && 0 <= c' < |cm| && blockOf[c] == blockOf[c'] ==> cm[c] == cm[c']
  }

  /** What component_mask(BlockMask) computes: component c is set iff its block is. */
  function ComponentsOf(blockOf: seq<nat>, bm: BlockMask): (cm: ComponentMask)
    requires |bm| == 0 || forall c :: 0 <= c < |blockOf| ==> blockOf[c] < |bm|
    ensures |bm| == 0 ==> cm == []
    ensures |bm| > 0 ==> |cm| == |blockOf|
  {
    if |bm| == 0 then [] else seq(|blockOf|, c requires 0 <= c < |blockOf| => bm[blockOf[c]])
  }

  /** Under the run check, block b is set iff some component of block b is selected. */
  lemma BlocksOfSelected(blockOf: seq<nat>, blocks: nat, cm: ComponentMask, b: nat)
    requires |cm| == |blockOf| > 0 && b < blocks && RunsAgree(blockOf, cm)
    ensures BlocksOf(blockOf, blocks, cm)[b] <==> exists c :: 0 <= c < |cm| && blockOf[c] == b && cm[c]
  {
    if exists c :: 0 <= c < |cm| && blockOf[c] == b && cm[c] {
      var c :| 0 <= c < |cm| && blockOf[c] == b && cm[c];
      if !RunHead(blockOf, c) {
        var h :| 0 <= h < c && RunHead(blockOf, h) && blockOf[h] == blockOf[c] && cm[h];
        assert 0 <= h < |cm| && RunHead(blockOf, h) && blockOf[h] == b && cm[h];
      }
    }
  }

  /** The head of the run component c belongs to. */
  lemma {:induction false} HeadOfRun(blockOf: seq<nat>, c: nat) returns (h: nat)
    requires c < |blockOf|
    ensures h <= c && RunHead(blockOf, h) && blockOf[h] == blockOf[c]
    ensures forall k :: h <= k <= c ==> blockOf[k] == blockOf[c]
  {
    if RunHead(blockOf, c) {
      h := c;
    } else {
      h := HeadOfRun(blockOf, c - 1);
    }
  }

  /** Walking past component c adds c to the run heads seen when it is one. */
  lemma HeadSelectedStep(blockOf: seq<nat>, cm: ComponentMask, c: nat)
    requires |cm| == |blockOf| && c < |cm|
    ensures forall b :: HeadSelectedBefore(blockOf, cm, b, c + 1) <==>
      HeadSelectedBefore(blockOf, cm, b, c) || (RunHead(blockOf, c) && blockOf[c] == b && cm[c])
  {
    forall b
      ensures HeadSelectedBefore(blockOf, cm, b, c + 1) <==>
        HeadSelectedBefore(blockOf, cm, b, c) || (RunHead(blockOf, c) && blockOf[c] == b && cm[c])
    {
      HeadSelectedStepAt(blockOf, cm, b, c);
    }
  }

  /** The same, for one block b. */
  lemma HeadSelectedStepAt(blockOf: seq<nat>, cm: ComponentMask, b: nat, c: nat)
    requires |cm| == |blockOf| && c < |cm|
    ensures HeadSelectedBefore(blockOf, cm, b, c + 1) <==>
      HeadSelectedBefore(blockOf, cm, b, c) || (RunHead(blockOf, c) && blockOf[c] == b && cm[c])
  {
    if HeadSelectedBefore(blockOf, cm, b, c + 1) {
      var h :| 0 <= h < c + 1 && RunHead(blockOf, h) && blockOf[h] == b && cm[h];
      if h < c {
        assert 0 <= h < c && RunHead(blockOf, h) && blockOf[h] == b && cm[h];
      }
    }
    if HeadSelectedBefore(blockOf, cm, b, c) {
      var h :| 0 <= h < c && RunHead(blockOf, h) && blockOf[h] == b && cm[h];
      assert 0 <= h < c + 1 && RunHead(blockOf, h) && blockOf[h] == b && cm[h];
    }
    if RunHead(blockOf, c) && blockOf[c] == b && cm[c] {
      assert 0 <= c < c + 1 && RunHead(blockOf, c) && blockOf[c] == b && cm[c];
    }
  }

  /** A uniform mask passes the run check. */
  lemma UniformRunsAgree(blockOf: seq<nat>, cm: ComponentMask)
    requires |cm| == |blockOf| && Uniform(blockOf, cm)
    ensures RunsAgree(blockOf, cm)
  {
    forall c | 0 < c < |cm| && blockOf[c] == blockOf[c - 1]
      ensures cm[c] == HeadSelectedBefore(blockOf, cm, blockOf[c], c)
    {
      var h := HeadOfRun(blockOf, c - 1);
      assert cm[h] == cm[c];
    }
  }

  /** Converting a uniform component mask to a block mask and back gives it back. */
  lemma ComponentsOfBlocksOf(blockOf: seq<nat>, blocks: nat, cm: ComponentMask)
    requires |cm| == |blockOf| > 0 && Uniform(blockOf, cm)
    requires forall c :: 0 <= c < |blockOf| ==> blockOf[c] < blocks
    ensures ComponentsOf(blockOf, BlocksOf(blockOf, blocks, cm)) == cm
  {
    UniformRunsAgree(blockOf, cm);
    var bm := BlocksOf(blockOf, blocks, cm);
    assert blockOf[0] < blocks == |bm|;
    var back := ComponentsOf(blockOf, bm);
    forall c | 0 <= c < |cm| ensures back[c] == cm[c] {
      BlocksOfSelected(blockOf, blocks, cm, blockOf[c]);
      assert back[c] == bm[blockOf[c]];
      if cm[c] {
        assert 0 <= c < |cm| && blockOf[c] == blockOf[c] && cm[c];
      }
    }
  }

  /** Converting a block mask to a component mask and back gives it back when every block has a component. */
  lemma BlocksOfComponentsOf(blockOf: seq<nat>, bm: BlockMask)
    requires |blockOf| > 0 && |bm| > 0
    requires forall c :: 0 <= c < |blockOf| ==> blockOf[c] < |bm|
    requires forall b :: 0 <= b < |bm| ==> b in blockOf
    ensures BlocksOf(blockOf, |bm|, ComponentsOf(blockOf, bm)) == bm
  {
    var cm := ComponentsOf(blockOf, bm);
    assert Uniform(blockOf, cm);
    UniformRunsAgree(blockOf, cm);
    forall b | 0 <= b < |bm| ensures BlocksOf(blockOf, |bm|, cm)[b] == bm[b] {
      BlocksOfSelected(blockOf, |bm|, cm, b);
      assert b in blockOf;
      var c :| 0 <= c < |blockOf| && blockOf[c] == b;
      assert cm[c] == bm[b];
    }
  }

  /* ---------------------------------------------------------------------
   * Face DoFs, orientation adjustments, hanging-node constraints
   * ------------------------------------------------------------------- */

  /** a / w < n whenever a < n * w. */
  lemma DivBelow(a: nat, w: nat, n: nat)
    requires 0 < w && a < n * w
    ensures a / w < n
  {
  }

  lemma {:induction false} MulAtLeast(a: int, w: nat)
    requires a >= 1
    ensures a * w >= w
  {
    if a > 1 {
      MulAtLeast(a - 1, w);
      assert a * w == (a - 1) * w + w;
    }
  }

  /** Index x = q * w + r with r < w lies in slot q at offset r. */
  lemma DivModUnique(x: nat, w: nat, q: nat, r: nat)
    requires r < w && x == q * w + r
    ensures x / w == q && x % w == r
  {
    var q', r' := x / w, x % w;
    assert x == q' * w + r';
    if q > q' {
      MulAtLeast(q - q', w);
    } else if q' > q {
      MulAtLeast(q' - q, w);
    }
  }

  /** Slot k of width w holds the indices k * w .. k * w + w - 1, all below n * w when k < n. */
  lemma SlotBelow(k: nat, n: nat, w: nat, r: nat)
    requires k < n && r < w
    ensures k * w + r < n * w
  {
    MulAtLeast(n - k, w);
    assert n * w == k * w + (n - k) * w;
  }

  /**
   * face_to_cell_index: the cell-local number of DoF faceIndex of face
   * `face`. A vertex DoF keeps its offset within the vertex, a line DoF its
   * offset within the line; the vertex or line itself is translated by the
   * GeometryInfo tables. A quad DoF of face `face` (3d) lies in the
   * face-th block of dofs_per_quad quad DoFs of the cell. The debug-mode
   * checks (a non-standard orientation only with at most one DoF per line
   * and per quad, quad DoFs only in 3d) are not preconditions: the index a
   * release build returns is modelled for every orientation and dimension.
   */
  function FaceToCellIndex(d: FEData, g: Geometry, faceIndex: nat, face: nat,
                           orientation: bool, flip: bool, rotation: bool): (index: nat)
    requires faceIndex < d.dofsPerFace && face < g.facesPerCell
    requires faceIndex < d.firstFaceLineIndex ==> 0 < d.dofsPerVertex
    requires d.firstFaceLineIndex <= faceIndex < d.firstFaceQuadIndex ==> 0 < d.dofsPerLine
  {
    if faceIndex < d.firstFaceLineIndex then
      var faceVertex := faceIndex / d.dofsPerVertex;
      var onVertex := faceIndex % d.dofsPerVertex;
      g.faceToCellVertices(face, faceVertex, orientation, flip, rotation) * d.dofsPerVertex + onVertex
    else if faceIndex < d.firstFaceQuadIndex then
      var lineIndex := faceIndex - d.firstFaceLineIndex;
      var faceLine := lineIndex / d.dofsPerLine;
      var onLine := lineIndex % d.dofsPerLine;
      d.firstLineIndex + g.faceToCellLines(face, faceLine, orientation, flip, rotation) * d.dofsPerLine + onLine
    else
      d.firstQuadIndex + face * d.dofsPerQuad + (faceIndex - d.firstFaceQuadIndex)
  }

  /** With the DoF numbering of FiniteElementData, a face vertex DoF maps to a cell vertex DoF. */
  lemma FaceVertexDofToCellVertexDof(d: FEData, g: Geometry, faceIndex: nat, face: nat,
                                     orientation: bool, flip: bool, rotation: bool)
    requires LaidOut(d, g) && GeometryFits(g)
    requires faceIndex < d.dofsPerFace && face < g.facesPerCell
    requires faceIndex < d.firstFaceLineIndex
    ensures 0 < d.dofsPerVertex
    ensures FaceToCellIndex(d, g, faceIndex, face, orientation, flip, rotation) < d.firstLineIndex
  {
    var w := d.dofsPerVertex;
    assert 0 < w;
    var v := faceIndex / w;
    assert faceIndex < g.verticesPerFace * w;
    DivBelow(faceIndex, w, g.verticesPerFace);
    var cv := g.faceToCellVertices(face, v, orientation, flip, rotation);
    assert cv < g.verticesPerCell;
    SlotBelow(cv, g.verticesPerCell, w, faceIndex % w);
  }

  /** With the DoF numbering of FiniteElementData, a face line DoF maps to a cell line DoF. */
  lemma FaceLineDofToCellLineDof(d: FEData, g: Geometry, faceIndex: nat, face: nat,
                                 orientation: bool, flip: bool, rotation: bool)
    requires LaidOut(d, g) && GeometryFits(g)
    requires faceIndex < d.dofsPerFace && face < g.facesPerCell
    requires d.firstFaceLineIndex <= faceIndex < d.firstFaceQuadIndex
    ensures 0 < d.dofsPerLine
    ensures d.firstLineIndex <= FaceToCellIndex(d, g, faceIndex, face, orientation, flip, rotation) < d.firstQuadIndex
  {
    var w := d.dofsPerLine;
    var lineIndex := faceIndex - d.firstFaceLineIndex;
    var bound := if d.dofsPerFace < d.firstFaceQuadIndex then d.dofsPerFace else d.firstFaceQuadIndex;
    assert faceIndex < bound <= d.firstFaceLineIndex + g.linesPerFace * w;
    assert lineIndex < g.linesPerFace * w;
    assert 0 < w;
    DivBelow(lineIndex, w, g.linesPerFace);
    var cl := g.faceToCellLines(face, lineIndex / w, orientation, flip, rotation);
    assert cl < g.linesPerCell;
    var rem := lineIndex % w;
    assert FaceToCellIndex(d, g, faceIndex, face, orientation, flip, rotation) == d.firstLineIndex + cl * w + rem;
    OffsetSlotBelow(d.firstLineIndex, cl, g.linesPerCell, w, rem);
  }

  /** Slot k of width w past `first` lies in [first, first + n * w) when k < n. */
  lemma OffsetSlotBelow(first: nat, k: nat, n: nat, w: nat, r: nat)
    requires k < n && r < w
    ensures first <= first + k * w + r < first + n * w
  {
    SlotBelow(k, n, w, r);
  }

  /** With the DoF numbering of FiniteElementData, a face quad DoF (3d) maps to a cell quad DoF. */
  lemma FaceQuadDofToCellQuadDof(d: FEData, g: Geometry, faceIndex: nat, face: nat,
                                 orientation: bool, flip: bool, rotation: bool)
    requires LaidOut(d, g)
    requires faceIndex < d.dofsPerFace && face < g.facesPerCell
    requires d.firstFaceLineIndex <= faceIndex && d.firstFaceQuadIndex <= faceIndex && d.dim >= 3
    ensures d.firstQuadIndex <= FaceToCellIndex(d, g, faceIndex, face, orientation, flip, rotation) < d.firstHexIndex
  {
    SlotBelow(face, g.quadsPerCell, d.dofsPerQuad, faceIndex - d.firstFaceQuadIndex);
  }

  /**
   * A vertex DoF of a face keeps its offset within the vertex: the cell
   * index lies on the cell vertex the GeometryInfo table names, at the same
   * offset.
   */
  lemma FaceVertexDofKeepsOffset(d: FEData, g: Geometry, faceIndex: nat, face: nat,
                                 orientation: bool, flip: bool, rotation: bool)
    requires faceIndex < d.dofsPerFace && face < g.facesPerCell
    requires faceIndex < d.firstFaceLineIndex && 0 < d.dofsPerVertex
    ensures var index := FaceToCellIndex(d, g, faceIndex, face, orientation, flip, rotation);
      && index / d.dofsPerVertex == g.faceToCellVertices(face, faceIndex / d.dofsPerVertex, orientation, flip, rotation)
      && index % d.dofsPerVertex == faceIndex % d.dofsPerVertex
  {
    var w := d.dofsPerVertex;
    var cv := g.faceToCellVertices(face, faceIndex / w, orientation, flip, rotation);
    DivModUnique(cv * w + faceIndex % w, w, cv, faceIndex % w);
  }

  /**
   * A line DoF of a face keeps its offset within the line: past
   * first_line_index, the cell index lies on the cell line the GeometryInfo
   * table names, at the same offset.
   */
  lemma FaceLineDofKeepsOffset(d: FEData, g: Geometry, faceIndex: nat, face: nat,
                               orientation: bool, flip: bool, rotation: bool)
    requires faceIndex < d.dofsPerFace && face < g.facesPerCell
    requires d.firstFaceLineIndex <= faceIndex < d.firstFaceQuadIndex && 0 < d.dofsPerLine
    ensures var index := FaceToCellIndex(d, g, faceIndex, face, orientation, flip, rotation);
      var lineIndex := faceIndex - d.firstFaceLineIndex;
      && d.firstLineIndex <= index
      && (index - d.firstLineIndex) / d.dofsPerLine
         == g.faceToCellLines(face, lineIndex / d.dofsPerLine, orientation, flip, rotation)
      && (index - d.firstLineIndex) % d.dofsPerLine == lineIndex % d.dofsPerLine
  {
    var w := d.dofsPerLine;
    var lineIndex := faceIndex - d.firstFaceLineIndex;
    var cl := g.faceToCellLines(face, lineIndex / w, orientation, flip, rotation);
    DivModUnique(cl * w + lineIndex % w, w, cl, lineIndex % w);
  }

  /** The column of the face-orientation table: 4 * orientation + 2 * flip + rotation. */
  function OrientationCase(orientation: bool, flip: bool, rotation: bool): (k: nat)
    ensures k < 8
  {
    (if orientation then 4 else 0) + (if flip then 2 else 0) + (if rotation then 1 else 0)
  }

  /** index + offset as unsigned int arithmetic computes it: modulo 2^32. */
  function UIntAdd(index: nat, offset: int): (r: nat)
    ensures r < UIntModulus
    ensures 0 <= index + offset < UIntModulus ==> r == index + offset
  {
    (index + offset) % UIntModulus
  }

  /** A table of rows dofs and 8 orientation cases per row. */
  predicate QuadTableShaped(table: seq<seq<int>>, rows: nat)
  {
    |table| == rows && forall i :: 0 <= i < |table| ==> |table[i]| == 8
  }

  /**
   * adjust_quad_dof_index_for_face_orientation: outside 3d the index is
   * returned unchanged; in 3d the index is shifted by the table entry for
   * the index and the orientation case. A table whose shifts keep every
   * index on the quad maps a quad DoF to a quad DoF, and the all-zero
   * table a FiniteElement starts with maps every DoF to itself.
   */
  function AdjustQuadDofIndex(dim: nat, dofsPerQuad: nat, table: seq<seq<int>>, index: nat,
                              orientation: bool, flip: bool, rotation: bool): (r: nat)
    requires dim >= 3 ==> index < dofsPerQuad && QuadTableShaped(table, dofsPerQuad)
    ensures dim < 3 ==> r == index
    ensures dim >= 3 && 0 <= index + table[index][OrientationCase(orientation, flip, rotation)] < UIntModulus ==>
      r == index + table[index][OrientationCase(orientation, flip, rotation)]
    ensures dim >= 3 && dofsPerQuad <= UIntModulus && QuadShiftsStayOnQuad(table, dofsPerQuad) ==> r < dofsPerQuad
    ensures dim >= 3 && index < UIntModulus && ZeroShifts(table, dofsPerQuad) ==> r == index
  {
    if dim < 3 then index
    else
      var shift := table[index][OrientationCase(orientation, flip, rotation)];
      assert QuadShiftsStayOnQuad(table, dofsPerQuad) ==> 0 <= index + shift < dofsPerQuad;
      assert ZeroShifts(table, dofsPerQuad) ==> shift == 0;
      UIntAdd(index, shift)
  }

  /** Every shift of the quad table keeps its DoF on the quad. */
  predicate QuadShiftsStayOnQuad(table: seq<seq<int>>, dofsPerQuad: nat)
    requires QuadTableShaped(table, dofsPerQuad)
  {
    forall i, k :: 0 <= i < dofsPerQuad && 0 <= k < 8 ==> 0 <= i + table[i][k] < dofsPerQuad
  }

  /** Every shift of the quad table is zero. */
  predicate ZeroShifts(table: seq<seq<int>>, dofsPerQuad: nat)
    requires QuadTableShaped(table, dofsPerQuad)
  {
    forall i, k :: 0 <= i < dofsPerQuad && 0 <= k < 8 ==> table[i][k] == 0
  }

  /**
   * adjust_line_dof_index_for_line_orientation: outside 3d, or for a line
   * in standard orientation, the index is returned unchanged; otherwise it
   * is shifted by the table entry for the index. A table whose shifts keep
   * every index on the line maps a line DoF to a line DoF, and the all-zero
   * table maps every DoF to itself.
   */
  function AdjustLineDofIndex(dim: nat, dofsPerLine: nat, table: seq<int>, index: nat, lineOrientation: bool): (r: nat)
    requires dim >= 3 ==> index < dofsPerLine && |table| == dofsPerLine
    ensures dim < 3 || lineOrientation ==> r == index
    ensures dim >= 3 && !lineOrientation && 0 <= index + table[index] < UIntModulus ==> r == index + table[index]
    ensures dim >= 3 && dofsPerLine <= UIntModulus && (forall i :: 0 <= i < dofsPerLine ==> 0 <= i + table[i] < dofsPerLine) ==>
      r < dofsPerLine
    ensures dim >= 3 && index < UIntModulus && (forall i :: 0 <= i < dofsPerLine ==> table[i] == 0) ==> r == index
  {
    if dim < 3 then index
    else if lineOrientation then index
    else UIntAdd(index, table[index])
  }

  /** The dimensions of a FullMatrix, or of a TableIndices<2>. */
  datatype Dims = Dims(m: nat, n: nat)

  /**
   * interface_constraints_size: the shape of the hanging-node constraint
   * matrix, one row per DoF that refining a face creates, one column per
   * DoF of the coarse face. No constraints in 1d; a dimension other than
   * 1, 2 or 3 gives invalid_unsigned_int twice.
   *
   * The row count agrees with an independent count for a face whose DoFs
   * are those of its vertices, lines and quad: the children of the refined
   * face carry `children` times the DoFs of a face, less the DoFs on the
   * vertices and lines they share (counted once more each time they
   * repeat), less the DoFs on the coarse face's own vertices, which are not
   * constrained. In 2d a line has 2 children sharing 1 vertex; in 3d a quad
   * has 4 children sharing 5 vertices (the centre 4 times, 4 edge midpoints
   * twice) and 4 interior lines (twice each).
   */
  function InterfaceConstraintsSize(d: FEData): (size: Dims)
    ensures d.dim == 1 ==> size == Dims(0, 0)
    ensures d.dim == 2 || d.dim == 3 ==> size.n == d.dofsPerFace
    ensures d.dim == 2 && d.dofsPerFace == 2 * d.dofsPerVertex + d.dofsPerLine ==>
      size.m == 2 * d.dofsPerFace - 1 * d.dofsPerVertex - 2 * d.dofsPerVertex
    ensures d.dim == 3 && d.dofsPerFace == 4 * d.dofsPerVertex + 4 * d.dofsPerLine + d.dofsPerQuad ==>
      size.m == 4 * d.dofsPerFace - (3 + 4) * d.dofsPerVertex - 4 * d.dofsPerLine - 4 * d.dofsPerVertex
    ensures d.dim !in {1, 2, 3} ==> size == Dims(InvalidUnsignedInt, InvalidUnsignedInt)
  {
    match d.dim
    case 1 => Dims(0, 0)
    case 2 => Dims(d.dofsPerVertex + 2 * d.dofsPerLine, d.dofsPerFace)
    case 3 => Dims(5 * d.dofsPerVertex + 12 * d.dofsPerLine + 4 * d.dofsPerQuad, d.dofsPerFace)
    case _ => Dims(InvalidUnsignedInt, InvalidUnsignedInt)
  }

  /** The subface cases: internal::SubfaceCase<dim>, of which only the isotropic one is implemented. */
  datatype SubfaceCase = CaseIsotropic | OtherSubfaceCase(code: nat)

  /**
   * constraints_are_implemented: only for isotropically refined faces, and
   * then when there are no face DoFs or the constraint matrix has rows.
   */
  function ConstraintsAreImplemented(subfaceCase: SubfaceCase, dofsPerFace: nat, interfaceConstraints: Dims): (r: bool)
    ensures r ==> subfaceCase == CaseIsotropic
    ensures subfaceCase == CaseIsotropic && dofsPerFace == 0 ==> r
    ensures r && dofsPerFace > 0 ==> interfaceConstraints.m > 0
    ensures subfaceCase == CaseIsotropic && interfaceConstraints.m > 0 ==> r
  {
    if subfaceCase == CaseIsotropic then dofsPerFace == 0 || interfaceConstraints.m != 0 else false
  }

  /**
   * An element in 2d or 3d whose face DoFs are those of its face's
   * vertices, lines and quad, and whose constraint matrix has the shape
   * interface_constraints_size gives, implements constraints for
   * isotropically refined faces. In 1d, where that shape has no rows, only
   * an element without face DoFs does.
   */
  lemma InterfaceSizedConstraintsAreImplemented(d: FEData)
    requires d.dim == 2 ==> d.dofsPerFace == 2 * d.dofsPerVertex + d.dofsPerLine
    requires d.dim == 3 ==> d.dofsPerFace == 4 * d.dofsPerVertex + 4 * d.dofsPerLine + d.dofsPerQuad
    ensures d.dim == 2 || d.dim == 3 ==> ConstraintsAreImplemented(CaseIsotropic, d.dofsPerFace, InterfaceConstraintsSize(d))
    ensures d.dim == 1 ==> (ConstraintsAreImplemented(CaseIsotropic, d.dofsPerFace, InterfaceConstraintsSize(d)) <==> d.dofsPerFace == 0)
  {
    var size := InterfaceConstraintsSize(d);
    if d.dim == 2 && d.dofsPerFace > 0 {
      assert size.m > 0;
    } else if d.dim == 3 && d.dofsPerFace > 0 {
      assert size.m > 0;
    }
  }

  /* ---------------------------------------------------------------------
   * Support points
   * ------------------------------------------------------------------- */

  /**
   * get_generalized_support_points, and get_generalized_face_support_points
   * on faces: the generalized points, or the unit ones if there are none.
   */
  function GeneralizedSupportPoints<P>(unit: seq<P>, generalized: seq<P>): seq<P>
  {
    if |generalized| == 0 then unit else generalized
  }

  /** has_support_points, and has_face_support_points on faces. */
  predicate HasSupportPoints<P>(unit: seq<P>)
  {
    |unit| != 0
  }

  /**
   * has_generalized_support_points asks get_generalized_support_points, so
   * an element with unit support points has generalized ones too.
   */
  predicate HasGeneralizedSupportPoints<P>(unit: seq<P>, generalized: seq<P>): (has: bool)
    ensures has <==> HasSupportPoints(unit) || |generalized| != 0
    ensures HasSupportPoints(unit) ==> has
  {
    |GeneralizedSupportPoints(unit, generalized)| != 0
  }

  /** has_generalized_face_support_points: asks the generalized face points only, with no fallback. */
  predicate HasGeneralizedFaceSupportPoints<P>(generalizedFace: seq<P>)
  {
    |generalizedFace| != 0
  }

  /**
   * The accessors on cells and on faces. The generalized points are
   * preferred, with the unit points as fallback, so the points returned
   * are empty only when both are. On cells the has-query agrees with what
   * the accessor returns; on faces it does not: an element with unit face
   * support points and no generalized ones answers false, although
   * get_generalized_face_support_points returns its unit face points.
   */
  lemma SupportPointQueries<P>(unit: seq<P>, generalized: seq<P>, unitFace: seq<P>, generalizedFace: seq<P>)
    ensures |generalized| != 0 ==> GeneralizedSupportPoints(unit, generalized) == generalized
    ensures |generalized| == 0 ==> GeneralizedSupportPoints(unit, generalized) == unit
    ensures |GeneralizedSupportPoints(unit, generalized)| == 0 <==> |unit| == 0 && |generalized| == 0
    ensures HasGeneralizedSupportPoints(unit, generalized) <==> |GeneralizedSupportPoints(unit, generalized)| != 0
    ensures HasGeneralizedFaceSupportPoints(generalizedFace) <==> |generalizedFace| != 0
    ensures HasSupportPoints(unitFace) && |generalizedFace| == 0 ==>
      !HasGeneralizedFaceSupportPoints(generalizedFace) && GeneralizedSupportPoints(unitFace, generalizedFace) == unitFace
  {
  }

  /* ---------------------------------------------------------------------
   * Restriction and prolongation matrices, by their dimensions
   * ------------------------------------------------------------------- */

  /**
   * The matrices for refinement case refCase (1 .. isotropic_refinement)
   * sit at index refCase - 1; each case has one matrix per child.
   */
  predicate MatricesShaped(ms: seq<seq<Dims>>, g: Geometry, iso: nat)
  {
    |ms| == iso && forall r :: 0 <= r < iso ==> |ms[r]| == g.nChildren(r + 1)
  }

  /** The tables the constructor allocates: one empty matrix per child of every refinement case. */
  function EmptyMatrices(g: Geometry, iso: nat): (ms: seq<seq<Dims>>)
    ensures MatricesShaped(ms, g, iso)
    ensures forall r, i :: 0 <= r < iso && 0 <= i < |ms[r]| ==> ms[r][i] == Dims(0, 0)
  {
    seq(iso, r requires 0 <= r => seq(g.nChildren(r + 1), i => Dims(0, 0)))
  }

  /**
   * One matrix as reinit_restriction_and_prolongation_matrices leaves it:
   * resized to dofs_per_cell square when its row count differs, and, if
   * only isotropic matrices are to be touched, only in the isotropic case.
   */
  function ResizedMatrix(m: Dims, dofsPerCell: nat, isotropicOnly: bool, refCase: nat, iso: nat): Dims
  {
    if m.m != dofsPerCell && (!isotropicOnly || refCase == iso) then Dims(dofsPerCell, dofsPerCell) else m
  }

  /** Every matrix of a table as reinit_restriction_and_prolongation_matrices leaves it. */
  function Resized(ms: seq<seq<Dims>>, dofsPerCell: nat, isotropicOnly: bool, iso: nat): (r: seq<seq<Dims>>)
    ensures |r| == |ms| && forall k :: 0 <= k < |ms| ==> |r[k]| == |ms[k]|
  {
    seq(|ms|, k requires 0 <= k < |ms| =>
      seq(|ms[k]|, i requires 0 <= i < |ms[k]| => ResizedMatrix(ms[k][i], dofsPerCell, isotropicOnly, k + 1, iso)))
  }

  /**
   * After reinit every matrix it may touch has dofs_per_cell rows (the
   * already-sized ones keep their columns); a matrix it may not touch, or
   * one that already had dofs_per_cell rows, is unchanged. Doing it twice
   * is doing it once.
   */
  lemma ResizedEffect(ms: seq<seq<Dims>>, dofsPerCell: nat, isotropicOnly: bool, iso: nat)
    ensures forall k, i :: 0 <= k < |ms| && 0 <= i < |ms[k]| ==>
      var m := Resized(ms, dofsPerCell, isotropicOnly, iso)[k][i];
      && (!isotropicOnly || k + 1 == iso ==> m.m == dofsPerCell)
      && (isotropicOnly && k + 1 != iso ==> m == ms[k][i])
      && (ms[k][i].m == dofsPerCell ==> m == ms[k][i])
      && (ms[k][i].m != dofsPerCell && (!isotropicOnly || k + 1 == iso) ==> m == Dims(dofsPerCell, dofsPerCell))
    ensures Resized(Resized(ms, dofsPerCell, isotropicOnly, iso), dofsPerCell, isotropicOnly, iso)
         == Resized(ms, dofsPerCell, isotropicOnly, iso)
  {
    var r := Resized(ms, dofsPerCell, isotropicOnly, iso);
    var rr := Resized(r, dofsPerCell, isotropicOnly, iso);
    forall k | 0 <= k < |ms| ensures rr[k] == r[k] {
      assert |rr[k]| == |r[k]|;
    }
  }

  /** Every matrix of a table has rows and columns. */
  predicate AllImplemented(ms: seq<seq<Dims>>)
  {
    forall k, i :: 0 <= k < |ms| && 0 <= i < |ms[k]| ==> ms[k][i].m != 0 && ms[k][i].n != 0
  }

  /** Every matrix of one refinement case has rows and columns. */
  predicate RowImplemented(row: seq<Dims>)
  {
    forall i :: 0 <= i < |row| ==> row[i].m != 0 && row[i].n != 0
  }

  /** Every matrix of the isotropic refinement case has rows and columns. */
  predicate IsotropicImplemented(ms: seq<seq<Dims>>, iso: nat)
    requires 1 <= iso <= |ms|
  {
    RowImplemented(ms[iso - 1])
  }

  /** The isotropic matrices are among all matrices. */
  lemma ImplementedImpliesIsotropic(ms: seq<seq<Dims>>, iso: nat)
    requires 1 <= iso <= |ms| && AllImplemented(ms)
    ensures IsotropicImplemented(ms, iso)
  {
  }

  /**
   * After a full reinit with dofs_per_cell > 0, the matrices are
   * implemented, provided no matrix had dofs_per_cell rows and no columns;
   * after an isotropic-only reinit, the isotropic ones are.
   */
  lemma ResizedImplemented(ms: seq<seq<Dims>>, dofsPerCell: nat, isotropicOnly: bool, iso: nat)
    requires 0 < dofsPerCell && 1 <= iso <= |ms|
    requires forall k, i :: 0 <= k < |ms| && 0 <= i < |ms[k]| && ms[k][i].m == dofsPerCell ==> ms[k][i].n != 0
    ensures !isotropicOnly ==> AllImplemented(Resized(ms, dofsPerCell, isotropicOnly, iso))
    ensures IsotropicImplemented(Resized(ms, dofsPerCell, isotropicOnly, iso), iso)
  {
    ResizedEffect(ms, dofsPerCell, isotropicOnly, iso);
  }

  /** The loop of prolongation_is_implemented / restriction_is_implemented: stop at the first empty matrix. */
  method NoEmptyMatrix(ms: seq<seq<Dims>>) returns (implemented: bool)
    ensures implemented <==> AllImplemented(ms)
  {
    var k := 0;
    while k < |ms|
      invariant k <= |ms|
      invariant forall k', i :: 0 <= k' < k && 0 <= i < |ms[k']| ==> ms[k'][i].m != 0 && ms[k'][i].n != 0
    {
      var c := 0;
      while c < |ms[k]|
        invariant c <= |ms[k]|
        invariant forall i :: 0 <= i < c ==> ms[k][i].m != 0 && ms[k][i].n != 0
      {
        if ms[k][c].m == 0 || ms[k][c].n == 0 {
          return false;
        }
        c := c + 1;
      }
      k := k + 1;
    }
    return true;
  }

  /** The loop of the isotropic_*_is_implemented functions: the isotropic case only. */
  method NoEmptyIsotropicMatrix(ms: seq<seq<Dims>>, iso: nat) returns (implemented: bool)
    requires 1 <= iso <= |ms|
    ensures implemented <==> IsotropicImplemented(ms, iso)
  {
    var row := ms[iso - 1];
    var c := 0;
    while c < |row|
      invariant c <= |row|
      invariant forall i :: 0 <= i < c ==> row[i].m != 0 && row[i].n != 0
    {
      if row[c].m == 0 || row[c].n == 0 {
        return false;
      }
      c := c + 1;
    }
    return true;
  }

  /* ---------------------------------------------------------------------
   * The FiniteElement object
   * ------------------------------------------------------------------- */

  /** ((base element, instance), index): an entry of system_to_base_table or component_to_base_table. */
  datatype BaseIndex = BaseIndex(base: nat, instance: nat, index: nat)

  /** The block of component c: the first block of its base element plus its index within that element. */
  function BlockIndex(componentToBase: seq<BaseIndex>, firstBlockOfBase: seq<nat>, c: nat): nat
    requires c < |componentToBase| && componentToBase[c].base < |firstBlockOfBase|
  {
    firstBlockOfBase[componentToBase[c].base] + componentToBase[c].index
  }

  /**
   * The first blocks of distinct base elements differ, and the index of a
   * component within its base element stays below the first block of every
   * base element that starts later.
   */
  predicate BaseBlocksDisjoint(componentToBase: seq<BaseIndex>, firstBlockOfBase: seq<nat>)
  {
    && (forall c :: 0 <= c < |componentToBase| ==> componentToBase[c].base < |firstBlockOfBase|)
    && (forall b, b' :: 0 <= b < |firstBlockOfBase| && 0 <= b' < |firstBlockOfBase| && b != b' ==>
          firstBlockOfBase[b] != firstBlockOfBase[b'])
    && (forall c, b ::
          0 <= c < |componentToBase| && 0 <= b < |firstBlockOfBase| && firstBlockOfBase[componentToBase[c].base] < firstBlockOfBase[b]
          ==> firstBlockOfBase[componentToBase[c].base] + componentToBase[c].index < firstBlockOfBase[b])
  }

  /**
   * When the blocks of the base elements do not overlap, two components
   * share a block iff they are the same index of the same base element:
   * the block determines the base element and the index within it.
   */
  lemma BlockIndexIdentifiesBase(componentToBase: seq<BaseIndex>, firstBlockOfBase: seq<nat>, c: nat, c': nat)
    requires c < |componentToBase| && c' < |componentToBase|
    requires BaseBlocksDisjoint(componentToBase, firstBlockOfBase)
    ensures BlockIndex(componentToBase, firstBlockOfBase, c) == BlockIndex(componentToBase, firstBlockOfBase, c') <==>
      componentToBase[c].base == componentToBase[c'].base && componentToBase[c].index == componentToBase[c'].index
  {
    var b, b' := componentToBase[c].base, componentToBase[c'].base;
    if b != b' {
      assert firstBlockOfBase[b] != firstBlockOfBase[b'];
      if firstBlockOfBase[b] < firstBlockOfBase[b'] {
        assert BlockIndex(componentToBase, firstBlockOfBase, c) < firstBlockOfBase[b'];
      } else {
        assert BlockIndex(componentToBase, firstBlockOfBase, c') < firstBlockOfBase[b];
      }
    }
  }

  /** The default system_to_component_table of n DoFs: DoF j is number j of component 0. */
  function ComponentTable(n: nat): seq<(nat, nat)>
  {
    seq(n, j requires 0 <= j => (0, j))
  }

  /** The default system_to_base_table of n DoFs: DoF j is number j of base element 0, instance 0. */
  function BaseTable(n: nat): seq<BaseIndex>
  {
    seq(n, j requires 0 <= j => BaseIndex(0, 0, j))
  }

  /** The constructor's loop filling a system_to_component_table. */
  method FillComponentTable(n: nat) returns (table: seq<(nat, nat)>)
    ensures table == ComponentTable(n)
  {
    table := [];
    for j := 0 to n
      invariant table == ComponentTable(j)
    {
      table := table + [(0, j)];
    }
  }

  /** The constructor's loop filling a system_to_base_table. */
  method FillBaseTable(n: nat) returns (table: seq<BaseIndex>)
    ensures table == BaseTable(n)
  {
    table := [];
    for j := 0 to n
      invariant table == BaseTable(j)
    {
      table := table + [BaseIndex(0, 0, j)];
    }
  }

  /** The loop setting the flags of the components lo .. hi - 1 in a mask of n components. */
  method SelectRange(n: nat, lo: nat, hi: nat) returns (mask: ComponentMask)
    requires lo <= hi <= n
    ensures |mask| == n
    ensures forall c :: 0 <= c < n ==> (mask[c] <==> lo <= c < hi)
  {
    mask := seq(n, c => false);
    for c := lo to hi
      invariant |mask| == n
      invariant forall c' :: 0 <= c' < n ==> (mask[c'] <==> lo <= c' < c)
    {
      mask := mask[c := true];
    }
  }

  class FiniteElement {
    const data: FEData
    const geometry: Geometry
    var restrictionIsAdditiveFlags: seq<bool>
    var nonzeroComponents: seq<ComponentMask>
    var nNonzeroComponentsTable: seq<nat>
    var cachedPrimitivity: bool
    var systemToComponentTable: seq<(nat, nat)>
    var faceSystemToComponentTable: seq<(nat, nat)>
    var systemToBaseTable: seq<BaseIndex>
    var faceSystemToBaseTable: seq<BaseIndex>
    var componentToBaseTable: seq<BaseIndex>
    /** base_to_block_indices, by the first block of every base element. */
    var firstBlockOfBase: seq<nat>
    var adjustQuadTable: seq<seq<int>>
    var adjustLineTable: seq<int>
    var prolongation: seq<seq<Dims>>
    var restriction: seq<seq<Dims>>

    /** RefinementCase<dim>::isotropic_refinement. */
    function Iso(): nat
    {
      IsotropicRefinement(data.dim)
    }

    /** component_to_base_table has an entry per component, naming a base element with a first block. */
    predicate BlockTableFits()
      reads this
    {
      && |componentToBaseTable| == data.components
      && forall c :: 0 <= c < |componentToBaseTable| ==> componentToBaseTable[c].base < |firstBlockOfBase|
    }

    /** component_to_block_index. */
    function ComponentToBlockIndex(c: nat): nat
      reads this
      requires BlockTableFits() && c < data.components
    {
      BlockIndex(componentToBaseTable, firstBlockOfBase, c)
    }

    /** The block of every component. */
    function BlockMap(): (blockOf: seq<nat>)
      reads this
      requires BlockTableFits()
      ensures |blockOf| == data.components
      ensures forall c :: 0 <= c < data.components ==> blockOf[c] == ComponentToBlockIndex(c)
      ensures BlocksValid() ==> forall c :: 0 <= c < |blockOf| ==> blockOf[c] < data.blocks
    {
      var table, starts := componentToBaseTable, firstBlockOfBase;
      seq(data.components, c requires 0 <= c < data.components => BlockIndex(table, starts, c))
    }

    /** Every component lies in one of the element's blocks. */
    predicate BlocksValid()
      reads this
    {
      BlockTableFits() && forall c :: 0 <= c < data.components ==> ComponentToBlockIndex(c) < data.blocks
    }

    /**
     * The constructor: flag and mask vectors of length one are expanded to
     * dofs_per_cell copies; the nonzero-component table and the primitivity
     * flag are computed from the masks; a primitive element numbers its DoFs
     * within component 0, every element within base element 0; there is one
     * block, starting at 0; every refinement case gets one empty matrix per
     * child; the orientation tables are zero.
     */
    constructor (data: FEData, geometry: Geometry, flags: seq<bool>, nonzero: seq<ComponentMask>)
      requires |Expand(flags, data.dofsPerCell)| == data.dofsPerCell
      requires |Expand(nonzero, data.dofsPerCell)| == data.dofsPerCell
      requires forall i :: 0 <= i < |Expand(nonzero, data.dofsPerCell)| ==>
        |Expand(nonzero, data.dofsPerCell)[i]| == data.components && Selected(Expand(nonzero, data.dofsPerCell)[i]) >= 1
      ensures this.data == data && this.geometry == geometry
      ensures restrictionIsAdditiveFlags == Expand(flags, data.dofsPerCell)
      ensures nonzeroComponents == Expand(nonzero, data.dofsPerCell)
      ensures nNonzeroComponentsTable == NonzeroCounts(nonzeroComponents)
      ensures forall i :: 0 <= i < |nNonzeroComponentsTable| ==> 1 <= nNonzeroComponentsTable[i] <= data.components
      ensures cachedPrimitivity == AllOnes(nNonzeroComponentsTable)
      ensures cachedPrimitivity ==>
        systemToComponentTable == ComponentTable(data.dofsPerCell) && faceSystemToComponentTable == ComponentTable(data.dofsPerFace)
      ensures !cachedPrimitivity ==> systemToComponentTable == [] && faceSystemToComponentTable == []
      ensures systemToBaseTable == BaseTable(data.dofsPerCell) && faceSystemToBaseTable == BaseTable(data.dofsPerFace)
      ensures componentToBaseTable == seq(data.components, c => BaseIndex(0, 0, 0)) && firstBlockOfBase == [0]
      ensures adjustQuadTable == (if data.dim == 3 then seq(data.dofsPerQuad, i => seq(8, k => 0)) else [])
      ensures adjustLineTable == (if data.dim == 3 then seq(data.dofsPerLine, i => 0) else [])
      ensures prolongation == EmptyMatrices(geometry, IsotropicRefinement(data.dim))
      ensures restriction == EmptyMatrices(geometry, IsotropicRefinement(data.dim))
    {
      this.data := data;
      this.geometry := geometry;
      restrictionIsAdditiveFlags := Expand(flags, data.dofsPerCell);
      var masks := Expand(nonzero, data.dofsPerCell);
      nonzeroComponents := masks;
      var table := ComputeNNonzeroComponents(masks);
      nNonzeroComponentsTable := table;
      forall i | 0 <= i < |table| ensures 1 <= table[i] <= data.components {
        SelectedBound(masks[i]);
      }
      var primitive := AllOnes(table);
      cachedPrimitivity := primitive;
      var toComponent: seq<(nat, nat)> := [];
      var faceToComponent: seq<(nat, nat)> := [];
      if primitive {
        toComponent := FillComponentTable(data.dofsPerCell);
        faceToComponent := FillComponentTable(data.dofsPerFace);
      }
      systemToComponentTable := toComponent;
      faceSystemToComponentTable := faceToComponent;
      var toBase := FillBaseTable(data.dofsPerCell);
      var faceToBase := FillBaseTable(data.dofsPerFace);
      systemToBaseTable := toBase;
      faceSystemToBaseTable := faceToBase;
      componentToBaseTable := seq(data.components, c => BaseIndex(0, 0, 0));
      firstBlockOfBase := [0];
      adjustQuadTable := if data.dim == 3 then seq(data.dofsPerQuad, i => seq(8, k => 0)) else [];
      adjustLineTable := if data.dim == 3 then seq(data.dofsPerLine, i => 0) else [];

      var iso := IsotropicRefinement(data.dim);
      var p: seq<seq<Dims>> := seq(iso, r => []);
      var q: seq<seq<Dims>> := seq(iso, r => []);
      for refCase := 1 to iso + 1
        invariant |p| == iso && |q| == iso
        invariant forall r :: 0 <= r < refCase - 1 ==> p[r] == EmptyMatrices(geometry, iso)[r] && q[r] == EmptyMatrices(geometry, iso)[r]
      {
        p := p[refCase - 1 := seq(geometry.nChildren(refCase), i => Dims(0, 0))];
        q := q[refCase - 1 := seq(geometry.nChildren(refCase), i => Dims(0, 0))];
      }
      prolongation := p;
      restriction := q;
    }

    /**
     * A freshly constructed element puts every component in block 0, so it
     * has valid blocks as soon as it has one block.
     */
    lemma DefaultBlocks()
      requires componentToBaseTable == seq(data.components, c => BaseIndex(0, 0, 0)) && firstBlockOfBase == [0]
      ensures BlockTableFits()
      ensures forall c :: 0 <= c < data.components ==> ComponentToBlockIndex(c) == 0
      ensures 0 < data.blocks ==> BlocksValid()
    {
    }

    /**
     * When the blocks of the base elements do not overlap,
     * component_to_block_index puts two components in the same block iff
     * they are the same index of the same base element.
     */
    lemma ComponentsShareBlock(c: nat, c': nat)
      requires BlockTableFits() && c < data.components && c' < data.components
      requires BaseBlocksDisjoint(componentToBaseTable, firstBlockOfBase)
      ensures ComponentToBlockIndex(c) == ComponentToBlockIndex(c') <==>
        componentToBaseTable[c].base == componentToBaseTable[c'].base &&
        componentToBaseTable[c].index == componentToBaseTable[c'].index
    {
      BlockIndexIdentifiesBase(componentToBaseTable, firstBlockOfBase, c, c');
    }

    /** component_mask(Scalar): exactly the scalar's component. */
    method ScalarComponentMask(component: nat) returns (mask: ComponentMask)
      requires component < data.components
      ensures |mask| == data.components
      ensures forall c :: 0 <= c < data.components ==> (mask[c] <==> c == component)
    {
      mask := seq(data.components, c => false);
      mask := mask[component := true];
    }

    /** component_mask(Vector): the dim components starting at the vector's first one. */
    method VectorComponentMask(first: nat) returns (mask: ComponentMask)
      requires first + data.dim <= data.components
      ensures |mask| == data.components
      ensures forall c :: 0 <= c < data.components ==> (mask[c] <==> first <= c < first + data.dim)
    {
      mask := SelectRange(data.components, first, first + data.dim);
    }

    /** component_mask(SymmetricTensor<2>): the dim(dim+1)/2 components starting at the tensor's first one. */
    method SymmetricTensorComponentMask(first: nat) returns (mask: ComponentMask)
      requires first + SymmetricTensorComponents(data.dim) <= data.components
      ensures |mask| == data.components
      ensures forall c :: 0 <= c < data.components ==>
        (mask[c] <==> first <= c < first + SymmetricTensorComponents(data.dim))
    {
      mask := SelectRange(data.components, first, first + SymmetricTensorComponents(data.dim));
    }

    /**
     * component_mask(BlockMask): the all-selected block mask gives the
     * all-selected component mask; otherwise a component is selected iff
     * its block is.
     */
    method ComponentMaskOfBlocks(blockMask: BlockMask) returns (mask: ComponentMask)
      requires BlocksValid()
      requires |blockMask| == 0 || |blockMask| == data.blocks
      ensures mask == ComponentsOf(BlockMap(), blockMask)
    {
      if |blockMask| == 0 {
        return [];
      }
      mask := seq(data.components, c => false);
      for c := 0 to data.components
        invariant |mask| == data.components
        invariant forall c' :: 0 <= c' < data.components ==> mask[c'] == (c' < c && blockMask[ComponentToBlockIndex(c')])
      {
        if blockMask[ComponentToBlockIndex(c)] {
          mask := mask[c := true];
        }
      }
    }

    /**
     * block_mask(ComponentMask): the all-selected component mask gives the
     * all-selected block mask; otherwise the components are walked run by
     * run (a run being consecutive components of one block), a block is set
     * when the first component of one of its runs is selected, and every
     * later component of the run must agree with the block's flag.
     */
    method BlockMaskOfComponents(mask: ComponentMask) returns (blockMask: BlockMask)
      requires BlocksValid()
      requires |mask| == 0 || |mask| == data.components
      requires |mask| > 0 ==> RunsAgree(BlockMap(), mask)
      ensures blockMask == BlocksOf(BlockMap(), data.blocks, mask)
    {
      if |mask| == 0 {
        return [];
      }
      ghost var blockOf := BlockMap();
      blockMask := seq(data.blocks, b => false);
      var c := 0;
      while c < data.components
        invariant c <= data.components && |blockMask| == data.blocks
        invariant c < data.components ==> RunHead(blockOf, c)
        invariant forall b :: 0 <= b < data.blocks ==> blockMask[b] == HeadSelectedBefore(blockOf, mask, b, c)
      {
        var block := ComponentToBlockIndex(c);
        HeadSelectedStep(blockOf, mask, c);
        if mask[c] {
          blockMask := blockMask[block := true];
        }
        c := c + 1;
        while c < data.components && ComponentToBlockIndex(c) == block
          invariant c <= data.components && 0 < c && blockOf[c - 1] == block
          invariant forall b :: 0 <= b < data.blocks ==> blockMask[b] == HeadSelectedBefore(blockOf, mask, b, c)
        {
          assert mask[c] == blockMask[block];
          HeadSelectedStep(blockOf, mask, c);
          c := c + 1;
        }
      }
      forall b | 0 <= b < data.blocks ensures blockMask[b] == HeadSelected(blockOf, mask, b) {
      }
    }

    /** block_mask(Scalar): the block mask of the scalar's component mask. */
    method ScalarBlockMask(component: nat) returns (blockMask: BlockMask)
      requires BlocksValid() && component < data.components
      requires RunsAgree(BlockMap(), Selecting(data.components, component, component + 1))
      ensures blockMask == BlocksOf(BlockMap(), data.blocks, Selecting(data.components, component, component + 1))
    {
      var mask := ScalarComponentMask(component);
      assert mask == Selecting(data.components, component, component + 1);
      blockMask := BlockMaskOfComponents(mask);
    }

    /** block_mask(Vector): the block mask of the vector's component mask. */
    method VectorBlockMask(first: nat) returns (blockMask: BlockMask)
      requires BlocksValid() && first + data.dim <= data.components && 0 < data.components
      requires RunsAgree(BlockMap(), Selecting(data.components, first, first + data.dim))
      ensures blockMask == BlocksOf(BlockMap(), data.blocks, Selecting(data.components, first, first + data.dim))
    {
      var mask := VectorComponentMask(first);
      assert mask == Selecting(data.components, first, first + data.dim);
      blockMask := BlockMaskOfComponents(mask);
    }

    /** block_mask(SymmetricTensor<2>): the block mask of the tensor's component mask. */
    method SymmetricTensorBlockMask(first: nat) returns (blockMask: BlockMask)
      requires BlocksValid() && first + SymmetricTensorComponents(data.dim) <= data.components && 0 < data.components
      requires RunsAgree(BlockMap(), Selecting(data.components, first, first + SymmetricTensorComponents(data.dim)))
      ensures blockMask == BlocksOf(BlockMap(), data.blocks, Selecting(data.components, first, first + SymmetricTensorComponents(data.dim)))
    {
      var mask := SymmetricTensorComponentMask(first);
      assert mask == Selecting(data.components, first, first + SymmetricTensorComponents(data.dim));
      blockMask := BlockMaskOfComponents(mask);
    }

    /**
     * reinit_restriction_and_prolongation_matrices: every matrix whose row
     * count differs from dofs_per_cell becomes dofs_per_cell square, except
     * that an isotropic-only flag confines this to the isotropic case.
     */
    method ReinitRestrictionAndProlongationMatrices(isotropicRestrictionOnly: bool, isotropicProlongationOnly: bool)
      requires MatricesShaped(restriction, geometry, Iso()) && MatricesShaped(prolongation, geometry, Iso())
      modifies this`restriction, this`prolongation
      ensures restriction == Resized(old(restriction), data.dofsPerCell, isotropicRestrictionOnly, Iso())
      ensures prolongation == Resized(old(prolongation), data.dofsPerCell, isotropicProlongationOnly, Iso())
    {
      var iso := Iso();
      var dpc := data.dofsPerCell;
      ghost var r0, p0 := restriction, prolongation;
      for k := 0 to iso
        invariant |restriction| == iso && |prolongation| == iso
        invariant forall k' :: 0 <= k' < k ==>
          restriction[k'] == Resized(r0, dpc, isotropicRestrictionOnly, iso)[k'] &&
          prolongation[k'] == Resized(p0, dpc, isotropicProlongationOnly, iso)[k']
        invariant forall k' :: k <= k' < iso ==> restriction[k'] == r0[k'] && prolongation[k'] == p0[k']
      {
        var refCase := k + 1;
        var nc := geometry.nChildren(refCase);
        for i := 0 to nc
          invariant |restriction| == iso && |prolongation| == iso
          invariant |restriction[k]| == nc && |prolongation[k]| == nc
          invariant forall j :: 0 <= j < i ==>
            restriction[k][j] == ResizedMatrix(r0[k][j], dpc, isotropicRestrictionOnly, refCase, iso) &&
            prolongation[k][j] == ResizedMatrix(p0[k][j], dpc, isotropicProlongationOnly, refCase, iso)
          invariant forall j :: i <= j < nc ==> restriction[k][j] == r0[k][j] && prolongation[k][j] == p0[k][j]
          invariant forall k' :: 0 <= k' < k ==>
            restriction[k'] == Resized(r0, dpc, isotropicRestrictionOnly, iso)[k'] &&
            prolongation[k'] == Resized(p0, dpc, isotropicProlongationOnly, iso)[k']
          invariant forall k' :: k < k' < iso ==> restriction[k'] == r0[k'] && prolongation[k'] == p0[k']
        {
          if restriction[k][i].m != dpc && (!isotropicRestrictionOnly || refCase == iso) {
            restriction := restriction[k := restriction[k][i := Dims(dpc, dpc)]];
          }
          if prolongation[k][i].m != dpc && (!isotropicProlongationOnly || refCase == iso) {
            prolongation := prolongation[k := prolongation[k][i := Dims(dpc, dpc)]];
          }
        }
        assert restriction[k] == Resized(r0, dpc, isotropicRestrictionOnly, iso)[k];
        assert prolongation[k] == Resized(p0, dpc, isotropicProlongationOnly, iso)[k];
      }
    }

    /**
     * get_restriction_matrix: the stored matrix of the child for the
     * refinement case, stored at index refinement_case - 1.
     */
    function GetRestrictionMatrix(child: nat, refCase: nat): Dims
      reads this
      requires MatricesShaped(restriction, geometry, Iso())
      requires 1 <= refCase <= Iso() && child < geometry.nChildren(refCase)
    {
      restriction[refCase - 1][child]
    }

    /** get_prolongation_matrix: likewise for the prolongation matrices. */
    function GetProlongationMatrix(child: nat, refCase: nat): Dims
      reads this
      requires MatricesShaped(prolongation, geometry, Iso())
      requires 1 <= refCase <= Iso() && child < geometry.nChildren(refCase)
    {
      prolongation[refCase - 1][child]
    }

    /**
     * After reinit, a matrix reinit may touch is dofs_per_cell square, so
     * the accessors' check that it has dofs_per_cell columns passes,
     * unless it already had dofs_per_cell rows and other columns, which
     * reinit leaves alone.
     */
    lemma ReinitMatricesAreAccessible(r0: seq<seq<Dims>>, p0: seq<seq<Dims>>,
                                      isotropicRestrictionOnly: bool, isotropicProlongationOnly: bool,
                                      child: nat, refCase: nat)
      requires MatricesShaped(r0, geometry, Iso()) && MatricesShaped(p0, geometry, Iso())
      requires restriction == Resized(r0, data.dofsPerCell, isotropicRestrictionOnly, Iso())
      requires prolongation == Resized(p0, data.dofsPerCell, isotropicProlongationOnly, Iso())
      requires 1 <= refCase <= Iso() && child < geometry.nChildren(refCase)
      ensures MatricesShaped(restriction, geometry, Iso()) && MatricesShaped(prolongation, geometry, Iso())
      ensures !isotropicRestrictionOnly || refCase == Iso() ==>
        (GetRestrictionMatrix(child, refCase) == Dims(data.dofsPerCell, data.dofsPerCell) <==>
         r0[refCase - 1][child].m != data.dofsPerCell || r0[refCase - 1][child].n == data.dofsPerCell)
      ensures !isotropicProlongationOnly || refCase == Iso() ==>
        (GetProlongationMatrix(child, refCase) == Dims(data.dofsPerCell, data.dofsPerCell) <==>
         p0[refCase - 1][child].m != data.dofsPerCell || p0[refCase - 1][child].n == data.dofsPerCell)
    {
      var k := refCase - 1;
      assert |r0[k]| == geometry.nChildren(k + 1) && |p0[k]| == geometry.nChildren(k + 1);
    }

    /** prolongation_is_implemented: no prolongation matrix is empty. */
    method ProlongationIsImplemented() returns (implemented: bool)
      requires MatricesShaped(prolongation, geometry, Iso())
      ensures implemented <==> AllImplemented(prolongation)
    {
      implemented := NoEmptyMatrix(prolongation);
    }

    /** restriction_is_implemented: no restriction matrix is empty. */
    method RestrictionIsImplemented() returns (implemented: bool)
      requires MatricesShaped(restriction, geometry, Iso())
      ensures implemented <==> AllImplemented(restriction)
    {
      implemented := NoEmptyMatrix(restriction);
    }

    /** isotropic_prolongation_is_implemented: no isotropic prolongation matrix is empty. */
    method IsotropicProlongationIsImplemented() returns (implemented: bool)
      requires 1 <= data.dim && MatricesShaped(prolongation, geometry, Iso())
      ensures implemented <==> IsotropicImplemented(prolongation, Iso())
    {
      implemented := NoEmptyIsotropicMatrix(prolongation, Iso());
    }

    /** isotropic_restriction_is_implemented: no isotropic restriction matrix is empty. */
    method IsotropicRestrictionIsImplemented() returns (implemented: bool)
      requires 1 <= data.dim && MatricesShaped(restriction, geometry, Iso())
      ensures implemented <==> IsotropicImplemented(restriction, Iso())
    {
      implemented := NoEmptyIsotropicMatrix(restriction, Iso());
    }
  }
}
