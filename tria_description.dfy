/**
 * The value types that describe a triangulation before it is built
 * (include/deal.II/grid/tria_description.h): the mesh cell record
 * dealii::CellData with its material/boundary id union, SubCellData and
 * its consistency check, and TriangulationDescription::CellData and
 * Description with their defaults, their equality and the fields their
 * serialize functions visit.
 */
module TriangulationDescription {

  /** numbers::invalid_unsigned_int. */
  const InvalidUnsignedInt: nat := 0xFFFF_FFFF
  /** numbers::invalid_subdomain_id, the largest subdomain id. */
  const InvalidSubdomainId: nat := 0xFFFF_FFFF
  /** numbers::flat_manifold_id, the largest manifold id. */
  const FlatManifoldId: nat := 0xFFFF_FFFF

  /** GeometryInfo<dim>::lines_per_cell. */
  function LinesPerCell(dim: nat): nat
  {
    if dim == 1 then 1 else if dim == 2 then 4 else 12
  }

  /** The length of manifold_quad_ids: one in 1d, GeometryInfo<3>::quads_per_cell otherwise. */
  function QuadIdsPerCell(dim: nat): nat
  {
    if dim == 1 then 1 else 6
  }

  /* ---------------------------------------------------------------------
   * dealii::CellData<structdim>
   * ------------------------------------------------------------------- */

  /**
   * A cell, face or edge of a mesh to be built: its vertex indices, one
   * storage slot that is read and written both as material_id and as
   * boundary_id, and its manifold id.
   */
  datatype CellData = CellData(vertices: seq<nat>, idSlot: nat, manifoldId: nat)

  /** material_id: the union's slot read as a material id. */
  function MaterialId(c: CellData): nat
  {
    c.idSlot
  }

  /** boundary_id: the union's slot read as a boundary id. */
  function BoundaryId(c: CellData): nat
  {
    c.idSlot
  }

  /** Assigning material_id. */
  function WithMaterialId(c: CellData, id: nat): (r: CellData)
    ensures MaterialId(r) == id
    ensures r.vertices == c.vertices && r.manifoldId == c.manifoldId
  {
    c.(idSlot := id)
  }

  /** Assigning boundary_id. */
  function WithBoundaryId(c: CellData, id: nat): (r: CellData)
    ensures BoundaryId(r) == id
    ensures r.vertices == c.vertices && r.manifoldId == c.manifoldId
  {
    c.(idSlot := id)
  }

  /**
   * The two ids share storage: a written material id is the boundary id
   * read back and the other way round, and writing one replaces whatever
   * the other held.
   */
  lemma IdsShareStorage(c: CellData, id: nat)
    ensures BoundaryId(WithMaterialId(c, id)) == id
    ensures MaterialId(WithBoundaryId(c, id)) == id
    ensures WithMaterialId(c, id) == WithBoundaryId(c, id)
    ensures WithBoundaryId(WithMaterialId(c, id), MaterialId(c)) == c
  {
  }

  /**
   * The constructor: n_vertices invalid vertex indices, id zero, flat
   * manifold. Its default argument, the vertex count of a hypercube of
   * dimension structdim, is left to the caller.
   */
  function DefaultCellData(nVertices: nat): (c: CellData)
    ensures |c.vertices| == nVertices
    ensures forall i :: 0 <= i < nVertices ==> c.vertices[i] == InvalidUnsignedInt
    ensures MaterialId(c) == 0 && BoundaryId(c) == 0
    ensures c.manifoldId == FlatManifoldId
  {
    CellData(seq(nVertices, i => InvalidUnsignedInt), 0, FlatManifoldId)
  }

  /** One value written to or read from an archive. */
  datatype Archived =
    | Indices(indices: seq<nat>)
    | Number(value: nat)
    | BoundaryPairs(pairs: seq<(nat, nat)>)

  /**
   * dealii::CellData::serialize: the vertices, the slot as material id,
   * again as boundary id, the manifold id. The union is written twice, so
   * the two id entries of an archive always agree.
   */
  function SerializeCellData(c: CellData): (archive: seq<Archived>)
    ensures |archive| == 4 && archive[1] == archive[2]
    ensures archive[0] == Indices(c.vertices) && archive[3] == Number(c.manifoldId)
    ensures archive[1] == Number(MaterialId(c)) && archive[2] == Number(BoundaryId(c))
  {
    [Indices(c.vertices), Number(MaterialId(c)), Number(BoundaryId(c)), Number(c.manifoldId)]
  }

  /**
   * Loading reads the fields back in the same order into an existing
   * object; the boundary id, read second, lands in the slot last. An
   * archive of the wrong shape is not accepted.
   */
  function LoadCellData(archive: seq<Archived>, into: CellData): (r: Option<CellData>)
    ensures r.Some? <==>
      |archive| == 4 && archive[0].Indices? && archive[1].Number? && archive[2].Number? && archive[3].Number?
    ensures r.Some? ==> BoundaryId(r.value) == archive[2].value && MaterialId(r.value) == archive[2].value
  {
    if |archive| == 4 && archive[0].Indices? && archive[1].Number? && archive[2].Number? && archive[3].Number? then
      var withMaterial := WithMaterialId(into.(vertices := archive[0].indices), archive[1].value);
      Some(WithBoundaryId(withMaterial, archive[2].value).(manifoldId := archive[3].value))
    else
      None
  }

  /** Loading what was saved gives the saved cell back, whatever the object loaded into held. */
  lemma CellDataRoundTrip(c: CellData, into: CellData)
    ensures LoadCellData(SerializeCellData(c), into) == Some(c)
  {
  }

  datatype Option<T> = None | Some(value: T)

  /* ---------------------------------------------------------------------
   * SubCellData
   * ------------------------------------------------------------------- */

  /** Boundary and manifold information for the edges and faces of a mesh to be built. */
  datatype SubCellData = SubCellData(boundaryLines: seq<CellData>, boundaryQuads: seq<CellData>)

  /**
   * check_consistency as documented: in 1d neither list may be used, in
   * 2d the list of quads may not; in higher dimensions both may be.
   */
  function CheckConsistency(s: SubCellData, dim: nat): (ok: bool)
    ensures 1 <= dim ==>
      (ok <==> (|s.boundaryLines| > 0 ==> dim >= 2) && (|s.boundaryQuads| > 0 ==> dim >= 3))
    ensures s.boundaryLines == [] && s.boundaryQuads == [] ==> ok
  {
    if dim == 1 then |s.boundaryLines| == 0 && |s.boundaryQuads| == 0
    else if dim == 2 then |s.boundaryQuads| == 0
    else true
  }

  /** What is consistent for a lower dimension is consistent for every higher one from 1 up. */
  lemma ConsistencyIsMonotone(s: SubCellData, dim: nat, higher: nat)
    requires 1 <= dim <= higher
    requires CheckConsistency(s, dim)
    ensures CheckConsistency(s, higher)
  {
  }

  /* ---------------------------------------------------------------------
   * TriangulationDescription::Settings
   * ------------------------------------------------------------------- */

  /** A combination of Settings flags. */
  type Settings = bv32

  /** Settings::default_setting. */
  const DefaultSetting: Settings := 0x0
  /** Settings::construct_multigrid_hierarchy. */
  const ConstructMultigridHierarchy: Settings := 0x1

  predicate BuildsMultigridHierarchy(s: Settings)
  {
    s & ConstructMultigridHierarchy != 0
  }

  /**
   * Combining settings with bitwise OR: the combination builds a multigrid
   * hierarchy iff either operand does, and the default setting is neutral.
   */
  function Combine(a: Settings, b: Settings): (s: Settings)
    ensures BuildsMultigridHierarchy(s) <==> BuildsMultigridHierarchy(a) || BuildsMultigridHierarchy(b)
    ensures b == DefaultSetting ==> s == a
  {
    a | b
  }

  /** Every flag, not only the multigrid one, is set in a combination iff it is set in an operand. */
  lemma CombineFlags(a: Settings, b: Settings, flags: Settings)
    ensures Combine(a, b) & flags == 0 <==> a & flags == 0 && b & flags == 0
  {
    assert (a | b) & flags == (a & flags) | (b & flags);
  }

  /** The order and the repetition of operands do not matter. */
  lemma CombineOrderAndRepetition(a: Settings, b: Settings)
    ensures Combine(a, b) == Combine(b, a)
    ensures Combine(Combine(a, b), b) == Combine(a, b)
  {
  }

  /* ---------------------------------------------------------------------
   * TriangulationDescription::CellData<dim>
   * ------------------------------------------------------------------- */

  /**
   * A locally relevant cell: its global id, its subdomain and level
   * subdomain, the manifold ids of the cell, its lines and its face quads,
   * and the (face, boundary id) pairs of its boundary faces.
   */
  datatype CellInfo = CellInfo(
    id: seq<nat>,
    subdomainId: nat,
    levelSubdomainId: nat,
    manifoldId: nat,
    manifoldLineIds: seq<nat>,
    manifoldQuadIds: seq<nat>,
    boundaryIds: seq<(nat, nat)>)

  /**
   * The default constructor: every entry of the id (of idLength entries,
   * the size of CellId::binary_type) invalid, no subdomain, no level
   * subdomain, everything flat, no boundary faces.
   */
  function DefaultCellInfo(dim: nat, idLength: nat): (c: CellInfo)
    ensures |c.id| == idLength && forall i :: 0 <= i < idLength ==> c.id[i] == InvalidUnsignedInt
    ensures c.subdomainId == InvalidSubdomainId && c.levelSubdomainId == InvalidSubdomainId
    ensures c.manifoldId == FlatManifoldId
    ensures |c.manifoldLineIds| == LinesPerCell(dim)
    ensures forall i :: 0 <= i < |c.manifoldLineIds| ==> c.manifoldLineIds[i] == FlatManifoldId
    ensures |c.manifoldQuadIds| == QuadIdsPerCell(dim)
    ensures forall i :: 0 <= i < |c.manifoldQuadIds| ==> c.manifoldQuadIds[i] == FlatManifoldId
    ensures c.boundaryIds == []
  {
    CellInfo(
      seq(idLength, i => InvalidUnsignedInt),
      InvalidSubdomainId, InvalidSubdomainId, FlatManifoldId,
      seq(LinesPerCell(dim), i => FlatManifoldId),
      seq(QuadIdsPerCell(dim), i => FlatManifoldId),
      [])
  }

  /**
   * operator==: stop at the first field that differs; the line manifold
   * ids take part only from 2d on, the quad manifold ids only from 3d on.
   */
  function CellInfoEqual(dim: nat, a: CellInfo, b: CellInfo): (equal: bool)
    ensures equal <==>
      && a.(manifoldLineIds := [], manifoldQuadIds := []) == b.(manifoldLineIds := [], manifoldQuadIds := [])
      && (dim >= 2 ==> a.manifoldLineIds == b.manifoldLineIds)
      && (dim >= 3 ==> a.manifoldQuadIds == b.manifoldQuadIds)
  {
    if a.id != b.id then false
    else if a.subdomainId != b.subdomainId then false
    else if a.levelSubdomainId != b.levelSubdomainId then false
    else if a.manifoldId != b.manifoldId then false
    else if dim >= 2 && a.manifoldLineIds != b.manifoldLineIds then false
    else if dim >= 3 && a.manifoldQuadIds != b.manifoldQuadIds then false
    else if a.boundaryIds != b.boundaryIds then false
    else true
  }

  /**
   * The comparison is an equivalence; from 3d on it is plain equality;
   * below 3d two cells that differ only in their quad manifold ids compare
   * equal, and in 1d also two that differ only in their line manifold ids.
   */
  lemma CellInfoEqualMeaning(dim: nat, a: CellInfo, b: CellInfo, c: CellInfo)
    ensures CellInfoEqual(dim, a, a)
    ensures CellInfoEqual(dim, a, b) ==> CellInfoEqual(dim, b, a)
    ensures CellInfoEqual(dim, a, b) && CellInfoEqual(dim, b, c) ==> CellInfoEqual(dim, a, c)
    ensures dim >= 3 ==> (CellInfoEqual(dim, a, b) <==> a == b)
    ensures dim < 3 ==> CellInfoEqual(dim, a, a.(manifoldQuadIds := b.manifoldQuadIds))
    ensures dim < 2 ==> CellInfoEqual(dim, a, a.(manifoldLineIds := b.manifoldLineIds, manifoldQuadIds := b.manifoldQuadIds))
  {
  }

  /**
   * serialize: the id, both subdomain ids, the manifold id, the line
   * manifold ids from 2d on, the quad manifold ids from 3d on, the boundary
   * ids.
   */
  function SerializeCellInfo(dim: nat, c: CellInfo): (archive: seq<Archived>)
    ensures |archive| == 5 + (if dim >= 2 then 1 else 0) + (if dim >= 3 then 1 else 0)
  {
    [Indices(c.id), Number(c.subdomainId), Number(c.levelSubdomainId), Number(c.manifoldId)]
    + (if dim >= 2 then [Indices(c.manifoldLineIds)] else [])
    + (if dim >= 3 then [Indices(c.manifoldQuadIds)] else [])
    + [BoundaryPairs(c.boundaryIds)]
  }

  /** serialize visits exactly the fields operator== compares: two cells compare equal iff they archive alike. */
  lemma SerializeMatchesEquality(dim: nat, a: CellInfo, b: CellInfo)
    ensures SerializeCellInfo(dim, a) == SerializeCellInfo(dim, b) <==> CellInfoEqual(dim, a, b)
  {
    var sa, sb := SerializeCellInfo(dim, a), SerializeCellInfo(dim, b);
    var last := |sa| - 1;
    if sa == sb {
      assert sa[0] == sb[0] && sa[1] == sb[1] && sa[2] == sb[2] && sa[3] == sb[3] && sa[last] == sb[last];
      if dim >= 2 {
        assert sa[4] == sb[4];
      }
      if dim >= 3 {
        assert sa[5] == sb[5];
      }
    }
  }

  /* ---------------------------------------------------------------------
   * TriangulationDescription::Description<dim, spacedim>
   * ------------------------------------------------------------------- */

  /** The MPI communicator handle, which the model does not look into. */
  datatype Comm = CommNull | CommHandle(handle: nat)

  /** Triangulation::MeshSmoothing, a combination of smoothing flags. */
  type MeshSmoothing = nat

  /** MeshSmoothing::none. */
  const NoSmoothing: MeshSmoothing := 0

  /**
   * Everything needed to build the locally relevant part of a
   * triangulation: the coarse cells, their vertices (points of type P),
   * the coarse cell ids, the cells of every level, the communicator, the
   * settings and the smoothing flags.
   */
  datatype Description<P> = Description(
    coarseCells: seq<CellData>,
    coarseCellVertices: seq<P>,
    coarseCellIndexToCoarseCellId: seq<nat>,
    cellInfos: seq<seq<CellInfo>>,
    comm: Comm,
    settings: Settings,
    smoothing: MeshSmoothing)

  /** The default constructor: no cells, a null communicator, default settings, no smoothing. */
  function DefaultDescription<P>(): (d: Description<P>)
    ensures d.coarseCells == [] && d.coarseCellVertices == [] && d.coarseCellIndexToCoarseCellId == [] && d.cellInfos == []
    ensures d.comm == CommNull
    ensures d.settings == DefaultSetting && !BuildsMultigridHierarchy(d.settings)
    ensures d.smoothing == NoSmoothing
  {
    Description([], [], [], [], CommNull, DefaultSetting, NoSmoothing)
  }

  /** The cells of one level compare equal, cell by cell, as std::vector's operator== does. */
  predicate LevelEqual(dim: nat, a: seq<CellInfo>, b: seq<CellInfo>)
  {
    |a| == |b| && forall i :: 0 <= i < |a| ==> CellInfoEqual(dim, a[i], b[i])
  }

  /** The cells of every level compare equal. */
  predicate LevelsEqual(dim: nat, a: seq<seq<CellInfo>>, b: seq<seq<CellInfo>>)
  {
    |a| == |b| && forall l :: 0 <= l < |a| ==> LevelEqual(dim, a[l], b[l])
  }

  /**
   * operator==: stop at the first field that differs; the cells are
   * compared with the cell comparison of their dimension, and the
   * communicator is not compared.
   */
  function DescriptionEqual<P(==)>(dim: nat, a: Description<P>, b: Description<P>): (equal: bool)
    ensures equal <==>
      && a.(cellInfos := [], comm := CommNull) == b.(cellInfos := [], comm := CommNull)
      && LevelsEqual(dim, a.cellInfos, b.cellInfos)
  {
    if a.coarseCells != b.coarseCells then false
    else if a.coarseCellVertices != b.coarseCellVertices then false
    else if a.coarseCellIndexToCoarseCellId != b.coarseCellIndexToCoarseCellId then false
    else if !LevelsEqual(dim, a.cellInfos, b.cellInfos) then false
    else if a.settings != b.settings then false
    else if a.smoothing != b.smoothing then false
    else true
  }

  /**
   * The comparison is an equivalence that ignores the communicator; from
   * 3d on it is equality of everything but the communicator.
   */
  lemma DescriptionEqualMeaning<P>(dim: nat, a: Description<P>, b: Description<P>, c: Description<P>, comm: Comm)
    ensures DescriptionEqual(dim, a, a)
    ensures DescriptionEqual(dim, a, b) ==> DescriptionEqual(dim, b, a)
    ensures DescriptionEqual(dim, a, b) && DescriptionEqual(dim, b, c) ==> DescriptionEqual(dim, a, c)
    ensures DescriptionEqual(dim, a, a.(comm := comm))
    ensures dim >= 3 ==> (DescriptionEqual(dim, a, b) <==> a.(comm := CommNull) == b.(comm := CommNull))
  {
    forall l, i | 0 <= l < |a.cellInfos| && 0 <= i < |a.cellInfos[l]|
      ensures CellInfoEqual(dim, a.cellInfos[l][i], a.cellInfos[l][i])
    {
      CellInfoEqualMeaning(dim, a.cellInfos[l][i], a.cellInfos[l][i], a.cellInfos[l][i]);
    }
    if DescriptionEqual(dim, a, b) {
      forall l, i | 0 <= l < |b.cellInfos| && 0 <= i < |b.cellInfos[l]|
        ensures CellInfoEqual(dim, b.cellInfos[l][i], a.cellInfos[l][i])
      {
        CellInfoEqualMeaning(dim, a.cellInfos[l][i], b.cellInfos[l][i], a.cellInfos[l][i]);
      }
      if DescriptionEqual(dim, b, c) {
        forall l, i | 0 <= l < |a.cellInfos| && 0 <= i < |a.cellInfos[l]|
          ensures CellInfoEqual(dim, a.cellInfos[l][i], c.cellInfos[l][i])
        {
          CellInfoEqualMeaning(dim, a.cellInfos[l][i], b.cellInfos[l][i], c.cellInfos[l][i]);
        }
      }
    }
    if dim >= 3 && DescriptionEqual(dim, a, b) {
      forall l | 0 <= l < |a.cellInfos| ensures a.cellInfos[l] == b.cellInfos[l] {
        forall i | 0 <= i < |a.cellInfos[l]| ensures a.cellInfos[l][i] == b.cellInfos[l][i] {
          CellInfoEqualMeaning(dim, a.cellInfos[l][i], b.cellInfos[l][i], a.cellInfos[l][i]);
        }
      }
      assert a.cellInfos == b.cellInfos;
    }
  }

  /** What Description::serialize writes: every field but the communicator, each cell by its own serialize. */
  datatype DescriptionArchive<P> = DescriptionArchive(
    coarseCells: seq<seq<Archived>>,
    coarseCellVertices: seq<P>,
    coarseCellIndexToCoarseCellId: seq<nat>,
    cellInfos: seq<seq<seq<Archived>>>,
    settings: Settings,
    smoothing: MeshSmoothing)

  /** Description::serialize. */
  function SerializeDescription<P>(dim: nat, d: Description<P>): (archive: DescriptionArchive<P>)
    ensures |archive.coarseCells| == |d.coarseCells| && |archive.cellInfos| == |d.cellInfos|
    ensures forall l :: 0 <= l < |d.cellInfos| ==> |archive.cellInfos[l]| == |d.cellInfos[l]|
  {
    var cells := d.coarseCells;
    var infos := d.cellInfos;
    DescriptionArchive(
      seq(|cells|, i requires 0 <= i < |cells| => SerializeCellData(cells[i])),
      d.coarseCellVertices,
      d.coarseCellIndexToCoarseCellId,
      seq(|infos|, l requires 0 <= l < |infos| =>
        seq(|infos[l]|, i requires 0 <= i < |infos[l]| => SerializeCellInfo(dim, infos[l][i]))),
      d.settings,
      d.smoothing)
  }

  /** Two mesh cells archive alike iff they are equal. */
  lemma SerializeCellDataInjective(a: CellData, b: CellData)
    ensures SerializeCellData(a) == SerializeCellData(b) <==> a == b
  {
    if SerializeCellData(a) == SerializeCellData(b) {
      assert SerializeCellData(a)[0] == SerializeCellData(b)[0];
      assert SerializeCellData(a)[1] == SerializeCellData(b)[1];
      assert SerializeCellData(a)[3] == SerializeCellData(b)[3];
    }
  }

  /**
   * Description::serialize visits exactly what operator== compares: two
   * descriptions compare equal iff they archive alike.
   */
  lemma SerializeDescriptionMatchesEquality<P>(dim: nat, a: Description<P>, b: Description<P>)
    ensures SerializeDescription(dim, a) == SerializeDescription(dim, b) <==> DescriptionEqual(dim, a, b)
  {
    var sa, sb := SerializeDescription(dim, a), SerializeDescription(dim, b);
    if sa == sb {
      forall i | 0 <= i < |a.coarseCells| ensures a.coarseCells[i] == b.coarseCells[i] {
        assert sa.coarseCells[i] == sb.coarseCells[i];
        SerializeCellDataInjective(a.coarseCells[i], b.coarseCells[i]);
      }
      forall l, i | 0 <= l < |a.cellInfos| && 0 <= i < |a.cellInfos[l]|
        ensures CellInfoEqual(dim, a.cellInfos[l][i], b.cellInfos[l][i])
      {
        assert sa.cellInfos[l][i] == sb.cellInfos[l][i];
        SerializeMatchesEquality(dim, a.cellInfos[l][i], b.cellInfos[l][i]);
      }
    }
    if DescriptionEqual(dim, a, b) {
      forall l | 0 <= l < |a.cellInfos| ensures sa.cellInfos[l] == sb.cellInfos[l] {
        forall i | 0 <= i < |a.cellInfos[l]| ensures sa.cellInfos[l][i] == sb.cellInfos[l][i] {
          SerializeMatchesEquality(dim, a.cellInfos[l][i], b.cellInfos[l][i]);
        }
      }
      assert sa.cellInfos == sb.cellInfos;
    }
  }
}
