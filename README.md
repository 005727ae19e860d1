# deal.II core bookkeeping in Dafny

This project models three pieces of deal.II's library logic and proves properties about them.

- **The multigrid V-cycle driver** `Multigrid<VECTOR>` (`multigrid.dfy`). It covers `set_edge_matrices`, `level_mgstep` and `vcycle`.
  - The driver owns the per-level arrays `solution`, `t` and `defect` and updates them in place. The model keeps them as fields of the class `Multigrid.Multigrid`.
  - The level matrix, the transfer, the two smoothers, the coarse solver and the two optional edge operators are black boxes. They are function-valued parameters whose only known property is the vector size they produce on each level.
  - A ghost field records the order of the backend calls.
  - `LevelMgStep` is proved to do exactly what the specification function `Step` describes, and to make exactly the calls `StepCalls` lists. The lemmas then state what `Step` and `StepCalls` guarantee:
    - the base case;
    - the effect of the restriction cascade;
    - the coarse-grid correction;
    - every level is visited once;
    - the V shape and the call order.
- **The `FiniteElement` base class bookkeeping** (`fe.dfy`). The finite-element data and the `GeometryInfo` tables the class reads are parameters.
  - The constructor builds its default tables.
  - `compute_n_nonzero_components` and the primitivity flag.
  - Component masks, block masks, the conversion between them, and `component_to_block_index`.
  - `face_to_cell_index` and the line and quad orientation adjustments.
  - `interface_constraints_size` and `constraints_are_implemented`.
  - The support-point accessors.
  - `reinit_restriction_and_prolongation_matrices` and the four `*_is_implemented` checks, with a `FullMatrix` represented only by its dimensions.
- **The triangulation description value types** (`tria_description.dfy`).
  - `dealii::CellData`, including its material/boundary id union.
  - `SubCellData::check_consistency`.
  - The `Settings` flags.
  - `TriangulationDescription::CellData` (called `CellInfo` in the model) and `Description`: their defaults, their dimension-dependent equality, and the fields their `serialize` functions write.

## Model

| member | source | states |
|---|---|---|
| Multigrid.Multigrid.SetEdgeMatrices | deal.II/deal.II/include/multigrid/multigrid.templates.h:19-26 | Both edge operators are stored, so both are set afterwards; nothing else changes. |
| Multigrid.Multigrid.SolveCoarse | deal.II/deal.II/include/multigrid/multigrid.templates.h:41-51 | On the coarsest level, `solution` is zeroed and the coarse solver is the only call made. The new state is `Step` of the old one. |
| Multigrid.Multigrid.PreSmoothing | deal.II/deal.II/include/multigrid/multigrid.templates.h:41-62 | `solution[L]` is zeroed and pre-smoothed, and `t[L]` becomes the matrix applied to it. The calls are the pre-smoother, then the matrix. |
| Multigrid.Multigrid.RestrictionPass | deal.II/deal.II/include/multigrid/multigrid.templates.h:70-77 | One pass of the restriction loop equals `CascadeStep`, and it records edge_down (first pass, when set) before restrict_and_add. |
| Multigrid.Multigrid.Restriction | deal.II/deal.II/include/multigrid/multigrid.templates.h:69-78 | The descending loop from `level` to `minlevel+1` leaves the state `Cascade` describes and the call trace `CascadeTrace` describes. |
| Multigrid.Multigrid.CoarseGridCorrection | deal.II/deal.II/include/multigrid/multigrid.templates.h:87-107 | The step after the recursion does what `Corrected` says: reset t, prolongate, add, apply edge_up when set, post-smooth. It records the calls in that order. |
| Multigrid.Multigrid.LevelMgStep | deal.II/deal.II/include/multigrid/multigrid.templates.h:31-115 | The new arrays are `Step` of the old ones, and the calls appended are `StepCalls`. The recursion is on `level-1` and terminates at `minlevel`. |
| Multigrid.Multigrid.ReinitLevels | deal.II/deal.II/include/multigrid/multigrid.templates.h:125-132 | `solution` and `t` are resized to `maxlevel+1` levels. Each level from `minlevel` to `maxlevel` becomes a zero vector of the size of `defect` on that level. |
| Multigrid.Multigrid.VCycle | deal.II/deal.II/include/multigrid/multigrid.templates.h:118-136 | After vcycle every level in range has `solution`, `t` and `defect` of the level's size. The state is `Step` from the reinitialised arrays, and the calls are exactly `StepCalls(maxlevel)`. |
| Multigrid.Smoothed | deal.II/deal.II/include/multigrid/multigrid.templates.h:41-62 | Pre-smoothing and the residual product change only level L, keep it sized and leave `defect` alone. |
| Multigrid.Corrected | deal.II/deal.II/include/multigrid/multigrid.templates.h:87-107 | The coarse-grid correction changes only level L and keeps it sized. |
| Multigrid.Step | deal.II/deal.II/include/multigrid/multigrid.templates.h:41-107 | One level_mgstep keeps every level sized and leaves every level above its own untouched. |
| Multigrid.CascadeStep | deal.II/deal.II/include/multigrid/multigrid.templates.h:70-77 | One pass of the restriction loop changes only `t` and `defect`, only on level l-1, and keeps every level sized. |
| Multigrid.Cascade | deal.II/deal.II/include/multigrid/multigrid.templates.h:69-78 | The restriction loop changes only `t` and `defect`, and only on levels below `level`. Levels from `level` up and `solution` are untouched. |
| Multigrid.CascadeEffect | deal.II/deal.II/include/multigrid/multigrid.templates.h:69-78 | Every level k with l <= k < L holds one of two values in `t[k]`: the edge_down product (first pass, edge_down set) plus the restriction of `t[k+1]`, or zero plus that restriction. `defect[k]` has been reduced by `t[k]`. |
| Multigrid.CascadeWithoutEdgeDown | deal.II/deal.II/include/multigrid/multigrid.templates.h:71-77 | Without edge_down, `t[k]` is just the restriction of `t[k+1]` and is subtracted from `defect[k]`. |
| Multigrid.CoarseGridCorrectionEffect | deal.II/deal.II/include/multigrid/multigrid.templates.h:87-107 | On level L, `defect` changes only through edge_up. `t[L]` holds the edge_up product or the prolongation. `solution[L]` is the post-smoothed sum of the pre-smoothed zero vector and the prolongated coarse solution. |
| Multigrid.BaseCase | deal.II/deal.II/include/multigrid/multigrid.templates.h:41-51 | At `minlevel` only the coarse solver runs, on a zero solution. `t`, `defect` and all other levels are unchanged, and the only call is `CoarseSolve(minlevel)`. |
| Multigrid.CascadeCallsShape | deal.II/deal.II/include/multigrid/multigrid.templates.h:69-78 | The restriction loop makes only edge_down (on L, first, at most once, and only when set) and restrict_and_add on the levels it passes, one call per level. |
| Multigrid.StepCallLevels | deal.II/deal.II/include/multigrid/multigrid.templates.h:43-81 | Every call made by level_mgstep(L) is on a level between `minlevel` and L. |
| Multigrid.StepCallsCount | deal.II/deal.II/include/multigrid/multigrid.templates.h:54-107 | Outside the cascade, the calls of level_mgstep(L) are its own calls plus those of exactly one recursive call on L-1. |
| Multigrid.CoarseSolvedOnce | deal.II/deal.II/include/multigrid/multigrid.templates.h:43-81 | The coarse solver runs exactly once per cycle, on `minlevel`, and on no other level. |
| Multigrid.LevelVisitedOnce | deal.II/deal.II/include/multigrid/multigrid.templates.h:54-134 | Every level above `minlevel` up to L is pre-smoothed, multiplied, prolongated into and post-smoothed exactly once; no other level is. |
| Multigrid.StepIsVShaped | deal.II/deal.II/include/multigrid/multigrid.templates.h:54-107 | Every call before the coarse solve goes down the V (smoothing, residual, restriction), and every call after it goes up the V (prolongation, edge_up, post-smoothing). |
| Multigrid.CallOrder | deal.II/deal.II/include/multigrid/multigrid.templates.h:54-107 | Above the coarsest level the order is: pre_smooth, vmult, the whole cascade, the recursion, prolongate, edge_up when set, post_smooth last. |
| Multigrid.StepTraceAppends | deal.II/deal.II/include/multigrid/multigrid.templates.h:31-115 | Recording the calls one by one during level_mgstep appends exactly `StepCalls` to whatever was recorded before. |
| FiniteElements.FiniteElement.constructor | source/fe/fe.cc:55-145 | Flag and mask vectors of length one are expanded to `dofs_per_cell` copies; other lengths are kept (and must be `dofs_per_cell`). The nonzero-count table counts each mask, every count lies between 1 and `n_components`, and the element is primitive iff every count is 1. The component tables are filled only when primitive; the base tables always. There is one block starting at 0, one empty matrix per child of every refinement case, and zero orientation tables in 3d. |
| FiniteElements.ExpandShape | source/fe/fe.cc:73-82 | A length-one vector expands to n copies of its entry; any other vector is kept as given. |
| FiniteElements.ComputeNNonzeroComponents | source/fe/fe.cc:1203-1210 | The result has one entry per mask, holding that mask's number of selected components. |
| FiniteElements.SelectedBound | source/fe/fe.cc:95-103 | A mask selects at most as many components as it has entries. It selects all of them iff every flag is set, and none iff no flag is set. |
| FiniteElements.PrimitiveIffOneComponentEach | source/fe/fe.cc:84-89 | `cached_primitivity` holds iff every shape function is nonzero in exactly one component. |
| FiniteElements.FiniteElement.DefaultBlocks | source/fe/fe.cc:344-351 | With the default tables every component is in block 0, so the block map is valid as soon as there is one block. |
| FiniteElements.FiniteElement.BlockMap | source/fe/fe.cc:344-351 | The block map has one entry per component: component c's block is `first_block_of_base` of c's base element plus c's index within that base element. When the element's blocks are valid, every entry is below `n_blocks`. |
| FiniteElements.BlockIndexIdentifiesBase | source/fe/fe.cc:344-351 | When the block ranges of the base elements do not overlap, two components get the same block from `BlockIndex` iff they are the same index of the same base element. |
| FiniteElements.FiniteElement.ComponentsShareBlock | source/fe/fe.cc:344-351 | For the element's own tables, `ComponentToBlockIndex` (component_to_block_index) puts two components in the same block iff they are the same index of the same base element, provided the base elements' block ranges do not overlap. |
| FiniteElements.FiniteElement.ScalarComponentMask | source/fe/fe.cc:354-369 | The mask has `n_components` entries and selects exactly the scalar's component, which must be below `n_components`. |
| FiniteElements.FiniteElement.VectorComponentMask | source/fe/fe.cc:372-388 | The mask selects exactly `[first, first+dim)`, which must fit in `n_components`. |
| FiniteElements.FiniteElement.SymmetricTensorComponentMask | source/fe/fe.cc:391-410 | The mask selects exactly the dim(dim+1)/2 components from `first` on, which must fit. |
| FiniteElements.SelectRange | source/fe/fe.cc:383-386 | A mask of n entries whose entries from lo up to hi are exactly the selected ones. |
| FiniteElements.FiniteElement.ComponentMaskOfBlocks | source/fe/fe.cc:413-432 | The all-selected block mask gives the all-selected component mask. Otherwise, with one entry per block, component c is selected iff c's block is. |
| FiniteElements.FiniteElement.BlockMaskOfComponents | source/fe/fe.cc:470-518 | The all-selected component mask gives the all-selected block mask. Otherwise the run-by-run walk sets block b iff the first component of one of b's runs is selected. The caller must not pass a mask whose component disagrees with what its block already holds (the debug check inside a run). |
| FiniteElements.BlocksOf | source/fe/fe.cc:470-518 | The all-selected component mask gives the all-selected block mask; any other mask gives one flag per block. |
| FiniteElements.ComponentsOf | source/fe/fe.cc:413-432 | The all-selected block mask gives the all-selected component mask; any other mask gives one flag per component. |
| FiniteElements.BlocksOfSelected | source/fe/fe.cc:477-517 | For a mask that does not split blocks, a block is set iff some component of it is selected. |
| FiniteElements.ComponentsOfBlocksOf | source/fe/fe.cc:413-518 | For a component mask uniform on every block, converting to blocks and back gives the mask back. |
| FiniteElements.BlocksOfComponentsOf | source/fe/fe.cc:413-518 | When every block has a component, converting a block mask to components and back gives it back. |
| FiniteElements.UniformRunsAgree | source/fe/fe.cc:504-512 | A mask uniform on every block passes the check that it does not split a block. |
| FiniteElements.FiniteElement.ScalarBlockMask | source/fe/fe.cc:436-444 | block_mask(Scalar) is the block mask of the scalar's component mask. |
| FiniteElements.FiniteElement.VectorBlockMask | source/fe/fe.cc:447-455 | block_mask(Vector) is the block mask of the vector's component mask. |
| FiniteElements.FiniteElement.SymmetricTensorBlockMask | source/fe/fe.cc:458-466 | block_mask(SymmetricTensor) is the block mask of the tensor's component mask. |
| FiniteElements.FaceVertexDofToCellVertexDof | source/fe/fe.cc:541-553 | `FaceToCellIndex` (face_to_cell_index, in any orientation) maps a vertex DoF of a face to a vertex DoF of the cell, below `first_line_index`. |
| FiniteElements.FaceLineDofToCellLineDof | source/fe/fe.cc:554-577 | `FaceToCellIndex` maps a line DoF of a face to a line DoF of the cell, in `[first_line_index, first_quad_index)`. |
| FiniteElements.FaceQuadDofToCellQuadDof | source/fe/fe.cc:578-602 | In 3d, `FaceToCellIndex` maps a quad DoF of a face to a quad DoF of the cell, in `[first_quad_index, first_hex_index)`. |
| FiniteElements.FaceVertexDofKeepsOffset | source/fe/fe.cc:541-553 | A vertex DoF of a face lands on the cell vertex the GeometryInfo table names, at the same offset within the vertex. |
| FiniteElements.FaceLineDofKeepsOffset | source/fe/fe.cc:554-577 | A line DoF of a face lands, past `first_line_index`, on the cell line the GeometryInfo table names, at the same offset within the line. |
| FiniteElements.UIntAdd | source/fe/fe.cc:639-662 | Adding a signed table entry to an unsigned index yields a 32-bit unsigned value, equal to the plain sum whenever that sum is in range. |
| FiniteElements.OrientationCase | source/fe/fe.cc:639 | The orientation case `4*orientation + 2*flip + rotation` is a column of the 8-column table. |
| FiniteElements.AdjustQuadDofIndex | source/fe/fe.cc:612-640 | Below 3d the index is unchanged. In 3d it is shifted by the table entry for its orientation case, and equals the plain sum whenever that is in unsigned range. A table whose shifts keep every index on the quad yields a quad DoF again. The all-zero table the constructor installs leaves every index unchanged. |
| FiniteElements.AdjustLineDofIndex | source/fe/fe.cc:644-663 | Below 3d, or for a line in standard orientation, the index is unchanged. Otherwise it is shifted by its table entry, and equals the plain sum whenever that is in unsigned range. A table whose shifts keep every index on the line yields a line DoF again. The all-zero table leaves every index unchanged. |
| FiniteElements.InterfaceConstraintsSize | source/fe/fe.cc:818-840 | 1d has no constraints (0 by 0), and other dimensions than 1 to 3 give the invalid size. In 2d and 3d there is one column per face DoF. The rows agree with an independent count of the DoFs a refined face creates: the children's face DoFs, less those on shared vertices and lines counted again, less the coarse face's own vertex DoFs (2d: two child lines sharing one vertex; 3d: four child quads sharing five vertices and four interior lines). |
| FiniteElements.InterfaceSizedConstraintsAreImplemented | source/fe/fe.cc:771-840 | `ConstraintsAreImplemented` (constraints_are_implemented) is true only for the isotropic subface case. In 2d and 3d, a constraint matrix shaped by `interface_constraints_size` makes it true for isotropic refinement. In 1d, where that shape has no rows, it is true iff the face has no DoFs. |
| FiniteElements.SupportPointQueries | source/fe/fe.cc:984-1073 | `GeneralizedSupportPoints` (get_generalized_support_points and its face version) returns the stored generalized points when there are any, and the unit points otherwise, so it is empty only when both are. On cells the has-query agrees with it. On faces, `HasGeneralizedFaceSupportPoints` looks only at the stored generalized face points: with unit face points and no generalized ones it answers false, although the accessor returns the unit face points. |
| FiniteElements.HasGeneralizedSupportPoints | source/fe/fe.cc:1007-1011 | has_generalized_support_points holds iff there are unit support points (`HasSupportPoints`, has_support_points) or stored generalized ones, so unit support points imply it. |
| FiniteElements.EmptyMatrices | source/fe/fe.cc:128-139 | One matrix per child of every refinement case, each with zero rows and columns. |
| FiniteElements.Resized | source/fe/fe.cc:272-297 | Reinit keeps the number of refinement cases and of children per case. |
| FiniteElements.ResizedEffect | source/fe/fe.cc:272-297 | Every matrix reinit may touch ends with `dofs_per_cell` rows; one with a differing row count becomes square. Matrices it may not touch, or already having `dofs_per_cell` rows, are unchanged. Reinit twice equals reinit once. |
| FiniteElements.ResizedImplemented | source/fe/fe.cc:667-767 | After a full reinit the matrices are implemented, and after an isotropic-only one the isotropic ones are. |
| FiniteElements.FiniteElement.ReinitRestrictionAndProlongationMatrices | source/fe/fe.cc:272-297 | Restriction and prolongation tables become exactly their `Resized` images under their own isotropic-only flags. |
| FiniteElements.FiniteElement.ReinitMatricesAreAccessible | source/fe/fe.cc:300-338 | After reinit, `GetRestrictionMatrix` and `GetProlongationMatrix` (get_restriction_matrix, get_prolongation_matrix) return a `dofs_per_cell` square matrix for every case reinit may touch. So their check that the matrix has `dofs_per_cell` columns passes, unless the matrix already had `dofs_per_cell` rows and other columns, which reinit leaves alone. |
| FiniteElements.NoEmptyMatrix | source/fe/fe.cc:667-715 | The early-return loop answers true iff no matrix in any refinement case has zero rows or columns. |
| FiniteElements.NoEmptyIsotropicMatrix | source/fe/fe.cc:719-767 | The early-return loop answers true iff no matrix of the isotropic case has zero rows or columns. |
| FiniteElements.FiniteElement.ProlongationIsImplemented | source/fe/fe.cc:667-689 | True iff no prolongation matrix is empty. |
| FiniteElements.FiniteElement.RestrictionIsImplemented | source/fe/fe.cc:693-715 | True iff no restriction matrix is empty. |
| FiniteElements.FiniteElement.IsotropicProlongationIsImplemented | source/fe/fe.cc:719-741 | True iff no isotropic prolongation matrix is empty. |
| FiniteElements.FiniteElement.IsotropicRestrictionIsImplemented | source/fe/fe.cc:745-767 | True iff no isotropic restriction matrix is empty. |
| FiniteElements.ImplementedImpliesIsotropic | source/fe/fe.cc:667-767 | An implemented table is in particular implemented in the isotropic case. |
| FiniteElements.FillComponentTable | source/fe/fe.cc:111-120 | The primitive default: DoF j is the j-th shape function of component 0. |
| FiniteElements.FillBaseTable | source/fe/fe.cc:121-124 | The default: DoF j is the j-th shape function of the first instance of base element 0. |
| TriangulationDescription.WithMaterialId | include/deal.II/grid/tria_description.h:109-131 | Writing the material id sets it and leaves the vertices and the manifold id alone. |
| TriangulationDescription.WithBoundaryId | include/deal.II/grid/tria_description.h:109-131 | Writing the boundary id sets it and leaves the vertices and the manifold id alone. |
| TriangulationDescription.IdsShareStorage | include/deal.II/grid/tria_description.h:103-131 | Material id and boundary id are one slot. Writing either is visible through the other, and writing one replaces what the other held. |
| TriangulationDescription.DefaultCellData | include/deal.II/grid/tria_description.h:143-161 | A default mesh cell has invalid vertex indices, id zero and the flat manifold. |
| TriangulationDescription.SerializeCellData | include/deal.II/grid/tria_description.h:278-287 | serialize writes four entries: the vertices, the id slot as material id, the same slot as boundary id, and the manifold id; the two id entries always agree. |
| TriangulationDescription.LoadCellData | include/deal.II/grid/tria_description.h:278-287 | Loading accepts exactly an archive of the serialized shape. The id slot ends up holding the boundary id read last. |
| TriangulationDescription.CellDataRoundTrip | include/deal.II/grid/tria_description.h:278-287 | Loading a saved mesh cell into any object gives the saved cell back. |
| TriangulationDescription.CheckConsistency | include/deal.II/grid/tria_description.h:266-274 | From 1d on, the data is consistent iff boundary lines are given only from 2d on and boundary quads only from 3d on; empty lists are always consistent. |
| TriangulationDescription.ConsistencyIsMonotone | include/deal.II/grid/tria_description.h:266-274 | What is consistent in one dimension is consistent in every higher one. |
| TriangulationDescription.Combine | include/deal.II/grid/tria_description.h:305-321 | The OR of settings builds the multigrid hierarchy iff either operand does, and `default_setting` is neutral. |
| TriangulationDescription.CombineFlags | include/deal.II/grid/tria_description.h:305-321 | Every flag is set in an OR of settings iff it is set in an operand. |
| TriangulationDescription.CombineOrderAndRepetition | include/deal.II/grid/tria_description.h:305-321 | OR-ing settings is commutative and idempotent. |
| TriangulationDescription.DefaultCellInfo | include/deal.II/grid/tria_description.h:717-731 | A default description cell has every id entry invalid, both subdomain ids invalid, and the cell, line and quad manifold ids flat (lines_per_cell line ids; one quad id in 1d, six otherwise). It has no boundary ids. |
| TriangulationDescription.CellInfoEqual | include/deal.II/grid/tria_description.h:778-798 | The early-return comparison holds iff the cells agree on id, both subdomain ids, manifold id and boundary ids, on the line manifold ids from 2d on, and on the quad manifold ids from 3d on. |
| TriangulationDescription.CellInfoEqualMeaning | include/deal.II/grid/tria_description.h:776-798 | operator== is an equivalence. In 3d it is plain equality. Below 3d it ignores the quad manifold ids, and in 1d the line manifold ids as well. |
| TriangulationDescription.SerializeCellInfo | include/deal.II/grid/tria_description.h:735-749 | serialize writes five fields plus the line manifold ids from 2d on and the quad manifold ids from 3d on. |
| TriangulationDescription.SerializeMatchesEquality | include/deal.II/grid/tria_description.h:735-798 | Two cells archive alike iff operator== calls them equal, so serialize visits exactly the fields operator== compares. |
| TriangulationDescription.DefaultDescription | include/deal.II/grid/tria_description.h:752-758 | A default description is empty, with a null communicator, `default_setting` (no multigrid hierarchy) and no smoothing. |
| TriangulationDescription.DescriptionEqual | include/deal.II/grid/tria_description.h:802-822 | The early-return comparison holds iff the descriptions agree on every field except the cells of the levels and the communicator, and the cells of every level compare equal one by one with the cell comparison. |
| TriangulationDescription.DescriptionEqualMeaning | include/deal.II/grid/tria_description.h:800-822 | Description's operator== is an equivalence that ignores the communicator, and in 3d it is equality of all other fields. |
| TriangulationDescription.SerializeDescription | include/deal.II/grid/tria_description.h:761-774 | serialize writes every coarse cell and every level cell, and omits the communicator. |
| TriangulationDescription.SerializeCellDataInjective | include/deal.II/grid/tria_description.h:278-287 | Two mesh cells archive alike iff they are equal. |
| TriangulationDescription.SerializeDescriptionMatchesEquality | include/deal.II/grid/tria_description.h:761-822 | Two descriptions archive alike iff operator== calls them equal; the communicator plays no part in either. |

## Left out

- Vector contents are sequences of reals. The backends are uninterpreted functions with size contracts, and nothing is claimed about convergence or floating-point rounding.
- The `MG_DEBUG` printing blocks in `level_mgstep` and the commented-out `print_vector` are I/O and not modelled.
- `Multigrid.Multigrid.SolveCoarse`, `PreSmoothing`, `RestrictionPass`, `Restriction` and `CoarseGridCorrection` are not separate functions in the source. They are `level_mgstep` split at its natural seams.
- Levels below `minlevel` exist in the model's sequences but are never used, as in `MGLevelObject::resize(minlevel, maxlevel)`.
- Vector `reinit` to another vector's size is modelled as a zero vector of that size.
- `FiniteElementData`, `GeometryInfo`, `ComponentMask`, `BlockMask`, `BlockIndices` and `FullMatrix` are not part of this model.
  - The fields and tables the base class reads are parameters, with range contracts (`GeometryFits`, `LaidOut`).
  - A mask is a sequence of booleans, with the empty sequence as the all-selected mask.
  - A matrix is its dimensions.
- Index types are unbounded naturals. Only the orientation adjustments, which add a signed table entry to an unsigned index, model the 32-bit wrap-around.
- `GetRestrictionMatrix` and `GetProlongationMatrix` model the base-class `get_restriction_matrix` and `get_prolongation_matrix` as returning the stored matrix. Their range `Assert`s are preconditions. The `ExcProjectionVoid`/`ExcEmbeddingVoid` checks that the matrix has `dofs_per_cell` columns are not preconditions; `ReinitMatricesAreAccessible` states when they pass. Derived classes that override these accessors are not modelled.
- `constraints`, `hp_constraints_are_implemented`, and the `shape_*` and `*_interpolation_matrix` functions are not modelled. They compute floating-point values, or defer to derived classes.
- `FiniteElement::operator==` is not modelled, and neither is `operator!=`, which negates it. It compares run-time types, names and floating-point matrices.
- `get_face_data`, `get_subface_data`, `memory_consumption`, `operator^`, `get_sub_fe`, `has_support_on_face` and `get_constant_modes` are not part of the named core.
- Support points are modelled by length only; their coordinates are floating point. `unit_support_point` and `unit_face_support_point` return a coordinate and are left out.
- FiniteElements.FiniteElement.BlockMaskOfComponents: the debug `Assert` against masks that split a block is modelled as a precondition (`RunsAgree`). Without it the release-mode result is still the `BlocksOf` function.
- FiniteElements.AdjustQuadDofIndex: the debug `Assert(dim == 3)` is not a precondition. The model gives the release behaviour below 3d, an empty table and the index returned unchanged.
- FiniteElements.FiniteElement.IsotropicProlongationIsImplemented: the model gives the release result on the tables as they stand. The virtual `get_*_matrix` call each loop makes first, through which a derived class may fill its matrices lazily, is not modelled. Neither are the debug `Assert`s that every matrix has 0 or `dofs_per_cell` rows and columns. The same holds for IsotropicRestrictionIsImplemented, ProlongationIsImplemented and RestrictionIsImplemented. `MatricesShaped` only fixes the number of refinement cases and children per case.
- FiniteElements.FaceToCellIndex: the debug `Assert`s are not preconditions: a non-standard orientation only with at most one DoF per line and quad, and quad DoFs only in 3d. The model gives the release result for every orientation and dimension.
- `Multigrid.Multigrid.constructor`: the constructors of `Multigrid` are not in the modelled file. The model's initial state has no edge operators and empty level arrays. It is the model's own, and `vcycle` sizes every level before use.
- `dealii::CellData::operator==` is not part of this model (its body is not in the header). Mesh cells inside a `Description` are compared as whole values, field by field.
- The `create_description_from_triangulation*` functions are not modelled; they need a distributed triangulation and MPI.
- The Boost archive mechanics and the `MPI_Comm` handle are abstract. An archive is a sequence of tagged values, and a communicator is either null or an opaque handle.
- The widths of `types::material_id`, `types::boundary_id`, `types::manifold_id` and `types::subdomain_id` are not part of this model. The invalid and flat ids are taken as the all-ones 32-bit value. `CellId::binary_type`'s length is a parameter.
- `SubCellData::check_consistency` is modelled from its documented behaviour, since its body lives in another file. For dimensions above 2 it always answers true.
