# A software 3D pipeline and its C utilities, modelled in Dafny

The repository is a small software renderer written in C, together with the utility code it is
built on. This project models the renderer's core and the utilities it names, and proves properties
of the model:

- **gcore.c** does the pipeline's work on a flat stream of triangle records. Each record holds
  twelve position doubles, then A attributes per vertex, then S statics. The three routines are:
  - `GCORE_TransformTriangles` transforms positions and normals in place.
  - `GCORE_ClipTriangles` clips against the homogeneous cube `-w <= x, y, z <= w` and
    fan-triangulates what is left.
  - `GCORE_TriangleRaster` scan-converts each triangle into a depth buffer and an attribute
    buffer.
- **m3d.c** holds the 4x4 homogeneous vector and matrix algebra.
- **matrix.c** holds the n x n product and the Gauss-Jordan inverse.
- **avl.c** is an AVL tree map over 64-bit polymorphic values, with an in-order iterator and a
  lexicographic deep comparator.
- **list.c** is a doubly linked list with head and tail operations and an iterator.
- **bmp.c** writes a 24-bit BMP file.
- **KFNV.h** is FNV-1 hashing.
- **KMSA.h** builds an isosurface mesh by marching simplices: the cube is split into six tetrahedra.

Modules follow the source files:

- `GCoreStream` holds the record layout shared by the three gcore routines.
- `GCoreClip` and `GCoreClipper` hold the clipper's specification and its loops.
- `GCoreTransform` and `GCoreRaster` hold the other two routines.
- `M3D` and `Matrix` hold the algebra.
- `AVLNode`, `AVLPath`, `AVLRepair`, `AVLMap`, `AVL` and `AVLIterator` hold the tree.
- `LinkedList`, `BMP`, `KFNV` and `KMSA` hold the rest.
- `Poly` models `POLY_Polymorphic`; `Wrappers` and `FlatIndex` are helpers.

## How the model is built

**Floating point.** C doubles are modelled as Dafny `real`s.

**Division by zero.** Where the routine divides by a value it never keeps away from zero, the
model takes 0 in place of the IEEE infinity or NaN:

- the screen coordinates and the perspective divide of the rasterizer;
- the clip weights, whose denominator is never zero when every w is positive
  (`GCoreClip.PositiveWClippable`).

**Rounding.** C `round()` rounds halves away from zero.

**Loops become methods.** Routines that work on buffers are methods over `array<real>`, with
their loops and invariants. Each method is proved to leave the buffer equal to a specification
function of the old contents, and the properties are proved about that function:

- `ClipTriangles` is specified by `ClipChecked`;
- `TransformTriangles` by `TransformUpTo`;
- `TriangleRaster` by `RasterUpTo`;
- `Matrix.Inverse` by `GaussJordan`;
- `KMSA.Isochunk` by `Chunk`;
- `BMP.WriteBitmap` by `Encodes`.

**The AVL tree.** The tree is a class holding a root node value, a size counter and a
comparator. Its nodes are immutable values. The parent links the C code follows upwards become
an explicit path of frames, a zipper.

Every method is tied to a function of `AVLMap`. Its `ensures` says what the tree then maps each
key to and how `size` changes; the `ensures` of `Set` also says that balance is kept:

- the `AVLMap` function states the search order;
- the `AVLRepair` lemmas state the balance proofs.

**The linked list.** The list is a heap structure of `Node` objects. It carries a ghost sequence
of the nodes and one of the values, tied together by a chain predicate.

## Model

| member | source | states |
|---|---|---|
| KFNV.HashBytes | KFNV.h:9-21 | the loop returns the FNV-1 hash of the first `count` bytes from the given seed, with the word width explicit |
| KFNV.StepMultipliesFirst | KFNV.h:16-17 | each round multiplies by KFNV_PRIME modulo the word size first, then XORs the byte into the low eight bits only |
| KFNV.Streaming | KFNV.h:14-19 | hashing a + b equals hashing b seeded with the hash of a, so a caller may hash a buffer in pieces |
| KFNV.EmptyKeepsSeed | KFNV.h:14-20 | a count of zero returns the seed unchanged |
| KFNV.HashIsWord | KFNV.h:14-19 | after at least one byte the state is a word of the platform width whatever the seed was |
| KFNV.TestVectorA | KFNV.h:6-7 | from KFNV_INIT, with 32-bit words and prime 0x01000193, the hash of "a" is the published FNV-1 value 0x050c5d7e |
| KMSA.SimplexWalksEdges | KMSA.h:61-67 | every (t[1], n) gives a simplex 0, t[1], t[2], 7 whose consecutive corners are joined by cube edges |
| KMSA.SixSimplices | KMSA.h:63-67 | every edge walk 0 -> a -> b -> 7 is one of the six the loops enumerate: the two orientations give distinct t[2] |
| KMSA.Classify | KMSA.h:68-82 | the classification loop puts the local indices with positive density in ascending order into a1 and the others into a2, with c their number |
| KMSA.SelectPartition | KMSA.h:71-82 | the positive and non-positive lists together cover the four local indices exactly once |
| KMSA.WeightCrossing | KMSA.h:98-109 | the interpolation weight lies in [0, 1] and puts the linear interpolation of the two densities at zero |
| KMSA.SingleWeightAgrees | KMSA.h:98-109 | the single-triangle formula with absolute values and the quad formula with signed values give the same weight on a crossing edge |
| KMSA.EmitCount | KMSA.h:84-118 | a simplex with 1 or 3 positive corners emits three edges, one with 2 emits six, one with 0 or 4 emits none |
| KMSA.EmitCrossings | KMSA.h:86-115 | every edge a simplex emits joins a positive corner to a non-positive one, so the surface crosses it |
| KMSA.QuadSharesDiagonal | KMSA.h:105-115 | the two triangles of a quad share their diagonal: edge 0 equals edge 5 and edge 2 equals edge 3 |
| KMSA.ChunkSize | KMSA.h:63-121 | the six simplices emit a whole number of triangles, at most twelve, so k <= 72 |
| KMSA.ChunkCrossings | KMSA.h:63-121 | every edge of the whole chunk is a crossing edge |
| KMSA.Isochunk | KMSA.h:15-122 | indices and tvals hold the chunk's edges and weights, k entries; nothing past them is written |
| BMP.ChannelLayout | bmp.c:20-78 | a layout exists iff the format is known and the endianness is little or big; it has 3 or 4 bytes and three distinct in-range channel offsets |
| BMP.LayoutMatchesChannelOrder | bmp.c:20-78 | each channel offset is the position of that channel's letter in the format's memory order, reversed for little endian |
| BMP.WPitch | bmp.c:79-80 | the row pitch is a multiple of four and at most three bytes beyond three times the width |
| BMP.WPitchIsSmallest | bmp.c:79-80 | no smaller multiple of four holds the row |
| BMP.LE32RoundTrip | bmp.c:14 | the four BYTES of a 32-bit value decode back to it modulo 2^32 |
| BMP.HeaderFields | bmp.c:84-100 | the header is "BM", total size, pixel offset 0x36, info size 0x28, width, height, one plane, 24 bits, no compression, image size and resolution as little-endian fields |
| BMP.Repack | bmp.c:101-113 | each output pixel row holds the source pixel's b, g and r bytes in that order, and the padding bytes stay zero |
| BMP.WriteBitmap | bmp.c:16-119 | no file iff the flags are unsupported; otherwise the header followed by the repacked rows |
| M3D.TransformLinear | m3d.c:13-19 | transforming maps a combination a + k b of vectors to the same combination of their images |
| M3D.TransformIdentity | m3d.c:76-94 | the identity matrix leaves every vector unchanged |
| M3D.MultiplyIdentity | m3d.c:301-319 | the identity is a two-sided unit of the product |
| M3D.TransformMultiply | m3d.c:301-319 | transforming by a product is transforming by the right factor, then by the left |
| M3D.TransposeInvolution | m3d.c:274-292 | transposing twice gives the matrix back |
| M3D.TransposeMultiply | m3d.c:274-319 | the transpose of a product is the product of the transposes in reverse order |
| M3D.SubtractUndoesAdd | m3d.c:21-35 | subtracting b undoes adding b on x, y, z; both set w to 1 |
| M3D.DotIgnoresW | m3d.c:37-40 | the dot product reads only x, y, z and is symmetric |
| M3D.CrossOrthogonal | m3d.c:42-48 | the cross product is orthogonal to both operands and anti-commutes |
| M3D.ScaleVectorDot | m3d.c:50-56 | scaling a vector scales its dot products |
| M3D.NormalizedRecovers | m3d.c:67-74 | dividing by w is undone by multiplying by w, and leaves a vector with w = 1 unchanged |
| M3D.TranslateSemantics | m3d.c:156-174 | translation moves points (w = 1) by the offset and leaves directions (w = 0) alone |
| M3D.ScaleSemantics | m3d.c:176-194 | scaling multiplies x, y, z componentwise and keeps w |
| M3D.WorldSemantics | m3d.c:196-214 | the world matrix maps a vector to x ax + y ay + z az + w o |
| M3D.ViewInvertsWorld | m3d.c:196-234 | for an orthonormal basis, view(basis, o) times world(basis, o) is the identity |
| M3D.InverseDivisorIsDeterminant | m3d.c:236-254 | the divisor Inverse computes from the first row and its adjugate row is the determinant |
| M3D.InverseIdentity | m3d.c:249-272 | the identity is its own inverse |
| M3D.InverseTranslate | m3d.c:249-272 | the inverse of a translation by o is the translation by -o |
| M3D.InverseTransposeTranslateNormal | m3d.c:294-299 | the inverse transpose of a translation keeps a normal's x, y, z and puts -o . n in w |
| M3D.PerspectiveW | m3d.c:321-339 | the perspective matrix puts -z into w |
| M3D.PerspectiveMapsFrustum | m3d.c:321-339 | the near corners (left, bottom) and (right, top) map to the cube's corners; a point at z = far lands on z = -w |
| M3D.PerspectiveZ | m3d.c:321-339 | the z row sends z = near to -near and z = far to far, whatever x and y are |
| M3D.OrthographicBounds | m3d.c:341-359 | the box faces left/right, bottom/top and z = -near / -far map to -1 and 1, with w = 1 |
| Matrix.Multiply | matrix.c:12-23 | result row-major holds the n x p product of left (n x m) and right (m x p); cells past n p are untouched |
| Matrix.MultiplyIdentityRight | matrix.c:12-23 | multiplying by the identity gives the left factor back |
| Matrix.SetIdentity | matrix.c:31-37 | result holds the n x n identity; nothing past n n changes |
| Matrix.FindPivot | matrix.c:40 | the pivot search returns the first row at or below i with a non-zero entry in column i, or n when there is none |
| Matrix.Inverse | matrix.c:25-89 | returns true iff every column has a pivot, and then result holds GaussJordan of the original operand as the code computes it, also when result is the operand itself |
| Matrix.DiagonalInverse | matrix.c:25-89 | a diagonal matrix with non-zero entries is inverted to the reciprocals |
| Matrix.IdentityInverse | matrix.c:25-89 | the identity inverts to itself |
| Matrix.CorrectedLeftInverse | matrix.c:41-52 | with whole rows swapped, the result times the operand is the identity whenever elimination succeeds |
| Matrix.PartialSwapCounterexample | matrix.c:41-52 | as written, [[1,0,0],[1,0,1],[0,1,0]] inverts to a matrix whose product with it is not the identity |
| Matrix.PivotScanOverruns | matrix.c:40 | as written, on a column with no pivot the scan reads work[n n + i], past the end of work |
| Matrix.PivotScanInBounds | matrix.c:40 | when a pivot exists the scan reads only cells inside work |
| GCoreClip.RegionBits | gcore.c:31-41 | bit 2a is set iff the component is below -w; bit 2a+1 iff it is above w and not below -w; the two bits of an axis are never both set |
| GCoreClip.TrivialRejectIsCommonBit | gcore.c:50 | the reject test selects the planes all three vertices lie outside |
| GCoreClip.EdgeRejectIsCommonBit | gcore.c:77 | the edge test selects the planes both endpoints lie outside |
| GCoreClip.BitIsShift | gcore.c:88 | `(planes >> j) & 1` tests whether the edge crosses plane j |
| GCoreClip.RestIsShift | gcore.c:130 | `planes >> j == 0` holds exactly when the edge crosses no plane from j on |
| GCoreClip.OutputTrivial | gcore.c:43-50 | a triangle with all codes zero is copied whole; one whose codes share a bit yields nothing |
| GCoreClip.CrossingsSound | gcore.c:85-131 | an edge yields at most two crossings and each is a point of the edge with weights (b2, b1, 0) summing to one |
| GCoreClip.EdgePointsSound | gcore.c:61-143 | an inside start vertex is stored first with weight 1; an edge whose ends share an outside plane adds nothing; every point is faithful |
| GCoreClip.PointsSound | gcore.c:59-143 | the three edges store at most nine points, each a combination of the corners with weights summing to one |
| GCoreClip.PositiveWClippable | gcore.c:94-101 | with every w positive no crossing divides by zero |
| GCoreClip.OutputCutSize | gcore.c:144-203 | the general path writes max(1, points - 2) triangles |
| GCoreClip.FanRecordLayout | gcore.c:146-199 | each fan triangle carries the source's statics verbatim, and its vertex k is the position of its k-th point |
| GCoreClip.FanRecordAttributes | gcore.c:150-198 | each attribute of a fan vertex is the sum of the source vertices' attributes weighted by that point's barycentric weights |
| GCoreClip.FanFaithful | gcore.c:144-203 | with three or more points every fan vertex's attributes use the weights that give its position |
| GCoreClip.Clip | gcore.c:13-206 | the records the routine as written leaves in buffout: a prefix of the unbounded output, cut short only where a general-path record brings the count to the capacity |
| GCoreClip.AcceptIgnoresCapacity | gcore.c:43-48 | as written, with room for one triangle two accepted triangles are both written |
| GCoreClip.ClipCheckedIsTruncation | gcore.c:26-207 | with the capacity checked on every path, the output is the first `capacity` triangles of the unbounded output |
| GCoreClip.ClipAgrees | gcore.c:26-207 | when everything fits, the corrected and the as-written clipper agree |
| GCoreClip.SevenPointsOverflow | gcore.c:55-57 | as written, the triangle (0.5,0,0,1), (1.5,2,0,1), (-2.5,-2,0,1) puts seven points into the six-row buffers |
| GCoreClipper.MarkRegions | gcore.c:28-41 | regions[i] is the region code of vertex i |
| GCoreClipper.CollectPoints | gcore.c:59-143 | after the edge walk, index is the number of points and the buffer rows hold them in the order the code stores them |
| GCoreClipper.CopyRecord | gcore.c:43-48 | a triangle inside the cube is appended whole after the records already laid; nothing past it changes |
| GCoreClipper.ClipRecord | gcore.c:29-204 | one input triangle adds its output to the laid output stream, cut and stopping when the capacity is reached; nothing past the last record written changes |
| GCoreClipper.ClipTriangles | gcore.c:13-208 | the return value is the number of records written, buffout holds exactly those records, back to back, and nothing past them changes |
| GCoreTransform.TransformTriangles | gcore.c:210-254 | the buffer ends as each record transformed in turn by projection * (view * world), with every write in the code's order |
| GCoreTransform.RecordPositions | gcore.c:229-233 | each position of a transformed record is the original vertex times the coordinate transform |
| GCoreTransform.RecordStaticNormal | gcore.c:236-241 | the static normal becomes the inverse transpose of world times the normal read as a direction |
| GCoreTransform.RecordVertexNormal | gcore.c:242-251 | when each write-back stays within its vertex's attributes, every per-vertex normal becomes its transformed original |
| GCoreTransform.RecordUnchanged | gcore.c:225-253 | a double that no store touches keeps its value |
| GCoreTransform.StreamPositions | gcore.c:225-233 | after `count` records, every position of every record is its original vertex times the coordinate transform, when each record's stores stay inside it |
| GCoreTransform.StreamStaticNormal | gcore.c:225-241 | after `count` records, the static normal of every record is its original normal transformed by the normal transform, under the same layout |
| GCoreTransform.StreamVertexNormal | gcore.c:225-251 | after `count` records, each per-vertex normal of every record is its original transformed, when each write-back also stays within its vertex's attributes |
| GCoreTransform.StreamUnchanged | gcore.c:225-253 | after `count` records, a double that no store of its own record touches, and every double past the records, keeps its value |
| GCoreTransform.StaticWriteBackCrossesRecord | gcore.c:236-252 | as written, a static normal that ends its record writes its fourth double over the next record's first position before that record reads it; the three-double write-back leaves it alone |
| GCoreTransform.NormalWriteBackClobbers | gcore.c:240-249 | as written, with three attributes, vertex 0's four-double write-back overwrites vertex 1's normal x before it is read |
| GCoreRaster.Round | gcore.c:281 | round() gives the nearest integer, halves away from zero |
| GCoreRaster.RoundMonotone | gcore.c:305 | rounding keeps order |
| GCoreRaster.RankVertex | gcore.c:272-277 | the inner loop computes the vertex's rank |
| GCoreRaster.RankPermutation | gcore.c:270-282 | the three ranks are 0, 1 and 2, each given once |
| GCoreRaster.RankOrder | gcore.c:275-276 | a lower rank means a lower screen y, or the same y and a lower index |
| GCoreRaster.SetupTriangle | gcore.c:264-282 | verts, xvals and ycut are filled by rank: listed by rank, the vertices go up in y |
| GCoreRaster.LineOf | gcore.c:285-289 | on a scanline of the triangle t0 lies in [0, 1) and t1 in [0, 1] |
| GCoreRaster.PlotDepthTest | gcore.c:311-317 | a pixel's depth is stored iff it is at least the stored one, and then only its own cell and record change |
| GCoreRaster.PixelWrite | gcore.c:305-318 | a kept pixel holds its depth, its interpolated attributes and the triangle's statics verbatim; a rejected one leaves everything unchanged |
| GCoreRaster.RowHoldsDepths | gcore.c:305-318 | after a scanline every one of its cells holds a depth at least that pixel's own |
| GCoreRaster.RasterDeeper | gcore.c:262-321 | drawing never lowers a stored depth |
| GCoreRaster.TriangleRaster | gcore.c:256-322 | the buffers end as every record drawn in turn |
| AVL.Tree.constructor | avl.c:11-19 | an empty, valid tree with the given comparator |
| AVL.Tree.Clear | avl.c:33-37 | size becomes 0 while root still names the released nodes; the tree is valid only if it was empty |
| AVL.Tree.GetNode | avl.c:42-52 | the walk stops at the node with the key, or falls off where the key would go, with the parents above it |
| AVLMap.DescendFinds | avl.c:42-52 | the walk finds a node iff the key is bound, and the pairs left and right of its position are the smaller and the larger keys |
| AVL.Tree.Get | avl.c:54-59 | the value bound to the key, POLY_DEFAULT when the key is absent |
| AVL.Tree.Contains | avl.c:300-303 | 1 iff the key is bound, 0 iff it is not |
| AVL.Tree.Size | avl.c:308-311 | the number of pairs in the tree |
| AVLNode.RecalcHeight | avl.c:64-83 | the node's height becomes one more than its taller child's, a missing child counting 0; its key, value and children are kept |
| AVLNode.Balance | avl.c:122-134 | the balance factor is the left child's height minus the right child's, a missing child counting 0 |
| AVLNode.AscendLeft | avl.c:87-117 | a right rotation keeps the in-order pairs |
| AVLNode.AscendRight | avl.c:87-117 | a left rotation keeps the in-order pairs |
| AVLRepair.RepairStep | avl.c:140-157 | one pass recalculates the parent and rotates at balance 2 or -2, keeping the in-order pairs |
| AVLRepair.RepairUpItems | avl.c:138-159 | repairing to the root keeps the in-order pairs of the whole tree |
| AVLRepair.RepairUpBalanced | avl.c:138-159 | a subtree grown by at most one level under a balanced path is rebalanced at every level up to the root |
| AVL.Tree.Repair | avl.c:138-159 | the loop leaves as root the tree RepairUp describes |
| AVLMap.SetNodeMap | avl.c:161-211 | after Set the key maps to the value, every other key is unchanged, the order is kept and size grows iff the key was absent |
| AVLMap.SetNodeBalanced | avl.c:161-211 | Set keeps a balanced tree balanced |
| AVL.Tree.Set | avl.c:161-211 | the tree is valid, maps the key to the value and every other key as before, size is updated and balance is kept |
| AVL.Tree.Insert | avl.c:213-216 | Set with POLY_DEFAULT as the value |
| AVLMap.DeleteNodeMap | avl.c:218-298 | after Delete the key is unbound, every other key is unchanged, the order is kept and size drops iff it was bound |
| AVL.Tree.Delete | avl.c:218-298 | the tree is valid, the key is unbound, every other pair stays and size is updated |
| AVLIterator.Iterator.constructor | avl.c:313-318 | an iterator over the tree with no current node |
| AVLIterator.Iterator.Next | avl.c:320-361 | the current position moves to the next in-order pair, or off the end after the last; returns 1 iff there is a current node |
| AVLIterator.Iterator.Key | avl.c:363-367 | the key at the current in-order rank, POLY_DEFAULT with no current node |
| AVLIterator.Iterator.Value | avl.c:369-373 | the value at the current in-order rank, POLY_DEFAULT with no current node |
| AVLIterator.Iterator.Reset | avl.c:375-378 | no current node |
| AVLIterator.DeepComparator | avl.c:380-392 | the smaller tree compares lower; trees of equal size compare by the first differing key in order |
| AVLIterator.FirstDifferenceZero | avl.c:387-391 | for equal sizes the comparison is 0 iff the key sequences are equal |
| AVLIterator.FirstDifferenceSwap | avl.c:387-391 | when both trees share one comparator that is a total order, swapping the trees flips the sign of the comparison; the code always uses tree1's comparator, so with two different comparators nothing is claimed |
| LinkedList.List.constructor | list.c:11-17 | an empty, valid list |
| LinkedList.List.Clear | list.c:28-38 | every node is released and size is 0, but first and last still name released nodes; the list is valid again only if it was empty |
| LinkedList.List.Insert | list.c:42-53 | a fresh node holding the value is linked between prev and next, at position k of the nodes and of the values |
| LinkedList.List.InsertHead | list.c:55-58 | the values become [value] + old values |
| LinkedList.List.InsertTail | list.c:60-63 | the values become old values + [value] |
| LinkedList.List.Delete | list.c:67-75 | the node at position k is unlinked; its value leaves the sequence and the rest keep their order |
| LinkedList.List.TakeHead | list.c:77-83 | on an empty list POLY_DEFAULT and no change; otherwise the first value, which is removed |
| LinkedList.List.TakeTail | list.c:85-91 | on an empty list POLY_DEFAULT and no change; otherwise the last value, which is removed |
| LinkedList.List.PeekHead | list.c:93-97 | the first value, POLY_DEFAULT on an empty list |
| LinkedList.List.PeekTail | list.c:99-103 | the last value, POLY_DEFAULT on an empty list |
| LinkedList.List.Size | list.c:105-108 | the number of values, 0 exactly when first and last are NULL |
| LinkedList.Iterator.constructor | list.c:110-115 | an iterator over the list before its first node |
| LinkedList.Iterator.Next | list.c:117-129 | the position moves one step: onto the head from the start, to the next node, then off the end; returns 1 iff on a node |
| LinkedList.StepsInOrder | list.c:117-129 | k steps from the start land on position k - 1, so the iterator visits the values in order |
| LinkedList.StepsPastEnd | list.c:117-129 | one step after the last node the iterator is off the end |
| LinkedList.Iterator.Peek | list.c:131-135 | the value at the current position, POLY_DEFAULT off the list |
| LinkedList.Iterator.Reset | list.c:137-140 | back before the first node |

## Left out

- Memory management is not modelled: `malloc`/`free`, the AVL destroyers `kfree`/`vfree`, and
  `AVL_Destroy` (avl.c:394-398, which clears the tree and frees it). Released list nodes are the
  ghost result of `LinkedList.List.Clear`. Released tree nodes are simply dropped.
- AVL.Tree.Delete: the source calls `kfree` on the deleted key twice when the node has two
  children (avl.c:242-250 and again through avl.c:290). Destroyers are not modelled, so the model
  does not show this.
- AVL.Tree.Delete: balance after a deletion is not proved. After a deletion the code starts the
  repair at the parent's right child when it has one, else at its left child when it has one,
  else at the parent itself (avl.c:291-297). Repair looks at the balance of the child on the path
  (avl.c:146,152). The model mirrors these three cases (`AVLMap.Reattach`), but no balance
  invariant is claimed for it.
- The AVL tree's nodes are values and its parent links are a path. Node identity, aliasing
  between trees and link updates in place are therefore not modelled.
- AVL_Set's own search loop (avl.c:167-190) is modelled by the walk of AVL_GetNode, which takes
  the same branches.
- `AVL_POLYTREE` reads a tree out of a polymorphic value by a cast. The deep comparator
  takes the two trees directly.
- An AVL or list iterator over a structure that is changed while it iterates is excluded: the
  iterator's validity predicate rules it out.
- The AVL and list size counters are `unsigned long`. They are modelled as `nat`, so wrap-around
  is not modelled.
- LinkedList.List.Insert: the position k of `prev` and `next` is a ghost argument. It stands for
  the adjacency every caller in list.c guarantees.
- LIST_DestroyNode (list.c:21-24) is the release step inside Clear and the Take operations.
- m3d.c: `M3D_Unit` and `M3D_RotateX/Y/Z` (m3d.c:58-65, 96-154) need square roots, sines and
  cosines, which reals do not provide. They are not modelled.
- Floating point is real arithmetic: rounding error, infinities and NaN are not modelled. A
  division by zero that the code does not guard is taken as 0.
- GCoreClip.Points: the swap of the last two crossings (gcore.c:133-142) is not modelled. It
  compares `tvalues`, which is never assigned: gcore.c:124 is a comparison (`==`), not an
  assignment. The swap also copies four doubles into three-double rows of `barycentric`
  (gcore.c:140-141).
- GCoreClip.Output: with fewer than three points the general path reads buffer rows that were
  never written (gcore.c:146). The model reads them as zeros and claims nothing about them.
- GCoreTransform.TransformTriangles: the routine is declared to return `int` but returns
  nothing (gcore.c:210-254), so the model returns nothing. The normal transform is formed only
  when a normal is transformed, for a non-singular world matrix.
- GCoreTransform.StreamPositions, StreamStaticNormal, StreamVertexNormal and StreamUnchanged hold
  only where every store of a record stays inside that record (`InRecord`). As written, a static
  normal in the last three doubles of a record breaks this (see Findings), and the stream is then
  described only by `TransformUpTo`.
- GCoreRaster.TriangleRaster: the bounds check is commented out (gcore.c:307), so the caller
  must keep every covered pixel inside the raster. The model requires this.
- GCoreRaster: `yvals` (gcore.c:268,281) is written but never read. It is not modelled.
- Buffer aliasing between the input and output of the gcore routines is excluded. The routines
  name distinct buffers.
- KMSA.Isochunk and KMSA.EmitCase: require `corners` and `tvals` to be distinct arrays. In the C
  code a `tvals` that overlapped `corners` would overwrite corner values still to be read. The
  model does not cover that case.
- AVLNode.RecalcHeight: the null case (avl.c:66, returns 0 and writes nothing) is not modelled,
  and neither is the returned height, which no caller reads. The call on a null grandparent in
  AVL_Ascend (avl.c:116) is that case; on a real grandparent its recalculation is repeated by the
  next repair pass before the height is read (`AVLRepair.RepairStep`).
- BMP.WriteBitmap: file I/O (`fopen`/`fwrite`, bmp.c:114-118) becomes the
  returned byte string. The resolution `res = round(39.3701 * dpi)` (bmp.c:83) is passed in
  already computed.
- KFNV.HashBytes: the loop counter is a C `int` compared against an `unsigned long` count
  (KFNV.h:12-14). A count beyond `INT_MAX` would overflow it; the model counts with `nat`.
- KMSA.h: `meta`, `fun`, `func` and the surrounding test code after KMSA_Isochunk are not part
  of this model; nor is the global counter (KMSA.h:13).
- gcore.h's buffer pools and KNNN.h are not part of this model.
- Matrix.Inverse: where a column has no pivot, the source reads past `work` (matrix.c:40) and
  then divides by zero. The model stops there and returns false, and `result` is then left
  unspecified.
- GCoreClipper.ClipTriangles: computes the corrected clipper (GCoreClip.ClipChecked). Its point
  buffers have nine rows and it checks the capacity on the accept path. The code as written is
  the function GCoreClip.Clip, with the two findings below. With a capacity of zero or less the
  method writes nothing and returns 0. The code tests `written == capacity` only after
  `written++` (gcore.c:172,202), so it writes every record, as GCoreClip.Clip does.
- GCoreClipper.ClipRecord: checks the count against the capacity after an accepted record too
  (the corrected accept path, gcore.c:43-48). The code as written copies an accepted record and
  goes on without that check.
- Matrix.Multiply: requires `result` to be distinct from `left` and `right`. In the C code an
  aliased result would overwrite cells the later sums still read. The model does not cover that
  case.
- BMP.WriteBitmap: requires `0 <= width`, `0 <= height`, `3 * width + 3` and `height` below 2^31
  and a file size below 2^31. Outside these bounds the `int` sizes of the C code (bmp.c:79-81)
  go negative or overflow. The model does not cover such bitmaps.

## Findings

| source | as written | input that shows it | evidently intended | confidence | as-written member | corrected member |
|---|---|---|---|---|---|---|
| gcore.c:55-57 | the point buffers have six rows | the triangle (0.5,0,0,1), (1.5,2,0,1), (-2.5,-2,0,1) stores seven points | rows for every point the edge walk stores, at most nine | high, not executed | GCoreClip.SevenPointsOverflow | GCoreClip.PointsSound |
| gcore.c:43-48 | the trivial-accept path writes without checking `written` against `capacity` | two triangles inside the cube with capacity 1: both are written | never more than `capacity` records | high, not executed | GCoreClip.AcceptIgnoresCapacity | GCoreClip.ClipCheckedIsTruncation |
| gcore.c:240-249 | `M3D_Transform` writes four doubles back to a three-double normal | three attributes, vertex normals at 12, world a translation by (1,0,0), unit normals: vertex 1's normal x ends as -1 instead of 0 | only the three normal components are written back | high, not executed | GCoreTransform.NormalWriteBackClobbers | GCoreTransform.RecordVertexNormal |
| gcore.c:236-241 | the static normal is written back as four doubles | no attributes, three statics (pitch 15), static normal at 12, world a translation by (1,0,0), record 0's normal along x: record 1's first position x ends as -1 instead of 0 | only the three normal components are written back | high, not executed | GCoreTransform.StaticWriteBackCrossesRecord | GCoreTransform.StreamStaticNormal |
| matrix.c:43 | the pivot swap exchanges only columns i..n-1 of `result` | [[1,0,0],[1,0,1],[0,1,0]]: the result times the operand has -1 at (1, 0) | whole rows of `result` are swapped | high, not executed | Matrix.PartialSwapCounterexample | Matrix.CorrectedLeftInverse |
| matrix.c:40 | the pivot test reads `work[n*k+i]` before checking `k<n` | a column with zeros from row i down, e.g. n = 1 and operand [0]: work[1] is read | test `k<n` first | high, not executed | Matrix.PivotScanOverruns | Matrix.FindPivot |
