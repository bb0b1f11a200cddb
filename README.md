# cubegame voxel chunk: a Dafny model

cubegame is a small libGDX voxel game. Its world holds one chunk, a cube of
`CHUNK_SIZE`^3 cells. The chunk's constructor fills the box [15, CHUNK_SIZE)^3
with blocks. It then builds a mesh by per-face culling:

- `buildMesh` walks every cell of [0, CHUNK_SIZE)^3 in x, then y, then z order.
- For each cell that holds a block it tries the six `Direction`s in
  declaration order.
- It emits one unit quad (four corners and a normal) for every face whose
  neighbouring cell holds no block or a transparent one.

The integer vector `Vector3i`, with Java `int` arithmetic, is modelled alongside.

There is no greedy quad merging and no terrain generation: the mesher culls
voxel by voxel, and the constructor fills a fixed box.

Modules, one per source file, plus one for Java's `int`:

- `JavaInt` (java_int.dfy): the 32-bit range and two's-complement wraparound, `Wrap`.
- `Vectors` (vector3i.dfy): `Vector3i` as an immutable datatype.
  - `add`, `sub`, `mul`, `scl` and `div` in wrapping, truncating `int` arithmetic.
  - A zero divisor yields `ArithmeticException`.
  - `equals` and `hashCode` (`Objects.hash`, folded step by step).
- `Directions` (direction.dfy): the enum as a datatype, with `dx`/`dy`/`dz`/`axis`/`negative` and declaration order.
- `Chunks` (chunk.dfy): the face geometry (`getNormal`, `getFaceVertices`, `addFace`) and the class `Chunk`.
  - The class has the block map and the mesh as fields.
  - The constructor runs the triple fill loop.
  - `BuildMesh` runs the nested culling loops, appending to a list of quads.
  - Both loops are proved against specification functions. `ScanFaces` is the faces emitted once the loops reach a given (x, y, z). `MeshFaces` is the whole mesh.
  - `CellQuads` is the direction loop for one cell, written as its own method.
- `Worlds` (world.dfy): the class `World`, whose constructor puts one chunk, built at the origin, into its chunk map.

A block is a unit value whose `isTransparent()` is false. A libGDX `Vector3`
key or corner is an integer `Point`. The `MeshPartBuilder` is the list of
`Quad`s that `rect` calls append to.

## Model

Source paths are under `core/src/main/java/io/github/illuminatijoe/cubegame/`.

| member | source | states |
|---|---|---|
| JavaInt.Wrap | core/src/main/java/io/github/illuminatijoe/cubegame/core/utils/Vector3i.java:30-44 | the `int` result of an arithmetic operation is congruent to the exact result modulo 2^32 and equals it when it is in range |
| JavaInt.WrapCongruent | core/src/main/java/io/github/illuminatijoe/cubegame/core/utils/Vector3i.java:30-44 | results congruent modulo 2^32 wrap to the same `int` |
| Vectors.Zero | core/src/main/java/io/github/illuminatijoe/cubegame/core/utils/Vector3i.java:12-14 | `new Vector3i()` equals (0, 0, 0) |
| Vectors.Copy | core/src/main/java/io/github/illuminatijoe/cubegame/core/utils/Vector3i.java:22-27 | the copy constructor (and `cpy`, lines 63-65) yields a vector `equals` to the original |
| Vectors.AddComponents | core/src/main/java/io/github/illuminatijoe/cubegame/core/utils/Vector3i.java:30-32 | `add(x, y, z)` is `add` of the vector (x, y, z) |
| Vectors.Add | core/src/main/java/io/github/illuminatijoe/cubegame/core/utils/Vector3i.java:34-36 | each component is the sum modulo 2^32, and the exact sum when that fits |
| Vectors.Sub | core/src/main/java/io/github/illuminatijoe/cubegame/core/utils/Vector3i.java:38-40 | each component is the difference modulo 2^32, and the exact difference when that fits |
| Vectors.Mul | core/src/main/java/io/github/illuminatijoe/cubegame/core/utils/Vector3i.java:42-44 | each component is the product modulo 2^32, and the exact product when that fits |
| Vectors.Scl | core/src/main/java/io/github/illuminatijoe/cubegame/core/utils/Vector3i.java:85-87 | each component is the product with the scale modulo 2^32 |
| Vectors.MulIsScl | core/src/main/java/io/github/illuminatijoe/cubegame/core/utils/Vector3i.java:85-87 | `mul(s)` and `scl(s)` give the same vector for every vector and scalar |
| Vectors.AddSubRoundTrip | core/src/main/java/io/github/illuminatijoe/cubegame/core/utils/Vector3i.java:34-40 | `a.add(b).sub(b)` is `a` for all vectors, also when the addition overflows |
| Vectors.MulDistributesOverAdd | core/src/main/java/io/github/illuminatijoe/cubegame/core/utils/Vector3i.java:34-44 | `a.add(b).mul(s)` is `a.mul(s).add(b.mul(s))` in wrapping arithmetic |
| Vectors.TruncDiv | core/src/main/java/io/github/illuminatijoe/cubegame/core/utils/Vector3i.java:46-48 | Java `int` division: the remainder a - q * b is smaller in magnitude than the divisor and is either zero or of the dividend's sign, which pins q down as the quotient rounded toward zero |
| Vectors.Div | core/src/main/java/io/github/illuminatijoe/cubegame/core/utils/Vector3i.java:46-48 | `div(s)` throws exactly when s is 0; otherwise each component is the truncated quotient, wrapped |
| Vectors.DivUndoesMul | core/src/main/java/io/github/illuminatijoe/cubegame/core/utils/Vector3i.java:42-48 | `v.mul(s).div(s)` is `v` for s != 0 when the product does not overflow |
| Vectors.DivTruncatesTowardZero | core/src/main/java/io/github/illuminatijoe/cubegame/core/utils/Vector3i.java:46-48 | (-7, 7, -8) / 2 is (-3, 3, -4) and (-7, 7, 0) / -2 is (3, -3, 0): rounding is toward zero, not Euclidean |
| Vectors.DivOverflow | core/src/main/java/io/github/illuminatijoe/cubegame/core/utils/Vector3i.java:46-48 | `MIN_VALUE / -1` overflows back to `MIN_VALUE` |
| Vectors.Equals | core/src/main/java/io/github/illuminatijoe/cubegame/core/utils/Vector3i.java:67-73 | `equals(o)` holds exactly when o is a `Vector3i` with the same three components |
| Vectors.EqualsIsEquivalence | core/src/main/java/io/github/illuminatijoe/cubegame/core/utils/Vector3i.java:67-73 | `equals` is reflexive, symmetric and transitive, and false for null |
| Vectors.HashConsistentWithEquals | core/src/main/java/io/github/illuminatijoe/cubegame/core/utils/Vector3i.java:67-78 | vectors that are `equals` have the same `hashCode` |
| Vectors.HashCode | core/src/main/java/io/github/illuminatijoe/cubegame/core/utils/Vector3i.java:75-78 | `Objects.hash(x, y, z)`, folding 31 * acc + e from 1 in wrapping arithmetic, is ((31 + x) * 31 + y) * 31 + z, wrapped once |
| Vectors.LenSquaredAsWritten | core/src/main/java/io/github/illuminatijoe/cubegame/core/utils/Vector3i.java:51-53 | the squares and sums `len()` computes in `int`, each step wrapped, give the exact sum of squares modulo 2^32 |
| Vectors.LenSquaredOverflows | core/src/main/java/io/github/illuminatijoe/cubegame/core/utils/Vector3i.java:51-53 | as written, the squared length of (46341, 0, 0) wraps to -2147479015 |
| Vectors.LenSquaredMeaning | core/src/main/java/io/github/illuminatijoe/cubegame/core/utils/Vector3i.java:51-53 | the exact squared length is 0 only for the zero vector, and the `int` evaluation agrees with it exactly when it fits |
| Vectors.DstSquaredAsWritten | core/src/main/java/io/github/illuminatijoe/cubegame/core/utils/Vector3i.java:55-60 | the `int` differences, squares and sums `dst()` computes give the exact squared distance modulo 2^32, even where a difference wraps |
| Vectors.DstSquaredWrapsDifference | core/src/main/java/io/github/illuminatijoe/cubegame/core/utils/Vector3i.java:55-60 | as written, points 2^32 - 1 apart along x come out at squared distance 1 |
| Vectors.DstSquaredSymmetric | core/src/main/java/io/github/illuminatijoe/cubegame/core/utils/Vector3i.java:55-60 | the exact squared distance from v to o is the one from o to v |
| Vectors.DstSquaredZero | core/src/main/java/io/github/illuminatijoe/cubegame/core/utils/Vector3i.java:55-60 | the exact squared distance is 0 exactly between equal vectors |
| Vectors.DstSquaredAgrees | core/src/main/java/io/github/illuminatijoe/cubegame/core/utils/Vector3i.java:55-60 | the `int` evaluation agrees with the exact squared distance whenever that fits in an `int` |
| Directions.Dx | core/src/main/java/io/github/illuminatijoe/cubegame/core/Direction.java:4-20 | the `dx` field of each constant: -1 for WEST, 1 for EAST, 0 otherwise (no contract of its own; its meaning is stated by Directions.UnitAlongAxis) |
| Directions.Dy | core/src/main/java/io/github/illuminatijoe/cubegame/core/Direction.java:4-20 | the `dy` field of each constant: -1 for DOWN, 1 for UP, 0 otherwise (no contract of its own; see Directions.UnitAlongAxis) |
| Directions.Dz | core/src/main/java/io/github/illuminatijoe/cubegame/core/Direction.java:4-20 | the `dz` field of each constant: -1 for NORTH, 1 for SOUTH, 0 otherwise (no contract of its own; see Directions.UnitAlongAxis) |
| Directions.Axis | core/src/main/java/io/github/illuminatijoe/cubegame/core/Direction.java:4-20 | the `axis` field: 2 for NORTH/SOUTH, 0 for WEST/EAST, 1 for DOWN/UP (no contract of its own; see Directions.AxisAndSignFromOrder) |
| Directions.Negative | core/src/main/java/io/github/illuminatijoe/cubegame/core/Direction.java:4-20 | the `negative` field: true for NORTH, WEST and DOWN (no contract of its own; see Directions.AxisAndSignFromOrder) |
| Directions.AxisAndSignFromOrder | core/src/main/java/io/github/illuminatijoe/cubegame/core/Direction.java:4-20 | every `axis` is 0, 1 or 2; the constants come in pairs per axis, Z then X then Y, and within a pair the first points toward the negative end |
| Directions.Values | core/src/main/java/io/github/illuminatijoe/cubegame/core/Direction.java:4-9 | `values()` has six entries |
| Directions.ValuesEnumerateAll | core/src/main/java/io/github/illuminatijoe/cubegame/core/Direction.java:4-9 | every constant occurs in `values()`, and no constant occurs twice |
| Directions.Ordinal | core/src/main/java/io/github/illuminatijoe/cubegame/core/Direction.java:4-9 | each constant's position is below six |
| Directions.OrdinalIsPosition | core/src/main/java/io/github/illuminatijoe/cubegame/core/Direction.java:4-9 | each constant sits at its ordinal, and the order is NORTH, SOUTH, WEST, EAST, DOWN, UP |
| Directions.UnitAlongAxis | core/src/main/java/io/github/illuminatijoe/cubegame/core/Direction.java:4-13 | each (dx, dy, dz) has its one nonzero component at index `axis`; that component is -1 exactly when `negative` holds, else +1 |
| Directions.OffsetsDistinct | core/src/main/java/io/github/illuminatijoe/cubegame/core/Direction.java:4-9 | no two constants share an offset |
| Directions.Opposite | core/src/main/java/io/github/illuminatijoe/cubegame/core/Direction.java:4-9 | NORTH/SOUTH, WEST/EAST and DOWN/UP pair up: each pair shares an axis and has opposite sign and negated offset |
| Directions.OppositeIsInvolution | core/src/main/java/io/github/illuminatijoe/cubegame/core/Direction.java:4-9 | the pairing is its own inverse |
| Directions.TwoPerAxis | core/src/main/java/io/github/illuminatijoe/cubegame/core/Direction.java:4-13 | each axis carries exactly two constants, one with `negative` true and one with it false |
| Chunks.IsTransparent | core/src/main/java/io/github/illuminatijoe/cubegame/core/world/block/Block.java:17-19 | no block is transparent |
| Chunks.Neighbor | core/src/main/java/io/github/illuminatijoe/cubegame/core/world/Chunk.java:65-67 | the cell `new Vector3(x + dir.dx, y + dir.dy, z + dir.dz)` (no contract of its own; see Chunks.NeighborIsUnitStep) |
| Chunks.NeighborIsUnitStep | core/src/main/java/io/github/illuminatijoe/cubegame/core/world/Chunk.java:65-67 | the neighbour differs from the cell in the direction's axis only, by -1 when `negative` and +1 otherwise; stepping back in the opposite direction returns to the cell |
| Chunks.Exposed | core/src/main/java/io/github/illuminatijoe/cubegame/core/world/Chunk.java:65-71 | a face is drawn when the neighbouring cell is missing from the map or holds a transparent block (no contract of its own; see Chunks.ExposedIffEmpty) |
| Chunks.ExposedIffEmpty | core/src/main/java/io/github/illuminatijoe/cubegame/core/world/Chunk.java:65-71 | since no block is transparent, a face is exposed exactly when the neighbouring cell holds no block |
| Chunks.Normal | core/src/main/java/io/github/illuminatijoe/cubegame/core/world/Chunk.java:93-95 | the normal is +-1 along the direction's axis (-1 when `negative`) and 0 elsewhere |
| Chunks.NormalIsUnit | core/src/main/java/io/github/illuminatijoe/cubegame/core/world/Chunk.java:93-95 | the normal has squared length 1, so `nor()` leaves it unchanged |
| Chunks.FaceVertices | core/src/main/java/io/github/illuminatijoe/cubegame/core/world/Chunk.java:97-148 | four corners, each a corner of the cube [x, x+size] x [y, y+size] x [z, z+size], all on the face's plane |
| Chunks.FaceIsSquare | core/src/main/java/io/github/illuminatijoe/cubegame/core/world/Chunk.java:102-144 | for size != 0, consecutive corners differ in one coordinate, opposite corners in two, and all four are distinct |
| Chunks.WindingMatchesNormal | core/src/main/java/io/github/illuminatijoe/cubegame/core/world/Chunk.java:102-144 | (v1 - v0) x (v2 - v0) is size^2 times (dx, dy, dz) for every direction |
| Chunks.FaceQuad | core/src/main/java/io/github/illuminatijoe/cubegame/core/world/Chunk.java:83-91 | the quad `addFace` emits has all four corners on the face's plane and an outward normal |
| Chunks.FaceQuadFacesNormal | core/src/main/java/io/github/illuminatijoe/cubegame/core/world/Chunk.java:83-95 | every emitted quad winds counter-clockwise around its own normal |
| Chunks.QuadsOf | core/src/main/java/io/github/illuminatijoe/cubegame/core/world/Chunk.java:90 | one `rect` call per face |
| Chunks.QuadsOfAt | core/src/main/java/io/github/illuminatijoe/cubegame/core/world/Chunk.java:90 | the i-th quad is the quad of the i-th face |
| Chunks.CellFacesUpToSpec | core/src/main/java/io/github/illuminatijoe/cubegame/core/world/Chunk.java:64-74 | after k directions a block has emitted at most k faces: those among the first k directions whose neighbour holds no opaque block, in direction order, and all k when every one is open |
| Chunks.CellFacesSpec | core/src/main/java/io/github/illuminatijoe/cubegame/core/world/Chunk.java:61-74 | an empty cell emits nothing; a block emits at most six faces, exactly its exposed ones, in direction order |
| Chunks.ScanFacesMember | core/src/main/java/io/github/illuminatijoe/cubegame/core/world/Chunk.java:57-77 | a face has been emitted by the time the loops reach (x, y, z) exactly when its cell is in the chunk and before that point, holds a block, and the face is exposed |
| Chunks.ScanFacesOrder | core/src/main/java/io/github/illuminatijoe/cubegame/core/world/Chunk.java:57-77 | the faces emitted so far are in x, y, z, direction order |
| Chunks.MeshFaces | core/src/main/java/io/github/illuminatijoe/cubegame/core/world/Chunk.java:57-77 | the faces the three nested loops emit over [0, CHUNK_SIZE)^3 (no contract of its own; its content is stated by Chunks.MeshFacesExactly and its order by Chunks.MeshFacesInOrder) |
| Chunks.MeshFacesExactly | core/src/main/java/io/github/illuminatijoe/cubegame/core/world/Chunk.java:57-74 | face (p, d) is emitted exactly when p is in [0, CHUNK_SIZE)^3, holds a block, and the cell beyond it toward d holds none |
| Chunks.MeshFacesInOrder | core/src/main/java/io/github/illuminatijoe/cubegame/core/world/Chunk.java:57-64 | the mesh is x-major, then y, then z, then direction order, and no face is emitted twice |
| Chunks.SharedFaceHidden | core/src/main/java/io/github/illuminatijoe/cubegame/core/world/Chunk.java:65-72 | the face two adjacent blocks share is emitted from neither side |
| Chunks.BoundaryFaceEmitted | core/src/main/java/io/github/illuminatijoe/cubegame/core/world/Chunk.java:65-72 | when every block lies in the chunk, the lookup beyond the boundary finds no block, so a block on the boundary emits its outward face |
| Chunks.IsolatedBlockEmitsSix | core/src/main/java/io/github/illuminatijoe/cubegame/core/world/Chunk.java:64-74 | a block without face-adjacent neighbours emits all six faces |
| Chunks.FilledBoxMeshIsSurface | core/src/main/java/io/github/illuminatijoe/cubegame/core/world/Chunk.java:26-41 | for the filled box, a face is emitted exactly when its block is in the box and the cell beyond is not: the mesh is the box's outer surface |
| Chunks.Chunk.constructor | core/src/main/java/io/github/illuminatijoe/cubegame/core/world/Chunk.java:26-42 | the map holds exactly the cells of [15, CHUNK_SIZE)^3, and the mesh is the quads of exactly the exposed faces, in emission order |
| Chunks.Chunk.GetBlockMap | core/src/main/java/io/github/illuminatijoe/cubegame/core/world/Chunk.java:44-46 | the returned map holds exactly the filled box |
| Chunks.Chunk.GetMesh | core/src/main/java/io/github/illuminatijoe/cubegame/core/world/Chunk.java:150-152 | the returned mesh has one quad per exposed face, in emission order |
| Chunks.Chunk.CellQuads | core/src/main/java/io/github/illuminatijoe/cubegame/core/world/Chunk.java:64-74 | the direction loop for one block appends the quads of exactly that block's exposed faces, in direction order |
| Chunks.Chunk.BuildMesh | core/src/main/java/io/github/illuminatijoe/cubegame/core/world/Chunk.java:48-81 | the quads appended by the nested loops are those of `MeshFaces`, whose content and order are given by MeshFacesExactly and MeshFacesInOrder |
| Worlds.World.constructor | core/src/main/java/io/github/illuminatijoe/cubegame/core/world/World.java:11-15 | the chunk map has exactly one entry, keyed at the origin; that chunk is new, sits at the origin and holds the filled box with its mesh |
| Worlds.World.GetChunkMap | core/src/main/java/io/github/illuminatijoe/cubegame/core/world/World.java:17-19 | the map the world holds: one entry at the origin, and every chunk sits at its key |

## Left out

- Main.java and Player.java are not part of this model: application lifecycle, rendering, camera and input, and floating-point trigonometry.
- `Constants.java` is not part of this model: `CHUNK_SIZE` is a parameter of the `Chunk` and `World` constructors.
- libGDX `ModelBuilder`, `Material` and `ModelInstance` (Chunk.java:49-55, 79-80) are foreign calls: the builder is the list of quads appended by `rect`, and the chunk's `mesh` field holds that list rather than a renderable instance.
- Float `Vector3` coordinates are modelled as integers. Every coordinate is a whole number between -1 and CHUNK_SIZE, so the float values are exact for CHUNK_SIZE <= 2^24. Above that, `float` keys would round and distinct cells could collide in the map; the model does not capture this.
- The `nor()` of `getNormal` is not computed: `Chunks.NormalIsUnit` shows that the normal already has length 1.
- `Block`'s `ModelInstance` is left out: a block is a unit value, and only its `isTransparent()` (always false, Block.java:17-19) is modelled.
- The `default` branch of `getFaceVertices`, which returns an empty array, is unreachable: the switch names all six constants, so the model's match has no default.
- Object identity and aliasing are not modelled. The world uses one `Vector3` object both as the map key and as the chunk's position, and `equals`' `this == o` shortcut tests identity. The model uses value equality, which gives the same answers.
- `Vector3i`'s fields are public and mutable, but nothing in the source assigns them after construction, so the vector is an immutable datatype. The receiver-unchanged property of `add`, `sub`, `mul` and `scl` therefore holds by construction.
- `equals(Object o)`'s argument is an `Option`: `None` stands for null or an object of another class.
- `len` and `dst` stop before `Math.sqrt`: only the integer sum of squares they pass to it is modelled.
- `toString` is string formatting and is left out.
- `hashCode` follows `Objects.hash` through `Arrays.hashCode` semantics. The `Integer` boxing and the varargs array are left out.
- Java `HashMap` hashing and bucket behaviour are left out: the maps are Dafny maps with the same lookup results.
- Worlds.World.GetChunkMap: `getChunkMap` returns the world's mutable `HashMap` itself, so callers can change the world's chunks through it. The model returns the map as a value and does not capture such changes.
- Directions.Values: its contract states only that there are six entries; that every constant occurs once, and the order, are stated in `Directions.ValuesEnumerateAll` and `Directions.OrdinalIsPosition`.
- Chunks.QuadsOf: its contract states only the length; the pointwise statement is lemma `Chunks.QuadsOfAt`.
- Chunks.Chunk.CellQuads: the source runs this loop inline in `buildMesh`. As its own method, it appends the same quads in the same order.

## Findings

| source | as written | input that shows it | evidently intended | confidence | as-written member | corrected member |
|---|---|---|---|---|---|---|
| core/src/main/java/io/github/illuminatijoe/cubegame/core/utils/Vector3i.java:51-53 | `len()` squares and sums the components in 32-bit `int` before `Math.sqrt` | (46341, 0, 0): the sum wraps to -2147479015, so `len()` is NaN | the root of the exact sum of squares (e.g. evaluated in `long` or `double`) | not executed | Vectors.LenSquaredOverflows | Vectors.LenSquaredMeaning |
| core/src/main/java/io/github/illuminatijoe/cubegame/core/utils/Vector3i.java:55-60 | `dst()` takes `other - this` per component in 32-bit `int` | this = (MIN_VALUE, 0, 0), other = (MAX_VALUE, 0, 0): dx wraps to -1 and `dst` is 1 | the exact difference and the exact squared distance | not executed | Vectors.DstSquaredWrapsDifference | Vectors.DstSquaredAgrees |
