/** `Chunk`: a cube of `CHUNK_SIZE`^3 cells holding blocks, and the mesher
    that turns it into quads by per-face culling. A block emits a unit quad
    for each of the six directions in which the neighbouring cell holds no
    block (or a transparent one). */
module Chunks {
  import opened Directions

  /** A libGDX `Vector3` whose coordinates are whole numbers: cell
      coordinates, chunk positions and quad corners here are all integral. */
  datatype Point = Point(x: int, y: int, z: int)

  /** A block. Its model instance only matters for rendering; the mesher asks
      it only `isTransparent()`. */
  datatype Block = Block

  /** `Block.isTransparent()`: no block is transparent. */
  predicate IsTransparent(b: Block)
    ensures !IsTransparent(b)
  {
    false
  }

  /** One call of `MeshPartBuilder.rect(v00, v10, v11, v01, normal)`. */
  datatype Quad = Quad(v0: Point, v1: Point, v2: Point, v3: Point, normal: Point)

  /** The face of the block at `pos` that looks toward `dir`. */
  datatype Face = Face(pos: Point, dir: Direction)

  /** The first coordinate of the filled box, on each axis. */
  const FILL_START: int := 15

  /** Coordinate `i` (0 = x, 1 = y, 2 = z) of a point. */
  function Coord(p: Point, i: int): int
    requires 0 <= i < 3
  {
    if i == 0 then p.x else if i == 1 then p.y else p.z
  }

  /** The cell one step from `p` toward `d`. */
  function Neighbor(p: Point, d: Direction): Point {
    Point(p.x + Dx(d), p.y + Dy(d), p.z + Dz(d))
  }

  /** The neighbour differs from `p` in one coordinate only, the one along
      `d`'s axis, by one step toward the end `d` points to; stepping back
      the opposite way returns to `p`. */
  lemma NeighborIsUnitStep(p: Point, d: Direction)
    ensures Differences(p, Neighbor(p, d)) == 1
    ensures Coord(Neighbor(p, d), Axis(d)) == Coord(p, Axis(d)) + (if Negative(d) then -1 else 1)
    ensures Neighbor(Neighbor(p, d), Opposite(d)) == p
  {
  }

  /** The cells `buildMesh` visits: [0, n)^3. */
  predicate InChunk(p: Point, n: int) {
    0 <= p.x < n && 0 <= p.y < n && 0 <= p.z < n
  }

  /** The cells the constructor fills: [15, n)^3. */
  predicate InFilledBox(p: Point, n: int) {
    FILL_START <= p.x < n && FILL_START <= p.y < n && FILL_START <= p.z < n
  }

  /** The test `buildMesh` makes of the neighbouring cell: it holds no block,
      or a transparent one. A lookup of any cell, also outside the chunk, is
      a map lookup that simply finds nothing. */
  predicate Exposed(m: map<Point, Block>, p: Point, d: Direction) {
    var q := Neighbor(p, d);
    q !in m || IsTransparent(m[q])
  }

  /** No block is transparent, so a face is exposed exactly when the
      neighbouring cell is empty. */
  lemma ExposedIffEmpty(m: map<Point, Block>, p: Point, d: Direction)
    ensures Exposed(m, p, d) <==> Neighbor(p, d) !in m
  {
  }

  // ---------------------------------------------------------------------
  // Quad geometry: getNormal, getFaceVertices, addFace

  function Minus(a: Point, b: Point): Point {
    Point(a.x - b.x, a.y - b.y, a.z - b.z)
  }

  function Cross(a: Point, b: Point): Point {
    Point(a.y * b.z - a.z * b.y, a.z * b.x - a.x * b.z, a.x * b.y - a.y * b.x)
  }

  function Scale(s: int, a: Point): Point {
    Point(s * a.x, s * a.y, s * a.z)
  }

  /** How many coordinates two points differ in. */
  function Differences(a: Point, b: Point): nat {
    (if a.x != b.x then 1 else 0) + (if a.y != b.y then 1 else 0) + (if a.z != b.z then 1 else 0)
  }

  /** `getNormal`: the direction's offset, a unit vector along its axis. */
  function Normal(d: Direction): (n: Point)
    ensures Coord(n, Axis(d)) == if Negative(d) then -1 else 1
    ensures forall i :: 0 <= i < 3 && i != Axis(d) ==> Coord(n, i) == 0
  {
    Point(Dx(d), Dy(d), Dz(d))
  }

  /** The normal already has length 1, so the `nor()` the source applies
      leaves it as it is. */
  lemma NormalIsUnit(d: Direction)
    ensures var n := Normal(d); n.x * n.x + n.y * n.y + n.z * n.z == 1
  {
    var n := Normal(d);
    assert n.x * n.x == (if d == West || d == East then 1 else 0);
    assert n.y * n.y == (if d == Down || d == Up then 1 else 0);
  }

  /** `getFaceVertices`: the four corners of the face of the cube
      [x, x+size] x [y, y+size] x [z, z+size] that looks toward `d`. Each
      corner lies on that face's plane. */
  function FaceVertices(p: Point, d: Direction, size: int): (vs: seq<Point>)
    ensures |vs| == 4
    ensures forall k, i :: 0 <= k < 4 && 0 <= i < 3 ==>
      Coord(vs[k], i) == Coord(p, i) || Coord(vs[k], i) == Coord(p, i) + size
    ensures forall k :: 0 <= k < 4 ==>
      Coord(vs[k], Axis(d)) == Coord(p, Axis(d)) + (if Negative(d) then 0 else size)
  {
    var x, y, z := p.x, p.y, p.z;
    match d
    case Up =>
      [Point(x, y + size, z), Point(x, y + size, z + size), Point(x + size, y + size, z + size), Point(x + size, y + size, z)]
    case Down =>
      [Point(x, y, z), Point(x + size, y, z), Point(x + size, y, z + size), Point(x, y, z + size)]
    case North =>
      [Point(x, y, z), Point(x, y + size, z), Point(x + size, y + size, z), Point(x + size, y, z)]
    case South =>
      [Point(x, y, z + size), Point(x + size, y, z + size), Point(x + size, y + size, z + size), Point(x, y + size, z + size)]
    case East =>
      [Point(x + size, y, z), Point(x + size, y + size, z), Point(x + size, y + size, z + size), Point(x + size, y, z + size)]
    case West =>
      [Point(x, y, z), Point(x, y, z + size), Point(x, y + size, z + size), Point(x, y + size, z)]
  }

  /** For a nonzero size the four corners trace the perimeter of a square:
      consecutive corners differ in one coordinate, opposite corners in two,
      and no two corners coincide. */
  lemma FaceIsSquare(p: Point, d: Direction, size: int)
    requires size != 0
    ensures var vs := FaceVertices(p, d, size);
      && Differences(vs[0], vs[1]) == 1 && Differences(vs[1], vs[2]) == 1
      && Differences(vs[2], vs[3]) == 1 && Differences(vs[3], vs[0]) == 1
      && Differences(vs[0], vs[2]) == 2 && Differences(vs[1], vs[3]) == 2
      && (forall k, l :: 0 <= k < l < 4 ==> vs[k] != vs[l])
  {
    var vs := FaceVertices(p, d, size);
    assert vs[0] != vs[1] && vs[1] != vs[2] && vs[2] != vs[3] && vs[3] != vs[0];
    assert vs[0] != vs[2] && vs[1] != vs[3];
  }

  /** The corners wind counter-clockwise seen from outside:
      (v1 - v0) x (v2 - v0) points along the outward normal, with length size^2. */
  lemma WindingMatchesNormal(p: Point, d: Direction, size: int)
    ensures var vs := FaceVertices(p, d, size);
      Cross(Minus(vs[1], vs[0]), Minus(vs[2], vs[0])) == Scale(size * size, Normal(d))
  {
    FaceEdges(p, d, size);
    EdgeCrossProducts(size);
  }

  /** The first two edges of each face in `getFaceVertices`, from corner 0. */
  lemma FaceEdges(p: Point, d: Direction, s: int)
    ensures var vs := FaceVertices(p, d, s);
      var a, b := Minus(vs[1], vs[0]), Minus(vs[2], vs[0]);
      && (d == Up ==> a == Point(0, 0, s) && b == Point(s, 0, s))
      && (d == Down ==> a == Point(s, 0, 0) && b == Point(s, 0, s))
      && (d == North ==> a == Point(0, s, 0) && b == Point(s, s, 0))
      && (d == South ==> a == Point(s, 0, 0) && b == Point(s, s, 0))
      && (d == East ==> a == Point(0, s, 0) && b == Point(0, s, s))
      && (d == West ==> a == Point(0, 0, s) && b == Point(0, s, s))
  {
  }

  /** The cross products of the first two edges of each face in
      `getFaceVertices`, for an edge length `s`. */
  lemma EdgeCrossProducts(s: int)
    ensures Cross(Point(0, 0, s), Point(s, 0, s)) == Scale(s * s, Normal(Up))
    ensures Cross(Point(s, 0, 0), Point(s, 0, s)) == Scale(s * s, Normal(Down))
    ensures Cross(Point(0, s, 0), Point(s, s, 0)) == Scale(s * s, Normal(North))
    ensures Cross(Point(s, 0, 0), Point(s, s, 0)) == Scale(s * s, Normal(South))
    ensures Cross(Point(0, s, 0), Point(0, s, s)) == Scale(s * s, Normal(East))
    ensures Cross(Point(0, 0, s), Point(0, s, s)) == Scale(s * s, Normal(West))
  {
    var sq := s * s;
    assert s * 0 == 0 && 0 * s == 0;
    assert sq * 0 == 0 && sq * 1 == sq && sq * -1 == -sq;
  }

  /** The quad `addFace` passes to the builder for a face: the unit-size
      corners of that face and the direction's normal. Every corner lies on
      the face's plane, and the normal points outward along the face's axis. */
  function FaceQuad(f: Face): (q: Quad)
    ensures Coord(q.normal, Axis(f.dir)) == (if Negative(f.dir) then -1 else 1)
    ensures var plane := Coord(f.pos, Axis(f.dir)) + (if Negative(f.dir) then 0 else 1);
      && Coord(q.v0, Axis(f.dir)) == plane && Coord(q.v1, Axis(f.dir)) == plane
      && Coord(q.v2, Axis(f.dir)) == plane && Coord(q.v3, Axis(f.dir)) == plane
  {
    var vs := FaceVertices(f.pos, f.dir, 1);
    assert Coord(vs[0], Axis(f.dir)) == Coord(f.pos, Axis(f.dir)) + (if Negative(f.dir) then 0 else 1);
    Quad(vs[0], vs[1], vs[2], vs[3], Normal(f.dir))
  }

  /** Every emitted quad winds around its own normal: (v1 - v0) x (v2 - v0)
      is the normal itself. */
  lemma FaceQuadFacesNormal(f: Face)
    ensures var q := FaceQuad(f); Cross(Minus(q.v1, q.v0), Minus(q.v2, q.v0)) == q.normal
  {
    WindingMatchesNormal(f.pos, f.dir, 1);
    assert Scale(1, Normal(f.dir)) == Normal(f.dir);
  }

  /** The quads the builder receives for a list of faces: one per face. */
  function QuadsOf(faces: seq<Face>): (qs: seq<Quad>)
    ensures |qs| == |faces|
  {
    seq(|faces|, i requires 0 <= i < |faces| => FaceQuad(faces[i]))
  }

  /** The i-th quad the builder receives is the quad of the i-th face. */
  lemma QuadsOfAt(faces: seq<Face>, i: int)
    requires 0 <= i < |faces|
    ensures QuadsOf(faces)[i] == FaceQuad(faces[i])
  {
  }

  /** Appending one face appends its quad. */
  lemma QuadsOfPush(a: seq<Face>, f: Face)
    ensures QuadsOf(a + [f]) == QuadsOf(a) + [FaceQuad(f)]
  {
    assert forall i :: 0 <= i < |a| + 1 ==> QuadsOf(a + [f])[i] == (QuadsOf(a) + [FaceQuad(f)])[i];
  }

  /** Appending the faces of a cell appends their quads. */
  lemma QuadsOfConcat(a: seq<Face>, b: seq<Face>)
    ensures QuadsOf(a + b) == QuadsOf(a) + QuadsOf(b)
  {
    assert forall i :: 0 <= i < |a| + |b| ==> QuadsOf(a + b)[i] == (QuadsOf(a) + QuadsOf(b))[i];
  }

  // ---------------------------------------------------------------------
  // The faces buildMesh emits, in the order it emits them

  /** The faces of block `p` toward the first `k` directions of `values()`. */
  function CellFacesUpTo(m: map<Point, Block>, p: Point, k: int): seq<Face>
    requires 0 <= k <= 6
    decreases k
  {
    if k == 0 then []
    else
      var d := Values()[k - 1];
      CellFacesUpTo(m, p, k - 1) + (if Exposed(m, p, d) then [Face(p, d)] else [])
  }

  /** The faces cell `p` contributes: none when it is empty. */
  function CellFaces(m: map<Point, Block>, p: Point): seq<Face> {
    if p in m then CellFacesUpTo(m, p, 6) else []
  }

  /** The edge `buildMesh`'s loops actually cover: none of them runs when
      the chunk size is not positive. */
  function Extent(n: int): nat {
    if n < 0 then 0 else n
  }

  /** Cell `p` comes before cursor (x, y, z) in the loops' x-major, then y,
      then z visiting order. */
  predicate ScannedBefore(p: Point, x: int, y: int, z: int) {
    p.x < x || (p.x == x && (p.y < y || (p.y == y && p.z < z)))
  }

  /** A position the loops' counters (x, y, z) can take for a chunk of edge
      `n`: an inner counter reaches `n` only before the outer one advances. */
  predicate Cursor(n: nat, x: nat, y: nat, z: nat) {
    && x <= n && y <= n && z <= n
    && (x == n ==> y == 0 && z == 0)
    && (y == n ==> z == 0)
  }

  /** The faces `buildMesh` has emitted when its loops reach cell (x, y, z)
      of a chunk of edge `n`: those of every earlier cell, in visiting order.
      The cursors (x, y, n) and (x, y + 1, 0) name the same moment, as do
      (x, n, 0) and (x + 1, 0, 0). */
  function ScanFaces(m: map<Point, Block>, n: nat, x: nat, y: nat, z: nat): seq<Face>
    requires Cursor(n, x, y, z)
    decreases x, y, z
  {
    if z > 0 then ScanFaces(m, n, x, y, z - 1) + CellFaces(m, Point(x, y, z - 1))
    else if y > 0 then ScanFaces(m, n, x, y - 1, n)
    else if x > 0 then ScanFaces(m, n, x - 1, n, 0)
    else []
  }

  /** One step of the z loop appends the faces of the cell it visits. */
  lemma ScanStep(m: map<Point, Block>, n: nat, x: nat, y: nat, z: nat)
    requires Cursor(n, x, y, z + 1)
    ensures ScanFaces(m, n, x, y, z + 1) == ScanFaces(m, n, x, y, z) + CellFaces(m, Point(x, y, z))
  {
  }

  /** The end of one row of the z loop is the start of the next. */
  lemma RowStep(m: map<Point, Block>, n: nat, x: nat, y: nat)
    requires Cursor(n, x, y + 1, 0)
    ensures ScanFaces(m, n, x, y + 1, 0) == ScanFaces(m, n, x, y, n)
  {
  }

  /** The end of one layer of the y loop is the start of the next. */
  lemma LayerStep(m: map<Point, Block>, n: nat, x: nat)
    requires Cursor(n, x + 1, 0, 0)
    ensures ScanFaces(m, n, x + 1, 0, 0) == ScanFaces(m, n, x, n, 0)
  {
  }

  /** Every face `buildMesh` emits for a chunk of edge `n`, in emission order. */
  function MeshFaces(m: map<Point, Block>, n: int): seq<Face> {
    ScanFaces(m, Extent(n), Extent(n), 0, 0)
  }

  /** Emission order: by x, then y, then z, then the direction's ordinal. */
  predicate Before(f: Face, g: Face) {
    || f.pos.x < g.pos.x
    || (f.pos.x == g.pos.x && f.pos.y < g.pos.y)
    || (f.pos.x == g.pos.x && f.pos.y == g.pos.y && f.pos.z < g.pos.z)
    || (f.pos == g.pos && Ordinal(f.dir) < Ordinal(g.dir))
  }

  /** Every face of the list comes before every later one. */
  predicate InEmissionOrder(s: seq<Face>) {
    forall i, j :: 0 <= i < j < |s| ==> Before(s[i], s[j])
  }

  // ---------------------------------------------------------------------
  // Properties of the emitted faces

  /** Two lists in emission order, every face of the first before every face
      of the second, concatenate to a list in emission order. */
  lemma ConcatInOrder(a: seq<Face>, b: seq<Face>)
    requires InEmissionOrder(a) && InEmissionOrder(b)
    requires forall f, g :: f in a && g in b ==> Before(f, g)
    ensures InEmissionOrder(a + b)
  {
    forall i, j | 0 <= i < j < |a + b| ensures Before((a + b)[i], (a + b)[j]) {
      if j >= |a| && i < |a| {
        assert (a + b)[i] == a[i] && (a + b)[j] == b[j - |a|];
      }
    }
  }

  /** The faces of a block toward the first k directions: one per exposed
      direction among them, in direction order. */
  lemma {:induction false} CellFacesUpToSpec(m: map<Point, Block>, p: Point, k: int)
    requires 0 <= k <= 6
    ensures |CellFacesUpTo(m, p, k)| <= k
    ensures forall f :: f in CellFacesUpTo(m, p, k) <==> f.pos == p && Ordinal(f.dir) < k && Exposed(m, p, f.dir)
    ensures InEmissionOrder(CellFacesUpTo(m, p, k))
    ensures (forall i :: 0 <= i < k ==> Exposed(m, p, Values()[i])) ==> |CellFacesUpTo(m, p, k)| == k
  {
    if k > 0 {
      CellFacesUpToSpec(m, p, k - 1);
      var d := Values()[k - 1];
      OrdinalIsPosition(d, k - 1);
      forall f ensures f in CellFacesUpTo(m, p, k) <==> f.pos == p && Ordinal(f.dir) < k && Exposed(m, p, f.dir) {
        OrdinalIsPosition(f.dir, k - 1);
      }
      ConcatInOrder(CellFacesUpTo(m, p, k - 1), if Exposed(m, p, d) then [Face(p, d)] else []);
    }
  }

  /** The faces a cell contributes: none when the cell is empty, otherwise
      exactly its exposed faces, at most one per direction and at most six
      in all, in direction order. */
  lemma CellFacesSpec(m: map<Point, Block>, p: Point)
    ensures p !in m ==> CellFaces(m, p) == []
    ensures |CellFaces(m, p)| <= 6
    ensures forall f :: f in CellFaces(m, p) <==> f.pos == p && p in m && Exposed(m, p, f.dir)
    ensures InEmissionOrder(CellFaces(m, p))
  {
    CellFacesUpToSpec(m, p, 6);
  }

  /** A face belongs to a cell's contribution exactly when it is a face of
      that cell, the cell holds a block, and the face is exposed. */
  lemma CellFacesMember(m: map<Point, Block>, p: Point, f: Face)
    ensures f in CellFaces(m, p) <==> f.pos == p && p in m && Exposed(m, p, f.dir)
  {
    CellFacesSpec(m, p);
  }

  /** A face has been emitted by the time the loops reach (x, y, z) exactly
      when its cell lies in the chunk before that cursor, holds a block, and
      the face is exposed. */
  lemma {:induction false} ScanFacesMember(m: map<Point, Block>, n: nat, x: nat, y: nat, z: nat, f: Face)
    requires Cursor(n, x, y, z)
    ensures f in ScanFaces(m, n, x, y, z) <==>
      InChunk(f.pos, n) && ScannedBefore(f.pos, x, y, z) && f.pos in m && Exposed(m, f.pos, f.dir)
    decreases x, y, z
  {
    if z > 0 {
      var p := Point(x, y, z - 1);
      assert ScanFaces(m, n, x, y, z) == ScanFaces(m, n, x, y, z - 1) + CellFaces(m, p);
      ScanFacesMember(m, n, x, y, z - 1, f);
      CellFacesMember(m, p, f);
      assert InChunk(f.pos, n) && ScannedBefore(f.pos, x, y, z) <==>
        (InChunk(f.pos, n) && ScannedBefore(f.pos, x, y, z - 1)) || f.pos == p;
    } else if y > 0 {
      ScanFacesMember(m, n, x, y - 1, n, f);
    } else if x > 0 {
      ScanFacesMember(m, n, x - 1, n, 0, f);
    }
  }

  /** The faces emitted so far are in emission order. */
  lemma {:induction false} ScanFacesOrder(m: map<Point, Block>, n: nat, x: nat, y: nat, z: nat)
    requires Cursor(n, x, y, z)
    ensures InEmissionOrder(ScanFaces(m, n, x, y, z))
    decreases x, y, z
  {
    if z > 0 {
      ScanFacesOrder(m, n, x, y, z - 1);
      CellAfterScan(m, n, x, y, z - 1);
    } else if y > 0 {
      ScanFacesOrder(m, n, x, y - 1, n);
      RowStep(m, n, x, y - 1);
    } else if x > 0 {
      ScanFacesOrder(m, n, x - 1, n, 0);
      LayerStep(m, n, x - 1);
    } else {
      assert ScanFaces(m, n, x, y, z) == [];
    }
  }

  /** Appending the faces of cell (x, y, z) to those emitted before it keeps
      the list in emission order. */
  lemma CellAfterScan(m: map<Point, Block>, n: nat, x: nat, y: nat, z: nat)
    requires Cursor(n, x, y, z + 1)
    requires InEmissionOrder(ScanFaces(m, n, x, y, z))
    ensures InEmissionOrder(ScanFaces(m, n, x, y, z + 1))
  {
    var p := Point(x, y, z);
    var a, b := ScanFaces(m, n, x, y, z), CellFaces(m, p);
    ScanStep(m, n, x, y, z);
    forall f, g | f in a && g in b ensures Before(f, g) {
      ScanFacesMember(m, n, x, y, z, f);
      CellFacesMember(m, p, g);
      FaceBeforeCell(f, g, x, y, z);
    }
    CellFacesSpec(m, p);
    ConcatInOrder(a, b);
  }

  /** A face of a cell the loops visited before (x, y, z) comes before every
      face of cell (x, y, z). */
  lemma FaceBeforeCell(f: Face, g: Face, x: int, y: int, z: int)
    requires ScannedBefore(f.pos, x, y, z) && g.pos == Point(x, y, z)
    ensures Before(f, g)
  {
  }

  /** `buildMesh` emits face (p, d) exactly when p is a cell of the chunk that
      holds a block and the cell beyond it toward d holds none. */
  lemma MeshFacesExactly(m: map<Point, Block>, n: int, f: Face)
    ensures f in MeshFaces(m, n) <==> InChunk(f.pos, n) && f.pos in m && Neighbor(f.pos, f.dir) !in m
  {
    ScanFacesMember(m, Extent(n), Extent(n), 0, 0, f);
  }

  /** The faces come out x-major, then by y, then by z, and per block in
      direction declaration order; in particular no face is emitted twice. */
  lemma MeshFacesInOrder(m: map<Point, Block>, n: int)
    ensures InEmissionOrder(MeshFaces(m, n))
    ensures forall i, j :: 0 <= i < j < |MeshFaces(m, n)| ==> MeshFaces(m, n)[i] != MeshFaces(m, n)[j]
  {
    ScanFacesOrder(m, Extent(n), Extent(n), 0, 0);
  }

  /** The face two adjacent blocks share is emitted by neither of them. */
  lemma SharedFaceHidden(m: map<Point, Block>, n: int, p: Point, d: Direction)
    requires p in m && Neighbor(p, d) in m
    ensures Face(p, d) !in MeshFaces(m, n)
    ensures Face(Neighbor(p, d), Opposite(d)) !in MeshFaces(m, n)
  {
    MeshFacesExactly(m, n, Face(p, d));
    assert Neighbor(Neighbor(p, d), Opposite(d)) == p;
    MeshFacesExactly(m, n, Face(Neighbor(p, d), Opposite(d)));
  }

  /** When every block lies inside the chunk, a block on the chunk's boundary
      always emits its outward face: the lookup beyond the boundary finds no block. */
  lemma BoundaryFaceEmitted(m: map<Point, Block>, n: int, p: Point, d: Direction)
    requires forall q :: q in m ==> InChunk(q, n)
    requires p in m && InChunk(p, n) && !InChunk(Neighbor(p, d), n)
    ensures Face(p, d) in MeshFaces(m, n)
  {
    MeshFacesExactly(m, n, Face(p, d));
  }

  /** A block with no face-adjacent neighbour emits all six faces. */
  lemma IsolatedBlockEmitsSix(m: map<Point, Block>, n: int, p: Point)
    requires p in m && InChunk(p, n)
    requires forall d :: Neighbor(p, d) !in m
    ensures |CellFaces(m, p)| == 6
    ensures forall d :: Face(p, d) in MeshFaces(m, n)
  {
    CellFacesUpToSpec(m, p, 6);
    forall d ensures Face(p, d) in MeshFaces(m, n) {
      MeshFacesExactly(m, n, Face(p, d));
    }
  }

  /** For the box the constructor fills, the mesh is exactly the box's outer
      surface: a face is emitted iff its block is in the box and the cell
      beyond it is not. */
  lemma FilledBoxMeshIsSurface(m: map<Point, Block>, n: int, f: Face)
    requires forall p :: p in m <==> InFilledBox(p, n)
    ensures f in MeshFaces(m, n) <==> InFilledBox(f.pos, n) && !InFilledBox(Neighbor(f.pos, f.dir), n)
  {
    MeshFacesExactly(m, n, f);
  }

  // ---------------------------------------------------------------------
  // The chunk object

  class Chunk {
    const chunkPos: Point
    /** `Constants.CHUNK_SIZE`, the edge length of the chunk. */
    const chunkSize: int
    var blockMap: map<Point, Block>
    var mesh: seq<Quad>

    /** After construction the map holds exactly the box [15, CHUNK_SIZE)^3
        and the mesh is the one `buildMesh` makes of it. */
    ghost predicate Valid()
      reads this
    {
      && (forall p :: p in blockMap <==> InFilledBox(p, chunkSize))
      && mesh == QuadsOf(MeshFaces(blockMap, chunkSize))
    }

    /** `Chunk(Vector3 chunkPos)`: fill the box [15, CHUNK_SIZE)^3 with
        blocks, then build the mesh. */
    constructor (pos: Point, size: int)
      ensures chunkPos == pos && chunkSize == size
      ensures Valid()
    {
      chunkPos := pos;
      chunkSize := size;
      blockMap := map[];
      mesh := [];
      new;
      var i := FILL_START;
      while i < size
        invariant FILL_START <= i && (i <= size || i == FILL_START)
        invariant forall p :: p in blockMap <==>
          FILL_START <= p.x < i && FILL_START <= p.y < size && FILL_START <= p.z < size
      {
        var j := FILL_START;
        while j < size
          invariant FILL_START <= j <= size
          invariant forall p :: p in blockMap <==>
            || (FILL_START <= p.x < i && FILL_START <= p.y < size && FILL_START <= p.z < size)
            || (p.x == i && FILL_START <= p.y < j && FILL_START <= p.z < size)
        {
          var k := FILL_START;
          while k < size
            invariant FILL_START <= k <= size
            invariant forall p :: p in blockMap <==>
              || (FILL_START <= p.x < i && FILL_START <= p.y < size && FILL_START <= p.z < size)
              || (p.x == i && FILL_START <= p.y < j && FILL_START <= p.z < size)
              || (p.x == i && p.y == j && FILL_START <= p.z < k)
          {
            blockMap := blockMap[Point(i, j, k) := Block];
            k := k + 1;
          }
          j := j + 1;
        }
        i := i + 1;
      }
      mesh := BuildMesh();
    }

    /** `getBlockMap()`: exactly the cells of the filled box hold a block. */
    function GetBlockMap(): (m: map<Point, Block>)
      reads this
      requires Valid()
      ensures forall p :: p in m <==> InFilledBox(p, chunkSize)
    {
      blockMap
    }

    /** `getMesh()`: the quads of the box's outer surface, one per exposed face. */
    function GetMesh(): (qs: seq<Quad>)
      reads this
      requires Valid()
      ensures qs == QuadsOf(MeshFaces(blockMap, chunkSize))
      ensures |qs| == |MeshFaces(blockMap, chunkSize)|
    {
      mesh
    }

    /** The body of `buildMesh` for one cell holding a block: walk the
        directions in declaration order and emit the quad of each face whose
        neighbouring cell holds no opaque block. */
    method CellQuads(pos: Point) returns (cellQuads: seq<Quad>)
      requires pos in blockMap
      ensures cellQuads == QuadsOf(CellFaces(blockMap, pos))
    {
      cellQuads := [];
      ghost var faces: seq<Face> := [];
      var values := Values();
      for i := 0 to 6
        invariant faces == CellFacesUpTo(blockMap, pos, i)
        invariant cellQuads == QuadsOf(faces)
      {
        var dir := values[i];
        var neighborPos := Point(pos.x + Dx(dir), pos.y + Dy(dir), pos.z + Dz(dir));
        assert neighborPos == Neighbor(pos, Values()[i]);
        if neighborPos !in blockMap || IsTransparent(blockMap[neighborPos]) {
          QuadsOfPush(faces, Face(pos, dir));
          faces := faces + [Face(pos, dir)];
          cellQuads := cellQuads + [FaceQuad(Face(pos, dir))];
        }
      }
    }

    /** `buildMesh()`: visit every cell of [0, CHUNK_SIZE)^3 in x, y, z order;
        for a cell holding a block, emit the quad of each face, in
        direction order, whose neighbouring cell holds no opaque block. */
    method BuildMesh() returns (quads: seq<Quad>)
      ensures quads == QuadsOf(MeshFaces(blockMap, chunkSize))
    {
      var n := chunkSize;
      quads := [];
      ghost var size := Extent(n);
      ghost var faces: seq<Face> := [];
      var x := 0;
      while x < n
        invariant 0 <= x <= size
        invariant faces == ScanFaces(blockMap, size, x, 0, 0)
        invariant quads == QuadsOf(faces)
      {
        var y := 0;
        while y < n
          invariant 0 <= y <= size
          invariant faces == ScanFaces(blockMap, size, x, y, 0)
          invariant quads == QuadsOf(faces)
        {
          var z := 0;
          while z < n
            invariant 0 <= z <= size
            invariant faces == ScanFaces(blockMap, size, x, y, z)
            invariant quads == QuadsOf(faces)
          {
            var pos := Point(x, y, z);
            if pos in blockMap {
              var cellQuads := CellQuads(pos);
              QuadsOfConcat(faces, CellFaces(blockMap, pos));
              faces := faces + CellFaces(blockMap, pos);
              quads := quads + cellQuads;
            } else {
              assert faces + CellFaces(blockMap, pos) == faces;
            }
            ScanStep(blockMap, size, x, y, z);
            z := z + 1;
          }
          RowStep(blockMap, size, x, y);
          y := y + 1;
        }
        LayerStep(blockMap, size, x);
        x := x + 1;
      }
    }
  }
}
