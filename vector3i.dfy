/** `Vector3i`: an integer 3-vector whose operations all return a new vector.
    Components are Java `int`s, so every `+`, `-` and `*` wraps modulo 2^32,
    and `/` truncates toward zero. */
module Vectors {
  import opened JavaInt

  datatype Vector3i = Vector3i(x: int32, y: int32, z: int32)

  /** The argument of `equals(Object)`: `None` stands for `null` and for any
      object that is not a `Vector3i`. */
  datatype Option<T> = None | Some(value: T)

  /** The outcome of `div`: Java throws `ArithmeticException` on a zero divisor. */
  datatype DivResult = Quotient(v: Vector3i) | ArithmeticException

  function Abs(a: int): nat { if a < 0 then -a else a }

  /** `new Vector3i()`. */
  function Zero(): (r: Vector3i)
    ensures Equals(r, Some(Vector3i(0, 0, 0)))
  {
    Vector3i(0, 0, 0)
  }

  /** The copy constructor `new Vector3i(other)` and `cpy()`. */
  function Copy(v: Vector3i): (r: Vector3i)
    ensures Equals(r, Some(v))
  {
    Vector3i(v.x, v.y, v.z)
  }

  /** `add(Vector3i other)`: componentwise sum, exact unless it overflows. */
  function Add(v: Vector3i, o: Vector3i): (r: Vector3i)
    ensures (r.x - (v.x + o.x)) % MODULUS == 0 && (r.y - (v.y + o.y)) % MODULUS == 0
         && (r.z - (v.z + o.z)) % MODULUS == 0
    ensures MIN_VALUE <= v.x + o.x <= MAX_VALUE ==> r.x == v.x + o.x
    ensures MIN_VALUE <= v.y + o.y <= MAX_VALUE ==> r.y == v.y + o.y
    ensures MIN_VALUE <= v.z + o.z <= MAX_VALUE ==> r.z == v.z + o.z
  {
    Vector3i(Wrap(v.x + o.x), Wrap(v.y + o.y), Wrap(v.z + o.z))
  }

  /** `add(int x, int y, int z)`: the same sum as adding the vector (x, y, z). */
  function AddComponents(v: Vector3i, x: int32, y: int32, z: int32): (r: Vector3i)
    ensures r == Add(v, Vector3i(x, y, z))
  {
    Vector3i(Wrap(v.x + x), Wrap(v.y + y), Wrap(v.z + z))
  }

  /** `sub(Vector3i other)`: componentwise difference, exact unless it overflows. */
  function Sub(v: Vector3i, o: Vector3i): (r: Vector3i)
    ensures (r.x - (v.x - o.x)) % MODULUS == 0 && (r.y - (v.y - o.y)) % MODULUS == 0
         && (r.z - (v.z - o.z)) % MODULUS == 0
    ensures MIN_VALUE <= v.x - o.x <= MAX_VALUE ==> r.x == v.x - o.x
    ensures MIN_VALUE <= v.y - o.y <= MAX_VALUE ==> r.y == v.y - o.y
    ensures MIN_VALUE <= v.z - o.z <= MAX_VALUE ==> r.z == v.z - o.z
  {
    Vector3i(Wrap(v.x - o.x), Wrap(v.y - o.y), Wrap(v.z - o.z))
  }

  /** `mul(int scalar)`: every component times the scalar, exact unless it overflows. */
  function Mul(v: Vector3i, s: int32): (r: Vector3i)
    ensures (r.x - v.x * s) % MODULUS == 0 && (r.y - v.y * s) % MODULUS == 0
         && (r.z - v.z * s) % MODULUS == 0
    ensures MIN_VALUE <= v.x * s <= MAX_VALUE ==> r.x == v.x * s
    ensures MIN_VALUE <= v.y * s <= MAX_VALUE ==> r.y == v.y * s
    ensures MIN_VALUE <= v.z * s <= MAX_VALUE ==> r.z == v.z * s
  {
    Vector3i(Wrap(v.x * s), Wrap(v.y * s), Wrap(v.z * s))
  }

  /** `scl(int scale)`: written separately in the source, computes what `mul` does. */
  function Scl(v: Vector3i, s: int32): (r: Vector3i)
    ensures (r.x - v.x * s) % MODULUS == 0 && (r.y - v.y * s) % MODULUS == 0
         && (r.z - v.z * s) % MODULUS == 0
  {
    Vector3i(Wrap(v.x * s), Wrap(v.y * s), Wrap(v.z * s))
  }

  /** Java's `int` division: the quotient's magnitude is the floor of the
      magnitudes' quotient and its sign is the product of the signs, so it
      rounds toward zero and the remainder takes the sign of the dividend. */
  function TruncDiv(a: int, b: int): (q: int)
    requires b != 0
    ensures Abs(a - q * b) < Abs(b)
    ensures a - q * b == 0 || ((a - q * b < 0) <==> (a < 0))
  {
    var q := if (a < 0) == (b < 0) then Abs(a) / Abs(b) else -(Abs(a) / Abs(b));
    TruncDivSign(a, b, q);
    TruncDivRemainder(a, b, q);
    q
  }

  lemma TruncDivSign(a: int, b: int, q: int)
    requires b != 0
    requires q == if (a < 0) == (b < 0) then Abs(a) / Abs(b) else -(Abs(a) / Abs(b))
    ensures Abs(q) == Abs(a) / Abs(b)
    ensures q != 0 ==> ((q < 0) <==> ((a < 0) != (b < 0)))
  {
    var A: int, B: int := Abs(a), Abs(b);
    var q0: int := A / B;
    assert 0 <= q0 by { DivNonNegative(A, B); }
    if (a < 0) == (b < 0) {
      assert q == q0;
    } else {
      assert q == -q0;
    }
  }

  lemma DivNonNegative(A: int, B: int)
    requires 0 <= A && 0 < B
    ensures 0 <= A / B
  {
  }

  /** Moving a minus sign out of a product. */
  lemma ProductSigns(u: int, v: int)
    ensures (-u) * v == -(u * v) && u * (-v) == -(u * v)
  {
  }

  lemma TruncDivRemainder(a: int, b: int, q: int)
    requires b != 0
    requires q == if (a < 0) == (b < 0) then Abs(a) / Abs(b) else -(Abs(a) / Abs(b))
    ensures Abs(a - q * b) < Abs(b)
    ensures a - q * b == 0 || ((a - q * b < 0) <==> (a < 0))
  {
    var A: int, B: int := Abs(a), Abs(b);
    var p: int := (A / B) * B;
    EuclideanParts(A, B);
    QuotientTimesDivisor(a, b, q);
    assert a - q * b == if a < 0 then -(A - p) else A - p;
  }

  /** For a nonnegative dividend, Dafny's division is the floor. */
  lemma EuclideanParts(A: int, B: int)
    requires 0 <= A && 0 < B
    ensures 0 <= A - (A / B) * B < B
  {
  }

  /** The truncated quotient times the divisor: the floor multiple of the
      magnitudes, carrying the dividend's sign. */
  lemma QuotientTimesDivisor(a: int, b: int, q: int)
    requires b != 0
    requires q == if (a < 0) == (b < 0) then Abs(a) / Abs(b) else -(Abs(a) / Abs(b))
    ensures q * b == if a < 0 then -((Abs(a) / Abs(b)) * Abs(b)) else (Abs(a) / Abs(b)) * Abs(b)
  {
    var q0: int, B: int := Abs(a) / Abs(b), Abs(b);
    ProductSigns(q0, B);
    if b < 0 {
      ProductSigns(-q0, B);
      assert b == -B;
    } else {
      assert b == B;
    }
  }

  /** `div(int scalar)`: truncating division of each component; a zero divisor
      throws, and `MIN_VALUE / -1` overflows back to `MIN_VALUE`. */
  function Div(v: Vector3i, s: int32): (r: DivResult)
    ensures r.ArithmeticException? <==> s == 0
    ensures r.Quotient? ==>
      r.v.x == Wrap(TruncDiv(v.x, s)) && r.v.y == Wrap(TruncDiv(v.y, s)) && r.v.z == Wrap(TruncDiv(v.z, s))
  {
    if s == 0 then ArithmeticException
    else Quotient(Vector3i(Wrap(TruncDiv(v.x, s)), Wrap(TruncDiv(v.y, s)), Wrap(TruncDiv(v.z, s))))
  }

  /** `equals(Object o)`: true exactly for a `Vector3i` with the same three components. */
  function Equals(v: Vector3i, o: Option<Vector3i>): (r: bool)
    ensures r <==> o == Some(v)
  {
    match o
    case None => false
    case Some(w) => v.x == w.x && v.y == w.y && v.z == w.z
  }

  /** One step of `Objects.hash`: `31 * result + element`, in `int` arithmetic. */
  function HashStep(acc: int32, e: int32): int32 {
    Wrap(31 * acc + e)
  }

  /** `hashCode()`, i.e. `Objects.hash(x, y, z)`: start at 1 and fold in each
      component with `HashStep`. Folding step by step in wrapping arithmetic
      gives the closed form ((31 + x) * 31 + y) * 31 + z, wrapped once. */
  function HashCode(v: Vector3i): (h: int32)
    ensures h == Wrap(((31 + v.x) * 31 + v.y) * 31 + v.z)
  {
    var h1 := 31 + v.x;
    var h2 := 31 * h1 + v.y;
    assert HashStep(1, v.x) == Wrap(h1);
    HashStepCongruent(h1, v.y);
    HashStepCongruent(h2, v.z);
    assert 31 * h2 + v.z == ((31 + v.x) * 31 + v.y) * 31 + v.z;
    HashStep(HashStep(HashStep(1, v.x), v.y), v.z)
  }

  // ---------------------------------------------------------------------
  // Properties

  /** Adding and then subtracting the same vector gives back the original,
      also when the addition overflowed. */
  lemma AddSubRoundTrip(a: Vector3i, b: Vector3i)
    ensures Sub(Add(a, b), b) == a
  {
    RoundTripX(a, b);
    RoundTripY(a, b);
    RoundTripZ(a, b);
  }

  lemma RoundTripX(a: Vector3i, b: Vector3i)
    ensures Sub(Add(a, b), b).x == a.x
  {
    WrapAddSub(a.x, b.x);
  }

  lemma RoundTripY(a: Vector3i, b: Vector3i)
    ensures Sub(Add(a, b), b).y == a.y
  {
    WrapAddSub(a.y, b.y);
  }

  lemma RoundTripZ(a: Vector3i, b: Vector3i)
    ensures Sub(Add(a, b), b).z == a.z
  {
    WrapAddSub(a.z, b.z);
  }

  lemma WrapAddSub(a: int32, b: int32)
    ensures Wrap(Wrap(a + b) - b) == a
  {
    WrapCongruent(Wrap(a + b) - b, a);
  }

  /** `mul` and `scl` agree on every vector and scalar. */
  lemma MulIsScl(v: Vector3i, s: int32)
    ensures Mul(v, s) == Scl(v, s)
  {
  }

  lemma WrapScaleSum(a: int32, b: int32, s: int32)
    ensures Wrap(Wrap(a + b) * s) == Wrap(Wrap(a * s) + Wrap(b * s))
  {
    var sum, sa, sb := a + b, a * s, b * s;
    ProductOfSum(a, b, s);
    calc {
      Wrap(Wrap(sum) * s);
      { ScaleCongruent(Wrap(sum), sum, s); }
      Wrap(sum * s);
      Wrap(sa + sb);
      { SumCongruent(Wrap(sa), sa, Wrap(sb), sb); }
      Wrap(Wrap(sa) + Wrap(sb));
    }
  }

  lemma ProductOfSum(a: int, b: int, s: int)
    ensures (a + b) * s == a * s + b * s
  {
  }

  lemma ScaleCongruent(u: int, v: int, s: int)
    requires (u - v) % MODULUS == 0
    ensures Wrap(u * s) == Wrap(v * s)
  {
    ScaleMultiple(u - v, s);
    assert s * (u - v) == u * s - v * s;
    WrapCongruent(u * s, v * s);
  }

  lemma SumCongruent(u1: int, v1: int, u2: int, v2: int)
    requires (u1 - v1) % MODULUS == 0 && (u2 - v2) % MODULUS == 0
    ensures Wrap(u1 + u2) == Wrap(v1 + v2)
  {
    var k := (u2 - v2) / MODULUS;
    assert (u1 + u2) - (v1 + v2) == (u1 - v1) + MODULUS * k;
    ModShift(u1 - v1, k);
    WrapCongruent(u1 + u2, v1 + v2);
  }

  /** Scaling distributes over addition, in wrapping arithmetic. */
  lemma MulDistributesOverAdd(a: Vector3i, b: Vector3i, s: int32)
    ensures Mul(Add(a, b), s) == Add(Mul(a, s), Mul(b, s))
  {
    DistributesX(a, b, s);
    DistributesY(a, b, s);
    DistributesZ(a, b, s);
  }

  lemma DistributesX(a: Vector3i, b: Vector3i, s: int32)
    ensures Mul(Add(a, b), s).x == Add(Mul(a, s), Mul(b, s)).x
  {
    assert Mul(Add(a, b), s).x == Wrap(Wrap(a.x + b.x) * s);
    assert Add(Mul(a, s), Mul(b, s)).x == Wrap(Wrap(a.x * s) + Wrap(b.x * s));
    WrapScaleSum(a.x, b.x, s);
  }

  lemma DistributesY(a: Vector3i, b: Vector3i, s: int32)
    ensures Mul(Add(a, b), s).y == Add(Mul(a, s), Mul(b, s)).y
  {
    assert Mul(Add(a, b), s).y == Wrap(Wrap(a.y + b.y) * s);
    assert Add(Mul(a, s), Mul(b, s)).y == Wrap(Wrap(a.y * s) + Wrap(b.y * s));
    WrapScaleSum(a.y, b.y, s);
  }

  lemma DistributesZ(a: Vector3i, b: Vector3i, s: int32)
    ensures Mul(Add(a, b), s).z == Add(Mul(a, s), Mul(b, s)).z
  {
    assert Mul(Add(a, b), s).z == Wrap(Wrap(a.z + b.z) * s);
    assert Add(Mul(a, s), Mul(b, s)).z == Wrap(Wrap(a.z * s) + Wrap(b.z * s));
    WrapScaleSum(a.z, b.z, s);
  }

  lemma TruncDivExact(a: int, s: int)
    requires s != 0
    ensures TruncDiv(a * s, s) == a
  {
    var n := a * s;
    var q := TruncDiv(n, s);
    assert Abs(n - q * s) < Abs(s);
    assert n - q * s == (a - q) * s;
    SmallMultipleIsZero(a - q, s);
  }

  lemma SmallMultipleIsZero(d: int, s: int)
    requires s != 0 && Abs(d * s) < Abs(s)
    ensures d == 0
  {
    if d != 0 {
      MulMonotone(Abs(d), Abs(s));
      AbsProduct(d, s);
    }
  }

  lemma MulMonotone(m: int, n: int)
    requires m >= 1 && n >= 0
    ensures m * n >= n
  {
    assert m * n == n + (m - 1) * n;
  }

  lemma AbsProduct(d: int, s: int)
    ensures Abs(d * s) == Abs(d) * Abs(s)
  {
    if d < 0 && s < 0 {
      assert d * s == (-d) * (-s);
    } else if d < 0 {
      assert d * s == -((-d) * s);
    } else if s < 0 {
      assert d * s == -(d * (-s));
    }
  }

  /** Dividing by the scalar undoes multiplying by it, as long as the
      multiplication did not overflow. */
  lemma DivUndoesMul(v: Vector3i, s: int32)
    requires s != 0
    requires MIN_VALUE <= v.x * s <= MAX_VALUE && MIN_VALUE <= v.y * s <= MAX_VALUE
          && MIN_VALUE <= v.z * s <= MAX_VALUE
    ensures Div(Mul(v, s), s) == Quotient(v)
  {
    TruncDivExact(v.x, s);
    TruncDivExact(v.y, s);
    TruncDivExact(v.z, s);
  }

  /** `div` rounds toward zero, unlike Euclidean division: -7 / 2 is -3 in Java. */
  lemma DivTruncatesTowardZero()
    ensures Div(Vector3i(-7, 7, -8), 2) == Quotient(Vector3i(-3, 3, -4))
    ensures Div(Vector3i(-7, 7, 0), -2) == Quotient(Vector3i(3, -3, 0))
  {
    assert TruncDiv(-7, 2) == -3;
    assert TruncDiv(7, 2) == 3;
    assert TruncDiv(-8, 2) == -4;
    assert TruncDiv(-7, -2) == 3;
    assert TruncDiv(7, -2) == -3;
  }

  /** The one overflowing division: `MIN_VALUE / -1` wraps back to `MIN_VALUE`. */
  lemma DivOverflow()
    ensures Div(Vector3i(MIN_VALUE as int32, 0, 0), -1) == Quotient(Vector3i(MIN_VALUE as int32, 0, 0))
  {
    assert TruncDiv(MIN_VALUE, -1) == MODULUS / 2;
  }

  /** `equals` is an equivalence relation on vectors. */
  lemma EqualsIsEquivalence(a: Vector3i, b: Vector3i, c: Vector3i)
    ensures Equals(a, Some(a))
    ensures Equals(a, Some(b)) ==> Equals(b, Some(a))
    ensures Equals(a, Some(b)) && Equals(b, Some(c)) ==> Equals(a, Some(c))
    ensures !Equals(a, None)
  {
  }

  /** `hashCode` is consistent with `equals`. */
  lemma HashConsistentWithEquals(a: Vector3i, b: Vector3i)
    requires Equals(a, Some(b))
    ensures HashCode(a) == HashCode(b)
  {
  }

  lemma HashStepCongruent(acc: int, e: int32)
    ensures HashStep(Wrap(acc), e) == Wrap(31 * acc + e)
  {
    ScaleMultiple(Wrap(acc) - acc, 31);
    assert 31 * (Wrap(acc) - acc) == (31 * Wrap(acc) + e) - (31 * acc + e);
    WrapCongruent(31 * Wrap(acc) + e, 31 * acc + e);
  }

  // ---------------------------------------------------------------------
  // The integer part of len() and dst()

  /** What `len()` passes to `Math.sqrt`: `x * x + y * y + z * z` evaluated
      in `int` arithmetic, each product and each sum wrapping. The wraps
      compose: the result is the exact sum of squares wrapped once. */
  function LenSquaredAsWritten(v: Vector3i): (r: int32)
    ensures r == Wrap(LenSquared(v))
  {
    var xx, yy, zz := v.x * v.x, v.y * v.y, v.z * v.z;
    SumCongruent(Wrap(xx), xx, Wrap(yy), yy);
    SumCongruent(Wrap(xx + yy), xx + yy, Wrap(zz), zz);
    Wrap(Wrap(Wrap(xx) + Wrap(yy)) + Wrap(zz))
  }

  /** A component of 46341 already overflows: the squared length comes out
      negative and the square root of it is NaN. */
  lemma LenSquaredOverflows()
    ensures LenSquaredAsWritten(Vector3i(46341, 0, 0)) == -2147479015
  {
  }

  /** The squared length `len()` evidently means to take the root of: the
      exact sum of the squares. */
  function LenSquared(v: Vector3i): nat {
    v.x * v.x + v.y * v.y + v.z * v.z
  }

  /** The squared length is zero only for the zero vector, and the written
      `int` evaluation agrees with it exactly when it fits in an `int`. */
  lemma LenSquaredMeaning(v: Vector3i)
    ensures LenSquared(v) == 0 <==> v == Vector3i(0, 0, 0)
    ensures LenSquared(v) <= MAX_VALUE ==> LenSquaredAsWritten(v) == LenSquared(v)
  {
    SumOfSquares(v.x, v.y, v.z);
  }

  lemma SumOfSquares(a: int, b: int, c: int)
    ensures 0 <= a * a <= a * a + b * b + c * c
    ensures 0 <= b * b <= a * a + b * b + c * c
    ensures 0 <= c * c <= a * a + b * b + c * c
    ensures a * a + b * b + c * c == 0 <==> a == 0 && b == 0 && c == 0
  {
    SquareBelowSum(a, b * b + c * c);
    SquareBelowSum(b, a * a + c * c);
    SquareBelowSum(c, a * a + b * b);
  }

  lemma SquareBelowSum(c: int, rest: int)
    requires 0 <= rest
    ensures 0 <= c * c <= c * c + rest
    ensures c * c == 0 <==> c == 0
  {
  }

  /** What `dst(other)` passes to `Math.sqrt`: the differences `other - this`
      and then the sum of their squares, all in `int` arithmetic. */
  function DstSquaredAsWritten(v: Vector3i, o: Vector3i): (r: int32)
    ensures r == Wrap(DstSquared(v, o))
  {
    var dx, dy, dz := Wrap(o.x - v.x), Wrap(o.y - v.y), Wrap(o.z - v.z);
    WrappedSquares(o.x - v.x, o.y - v.y, o.z - v.z);
    LenSquaredAsWritten(Vector3i(dx, dy, dz))
  }

  /** Squaring wrapped values gives, modulo 2^32, the squares of the
      values themselves. */
  lemma WrappedSquares(ex: int, ey: int, ez: int)
    ensures Wrap(Wrap(ex) * Wrap(ex) + Wrap(ey) * Wrap(ey) + Wrap(ez) * Wrap(ez)) == Wrap(ex * ex + ey * ey + ez * ez)
  {
    SquareCongruent(Wrap(ex), ex);
    SquareCongruent(Wrap(ey), ey);
    SquareCongruent(Wrap(ez), ez);
    SumOfThreeCongruent(Wrap(ex) * Wrap(ex), ex * ex, Wrap(ey) * Wrap(ey), ey * ey, Wrap(ez) * Wrap(ez), ez * ez);
  }

  /** Sums of three pairwise congruent terms wrap to the same `int`. */
  lemma SumOfThreeCongruent(u1: int, w1: int, u2: int, w2: int, u3: int, w3: int)
    requires (u1 - w1) % MODULUS == 0 && (u2 - w2) % MODULUS == 0 && (u3 - w3) % MODULUS == 0
    ensures Wrap(u1 + u2 + u3) == Wrap(w1 + w2 + w3)
  {
    AddMultiples(u1 - w1, u2 - w2);
    AddMultiples((u1 - w1) + (u2 - w2), u3 - w3);
    WrapCongruent(u1 + u2 + u3, w1 + w2 + w3);
  }

  /** Values congruent modulo 2^32 have congruent squares. */
  lemma SquareCongruent(u: int, w: int)
    requires (u - w) % MODULUS == 0
    ensures (u * u - w * w) % MODULUS == 0
  {
    ScaleMultiple(u - w, u + w);
    assert (u + w) * (u - w) == u * u - w * w;
  }

  /** The sum of two multiples of 2^32 is a multiple of 2^32. */
  lemma AddMultiples(d1: int, d2: int)
    requires d1 % MODULUS == 0 && d2 % MODULUS == 0
    ensures (d1 + d2) % MODULUS == 0
  {
    assert d2 == MODULUS * (d2 / MODULUS);
    ModShift(d1, d2 / MODULUS);
  }

  /** Two points 2^32 - 1 apart along x come out at distance 1: the
      difference wraps around to -1. */
  lemma DstSquaredWrapsDifference()
    ensures DstSquaredAsWritten(Vector3i(MIN_VALUE, 0, 0), Vector3i(MAX_VALUE, 0, 0)) == 1
  {
    assert Wrap(MAX_VALUE - MIN_VALUE) == -1;
    assert Wrap(0 - 0) == 0;
    assert LenSquaredAsWritten(Vector3i(-1, 0, 0)) == 1;
  }

  /** The squared distance `dst` evidently means: the exact squared length of
      the exact difference. */
  function DstSquared(v: Vector3i, o: Vector3i): nat {
    (o.x - v.x) * (o.x - v.x) + (o.y - v.y) * (o.y - v.y) + (o.z - v.z) * (o.z - v.z)
  }

  /** The distance from `v` to `o` is the distance from `o` to `v`. */
  lemma DstSquaredSymmetric(v: Vector3i, o: Vector3i)
    ensures DstSquared(v, o) == DstSquared(o, v)
  {
    SquaredDifference(o.x, v.x);
    SquaredDifference(o.y, v.y);
    SquaredDifference(o.z, v.z);
  }

  /** The distance is zero exactly between equal vectors. */
  lemma DstSquaredZero(v: Vector3i, o: Vector3i)
    ensures DstSquared(v, o) == 0 <==> v == o
  {
    SumOfSquares(o.x - v.x, o.y - v.y, o.z - v.z);
  }

  /** The written evaluation agrees with the exact squared distance whenever
      that fits in an `int`, even if a difference on the way wrapped. */
  lemma DstSquaredAgrees(v: Vector3i, o: Vector3i)
    ensures DstSquared(v, o) <= MAX_VALUE ==> DstSquaredAsWritten(v, o) == DstSquared(v, o)
  {
  }

  lemma SquaredDifference(a: int, b: int)
    ensures (a - b) * (a - b) == (b - a) * (b - a)
  {
    ProductSigns(a - b, a - b);
    ProductSigns(-(a - b), a - b);
  }
}
