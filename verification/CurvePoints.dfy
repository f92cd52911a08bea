/** Points of y^2 = x^3 + 7 and their addition: recto/ethereum.py:206-236. Nothing here is assumed of the curve but that
    its field is prime: sums stay on the curve, commute, and follow the chord or the tangent. */
module CurvePoints {
  import opened Wrappers
  import opened Digits
  import opened NumberTheory

  /** The field prime, the group order and the base point. */
  datatype Params = Params(p: nat, n: nat, gx: nat, gy: nat)

  type Curve = c: Params | c.p > 0 && c.n > 0 witness Params(1, 1, 0, 0)

  const SECP256K1: Curve := Params(
                       0xFFFFFFFFFFFFFFFFFFFFFFFFFFFFFFFFFFFFFFFFFFFFFFFFFFFFFFFEFFFFFC2F,
                       0xFFFFFFFFFFFFFFFFFFFFFFFFFFFFFFFEBAAEDCE6AF48A03BBFD25E8CD0364141,
                       0x79BE667EF9DCBBAC55A06295CE870B07029BFCDB2DCE28D959F2815B16F81798,
                       0x483ADA7726A3C4655DA4FBFC0E1108A8FD17B448A68554199C47D08FFB10D4B8)

  datatype Point = Infinity | Affine(x: nat, y: nat)

  function Base(c: Curve): Point {
    Affine(c.gx, c.gy)
  }

  function Rhs(c: Curve, x: nat): (r: nat)
    ensures r < c.p
  {
    (x * x * x + 7) % c.p
  }

  predicate OnCurve(c: Curve, a: Point)
  {
    a.Affine? ==> a.x < c.p && a.y < c.p && (a.y * a.y) % c.p == Rhs(c, a.x)
  }

  // ------------------------------------------------------------------ addition

  /** The slope of the chord or tangent; `ModInv` without a result is the inverse that raises. */
  function Slope(c: Curve, a: Point, b: Point): Option<nat>
    requires a.Affine? && b.Affine?
  {
    if a.x == b.x then
      match ModInv(2 * a.y % c.p, c.p)
      case None => None
      case Some(i) => Some(3 * a.x * a.x * i % c.p)
    else
      match ModInv((b.x - a.x) % c.p, c.p)
      case None => None
      case Some(i) => Some((b.y - a.y) * i % c.p)
  }

  function Third(c: Curve, a: Point, b: Point, lam: nat): Point
    requires a.Affine? && b.Affine?
  {
    var x3 := (lam * lam - a.x - b.x) % c.p;
    Affine(x3, (lam * (a.x - x3) - a.y) % c.p)
  }

  function EcAdd(c: Curve, a: Point, b: Point): Result<Point>
  {
    if a.Infinity? then Ok(b)
    else if b.Infinity? then Ok(a)
    else if a.x == b.x && (a.y + b.y) % c.p == 0 then Ok(Infinity)
    else
      match Slope(c, a, b)
      case None => Err
      case Some(lam) => Ok(Third(c, a, b, lam))
  }

  /** The sum where addition does not raise. */
  function Add(c: Curve, a: Point, b: Point): Point
  {
    match EcAdd(c, a, b)
    case Ok(s) => s
    case Err => Infinity
  }

  /** Squares that agree have roots that agree up to sign. */
  lemma RootsAgree(y: nat, z: nat, p: nat)
    requires IsPrime(p) && y < p && z < p && (y * y) % p == (z * z) % p
    ensures y == z || (y + z) % p == 0
  {
    CongEqual(y * y, z * z, p);
    assert y * y - z * z == (y - z) * (y + z);
    EuclidsLemma(y - z, y + z, p);
    if (y - z) % p == 0 {
      CongEqual(y, z, p);
      DivModUnique(p, 0, y);
      DivModUnique(p, 0, z);
    }
  }

  /** On the curve over a prime field no inverse is missing: addition never raises. */
  lemma AddNeverRaises(c: Curve, a: Point, b: Point)
    requires IsPrime(c.p) && OnCurve(c, a) && OnCurve(c, b)
    ensures EcAdd(c, a, b) == Ok(Add(c, a, b))
  {
    if a.Affine? && b.Affine? {
      if a.x == b.x {
        RootsAgree(a.y, b.y, c.p);
        PrimeInverse(2 * a.y % c.p, c.p);
        CongMod(2 * a.y, c.p);
        CongEqual(2 * a.y % c.p, 2 * a.y, c.p);
      } else {
        NonzeroDifference(a.x, b.x, c.p);
        PrimeInverse((b.x - a.x) % c.p, c.p);
      }
    }
  }

  lemma NonzeroDifference(x: nat, y: nat, p: nat)
    requires p > 0 && x < p && y < p && x != y
    ensures (y - x) % p % p != 0
  {
    var r := (y - x) % p;
    DivModUnique(p, 0, r);
    if r == 0 {
      CongEqual(y, x, p);
      DivModUnique(p, 0, x);
      DivModUnique(p, 0, y);
    }
  }

  // ------------------------------------------------------------------ multiples of the prime

  lemma ZeroSum(a: int, b: int, p: nat)
    requires p > 0 && a % p == 0 && b % p == 0
    ensures (a + b) % p == 0 && (a - b) % p == 0
  {
    CongAdd(a, 0, b, 0, p);
  }

  lemma ZeroTimes(a: int, k: int, p: nat)
    requires p > 0 && a % p == 0
    ensures (a * k) % p == 0 && (k * a) % p == 0
  {
    CongMod(k, p);
    CongMul(a, 0, k, k, p);
    IntAssoc(a, k, 1);
  }

  // ------------------------------------------------------------------ lines through the curve

  /** How far a point is off the curve, up to multiples of the field prime. */
  function Off(x: int, y: int): int {
    x * x * x + 7 - y * y
  }

  /** The line through (x1, y1) with slope lam. */
  function Line(x1: int, y1: int, lam: int, x: int): int {
    lam * (x - x1) + y1
  }

  /** What is left of the cubic along the line once the first point is divided out. */
  function Rest(x1: int, y1: int, lam: int, x: int): int {
    x * x + x * x1 + x1 * x1 - lam * lam * (x - x1) - 2 * (lam * y1)
  }

  lemma Factor(x1: int, y1: int, lam: int, x: int)
    ensures Off(x, Line(x1, y1, lam, x)) == Off(x1, y1) + (x - x1) * Rest(x1, y1, lam, x)
  {
  }

  lemma RestDifference(x1: int, y1: int, lam: int, x: int, z: int)
    ensures Rest(x1, y1, lam, z) - Rest(x1, y1, lam, x) == (z - x) * (z + x + x1 - lam * lam)
  {
  }

  // ------------------------------------------------------------------ what a sum is

  /** lam is the slope of the chord through a and b, or of the tangent when they are one point, and s is the third point
      of that line on the curve, reflected. */
  predicate Follows(c: Curve, a: Point, b: Point, lam: int, s: Point)
    requires a.Affine? && b.Affine?
  {
    && (if a.x == b.x then Cong(2 * a.y * lam, 3 * a.x * a.x, c.p) else Cong((b.x - a.x) * lam, b.y - a.y, c.p))
    && s.Affine? && s.x < c.p && s.y < c.p
    && Cong(s.x, lam * lam - a.x - b.x, c.p)
    && Cong(s.y, lam * (a.x - s.x) - a.y, c.p)
  }

  /** Neither point is the opposite of the other. */
  predicate NotOpposite(c: Curve, a: Point, b: Point) {
    a.Affine? && b.Affine? && !(a.x == b.x && (a.y + b.y) % c.p == 0)
  }

  /** What inverting a divisor and multiplying computes is a quotient. */
  lemma QuotientIs(d: int, n: int, p: nat)
    requires p > 0 && ModInv(d % p, p).Some?
    ensures Cong(d * (n * ModInv(d % p, p).value % p), n, p)
  {
    var i := ModInv(d % p, p).value;
    var q := n * i;
    ModInvIs(d % p, p);
    CongMod(d, p);
    CongMod(i, p);
    CongMod(n, p);
    CongMod(q, p);
    CongMul(d, d % p, i, i, p);
    CongTrans(d * i, d % p * i, 1, p);
    CongMul(d * i, 1, n, n, p);
    CongMul(d, d, q % p, q, p);
    IntAssoc(d, i, n);
    IntAssoc(i, n, 1);
    CongTrans(d * (q % p), d * q, n, p);
  }

  /** The divisor of the slope is not a multiple of the field prime. */
  lemma DivisorNonzero(c: Curve, a: Point, b: Point)
    requires IsPrime(c.p) && OnCurve(c, a) && OnCurve(c, b) && NotOpposite(c, a, b)
    ensures (if a.x == b.x then 2 * a.y else b.x - a.x) % c.p != 0
    ensures a.x == b.x ==> a == b
  {
    if a.x == b.x {
      RootsAgree(a.y, b.y, c.p);
    } else if (b.x - a.x) % c.p == 0 {
      CongEqual(b.x, a.x, c.p);
      SmallCong(b.x, a.x, c.p);
    }
  }

  /** Where the points are not opposite, addition follows a line. */
  lemma SumFollows(c: Curve, a: Point, b: Point) returns (lam: nat)
    requires IsPrime(c.p) && OnCurve(c, a) && OnCurve(c, b) && NotOpposite(c, a, b)
    ensures EcAdd(c, a, b).Ok? && Follows(c, a, b, lam, EcAdd(c, a, b).value)
  {
    hide IsPrime, OnCurve, Cong, ModInv;
    AddNeverRaises(c, a, b);
    lam := Slope(c, a, b).value;
    if a.x == b.x {
      QuotientIs(2 * a.y, 3 * a.x * a.x, c.p);
    } else {
      QuotientIs(b.x - a.x, b.y - a.y, c.p);
    }
    var x3 := (lam * lam - a.x - b.x) % c.p;
    CongMod(lam * lam - a.x - b.x, c.p);
    CongMod(lam * (a.x - x3) - a.y, c.p);
  }

  /** A quotient is unique modulo a prime. */
  lemma QuotientUnique(d: int, n: int, u: int, v: int, p: nat)
    requires IsPrime(p) && d % p != 0 && Cong(d * u, n, p) && Cong(d * v, n, p)
    ensures Cong(u, v, p)
  {
    CongSym(d * v, n, p);
    CongTrans(d * u, n, d * v, p);
    assert d * u - d * v == d * (u - v);
    EuclidsLemma(d, u - v, p);
  }

  /** Congruent slopes lead to one point. */
  lemma SameThird(a: Point, b: Point, u: int, v: int, s: Point, t: Point, p: nat)
    requires p > 0 && a.Affine? && b.Affine? && s.Affine? && t.Affine? && Cong(u, v, p)
    requires s.x < p && s.y < p && Cong(s.x, u * u - a.x - b.x, p) && Cong(s.y, u * (a.x - s.x) - a.y, p)
    requires t.x < p && t.y < p && Cong(t.x, v * v - a.x - b.x, p) && Cong(t.y, v * (a.x - t.x) - a.y, p)
    ensures s == t
  {
    hide Cong;
    CongMul(u, v, u, v, p);
    CongMod(a.x + b.x, p);
    CongAdd(u * u, v * v, a.x + b.x, a.x + b.x, p);
    SameSmall(s.x, t.x, u * u - a.x - b.x, v * v - a.x - b.x, p);
    var w := a.x - s.x;
    CongMod(w, p);
    CongMod(a.y, p);
    CongMul(u, v, w, w, p);
    CongAdd(u * w, v * w, a.y, a.y, p);
    SameSmall(s.y, t.y, u * w - a.y, v * w - a.y, p);
  }

  lemma SameSmall(x: nat, y: nat, u: int, v: int, p: nat)
    requires x < p && y < p && Cong(x, u, p) && Cong(y, v, p) && Cong(u, v, p)
    ensures x == y
  {
    CongSym(y, v, p);
    CongTrans(x, u, v, p);
    CongTrans(x, v, y, p);
    SmallCong(x, y, p);
  }

  /** The sum of two points that are not opposite is the one point a line through both leads to. */
  lemma SumExactly(c: Curve, a: Point, b: Point, s: Point)
    requires IsPrime(c.p) && OnCurve(c, a) && OnCurve(c, b) && NotOpposite(c, a, b)
    ensures EcAdd(c, a, b) == Ok(s) <==> exists lam :: Follows(c, a, b, lam, s)
  {
    hide IsPrime, OnCurve, Cong, EcAdd;
    var u := SumFollows(c, a, b);
    if v :| Follows(c, a, b, v, s) {
      DivisorNonzero(c, a, b);
      if a.x == b.x {
        QuotientUnique(2 * a.y, 3 * a.x * a.x, u, v, c.p);
      } else {
        QuotientUnique(b.x - a.x, b.y - a.y, u, v, c.p);
      }
      SameThird(a, b, u, v, EcAdd(c, a, b).value, s, c.p);
    }
  }

  // ------------------------------------------------------------------ sums commute

  /** A line through two points is a line through them in the other order. */
  lemma FollowsBack(c: Curve, a: Point, b: Point, lam: int, s: Point)
    requires a.Affine? && b.Affine? && (a.x == b.x ==> a == b) && Follows(c, a, b, lam, s)
    ensures Follows(c, b, a, lam, s)
  {
    if a.x != b.x {
      var d, e := (b.x - a.x) * lam, b.y - a.y;
      ZeroTimes(d - e, -1, c.p);
      assert (a.x - b.x) * lam == -d;
      assert (a.x - b.x) * lam - (a.y - b.y) == (d - e) * -1;
      var there, back := lam * (a.x - s.x) - a.y, lam * (b.x - s.x) - b.y;
      MoveLine(lam, a.x, b.x, s.x);
      assert there - back == (d - e) * -1;
      CongTrans(s.y, there, back, c.p);
    }
  }

  lemma MoveLine(lam: int, x: int, y: int, z: int)
    ensures lam * (x - z) == lam * (y - z) - (y - x) * lam
  {
  }

  lemma SumCommutes(c: Curve, a: Point, b: Point)
    requires IsPrime(c.p) && OnCurve(c, a) && OnCurve(c, b)
    ensures Add(c, a, b) == Add(c, b, a)
  {
    hide IsPrime, Slope, Third, Follows, Rhs;
    if NotOpposite(c, a, b) {
      var lam := SumFollows(c, a, b);
      DivisorNonzero(c, a, b);
      FollowsBack(c, a, b, lam, Add(c, a, b));
      SumExactly(c, b, a, Add(c, a, b));
    }
  }

  // ------------------------------------------------------------------ sums stay on the curve

  lemma OffIs(c: Curve, a: Point)
    requires a.Affine?
    ensures OnCurve(c, a) <==> a.x < c.p && a.y < c.p && Off(a.x, a.y) % c.p == 0
  {
    CongEqual(a.x * a.x * a.x + 7, a.y * a.y, c.p);
  }

  /** Points at one x-coordinate whose y-coordinates agree, or are opposite, are equally far off the curve. */
  lemma OffAgrees(x: int, y: int, z: int, p: nat)
    requires p > 0 && ((y - z) % p == 0 || (y + z) % p == 0)
    ensures Off(x, y) % p == 0 ==> Off(x, z) % p == 0
  {
    if (y - z) % p == 0 {
      ZeroTimes(y - z, y + z, p);
    } else {
      ZeroTimes(y + z, y - z, p);
    }
    Squares(y, z);
    if Off(x, y) % p == 0 {
      ZeroSum(Off(x, y), (y - z) * (y + z), p);
    }
  }

  lemma Squares(y: int, z: int)
    ensures (y - z) * (y + z) == y * y - z * z
  {
  }

  lemma RestTwice(x: int, y: int, lam: int)
    ensures Rest(x, y, lam, x) == 3 * x * x - 2 * y * lam
  {
  }

  lemma LineIs(x: int, y: int, lam: int, z: int)
    ensures Line(x, y, lam, z) == (z - x) * lam + y
  {
  }

  lemma RestAtChord(x: int, y: int, u: int, v: int, lam: int, p: nat)
    requires IsPrime(p) && p > 0 && Off(x, y) % p == 0 && Off(u, v) % p == 0 && (u - x) % p != 0
    requires Cong((u - x) * lam, v - y, p)
    ensures Rest(x, y, lam, u) % p == 0
  {
    hide IsPrime, Off, Rest, Line;
    var z := Line(x, y, lam, u);
    LineIs(x, y, lam, u);
    var d := (u - x) * lam;
    ZeroTimes(d - (v - y), -1, p);
    assert v - z == (d - (v - y)) * -1;
    OffAgrees(u, v, z, p);
    Factor(x, y, lam, u);
    ZeroSum(Off(u, z), Off(x, y), p);
    EuclidsLemma(u - x, Rest(x, y, lam, u), p);
  }

  /** Along the line, the second point is a root of what is left of the cubic. */
  lemma RestAtSecond(c: Curve, a: Point, b: Point, lam: int, s: Point)
    requires IsPrime(c.p) && OnCurve(c, a) && OnCurve(c, b) && NotOpposite(c, a, b) && Follows(c, a, b, lam, s)
    ensures Rest(a.x, a.y, lam, b.x) % c.p == 0
  {
    hide IsPrime, OnCurve, Off, Rest, Line;
    OffIs(c, a);
    OffIs(c, b);
    DivisorNonzero(c, a, b);
    if a.x == b.x {
      RestTwice(a.x, a.y, lam);
      ZeroTimes(2 * a.y * lam - 3 * a.x * a.x, -1, c.p);
    } else {
      RestAtChord(a.x, a.y, b.x, b.y, lam, c.p);
    }
  }

  lemma RestAtThird(x: int, y: int, lam: int, u: int, w: int, p: nat)
    requires p > 0 && Rest(x, y, lam, u) % p == 0 && Cong(w, lam * lam - x - u, p)
    ensures Rest(x, y, lam, w) % p == 0
  {
    hide Rest;
    RestDifference(x, y, lam, u, w);
    ZeroTimes(w - (lam * lam - x - u), w - u, p);
    ZeroSum(Rest(x, y, lam, u), Rest(x, y, lam, w) - Rest(x, y, lam, u), p);
  }

  lemma OffAtThird(x: int, y: int, lam: int, u: int, w: int, z: int, p: nat)
    requires p > 0 && Off(x, y) % p == 0 && Rest(x, y, lam, u) % p == 0
    requires Cong(w, lam * lam - x - u, p) && Cong(z, lam * (x - w) - y, p)
    ensures Off(w, z) % p == 0
  {
    hide Off, Rest, Line;
    RestAtThird(x, y, lam, u, w, p);
    Factor(x, y, lam, w);
    ZeroTimes(Rest(x, y, lam, w), w - x, p);
    ZeroSum(Off(x, y), (w - x) * Rest(x, y, lam, w), p);
    LineIs(x, y, lam, w);
    MoveLine(lam, x, w, w);
    assert z - (lam * (x - w) - y) == z + Line(x, y, lam, w);
    OffAgrees(w, Line(x, y, lam, w), z, p);
  }

  /** The third point of the line lies on the curve, and so does its reflection. */
  lemma ThirdOnCurve(c: Curve, a: Point, b: Point, lam: int, s: Point)
    requires IsPrime(c.p) && OnCurve(c, a) && OnCurve(c, b) && NotOpposite(c, a, b) && Follows(c, a, b, lam, s)
    ensures OnCurve(c, s)
  {
    hide IsPrime, OnCurve, Off, Rest, Line;
    OffIs(c, a);
    OffIs(c, s);
    RestAtSecond(c, a, b, lam, s);
    OffAtThird(a.x, a.y, lam, b.x, s.x, s.y, c.p);
  }

  lemma SumOnCurve(c: Curve, a: Point, b: Point)
    requires IsPrime(c.p) && OnCurve(c, a) && OnCurve(c, b)
    ensures OnCurve(c, Add(c, a, b))
  {
    hide IsPrime, Slope, Third, Follows, Rhs;
    if NotOpposite(c, a, b) {
      var lam := SumFollows(c, a, b);
      ThirdOnCurve(c, a, b, lam, Add(c, a, b));
    }
  }
}
