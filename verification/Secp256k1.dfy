/** Scalar multiplication on y^2 = x^3 + 7 and ECDSA public-key recovery (SEC 1 version 2, section 4.1.6):
    recto/ethereum.py:239-267 and recto/ethereum.py:324-400. */
module Secp256k1 {
  import opened Wrappers
  import opened Digits
  import opened NumberTheory
  import opened CurvePoints
  import opened PrimeOrderGroup

  // ------------------------------------------------------------------ the group

  /** The points of the curve under addition. */
  function Points(c: Curve): (g: Group<Point>)
    ensures g.n == c.n && g.zero == Infinity
  {
    Group((a, b) => Add(c, a, b), Infinity, a => OnCurve(c, a), c.n)
  }

  /** k-fold addition. */
  function Mul(c: Curve, k: nat, a: Point): Point {
    Times(Points(c), k, a)
  }

  /** What is taken from the theory of the curve: two primes, associativity, and the order of the points. That sums stay
      on the curve and commute is proved. */
  ghost predicate CurveGroup(c: Curve) {
    IsPrime(c.p) && c.p % 4 == 3 && c.n <= c.p <= Power(256, 32) && OnCurve(c, Base(c)) && IsPrime(c.n) &&
    (forall a, b, d :: Associates(Points(c), a, b, d)) && forall a :: HasOrder(Points(c), a)
  }

  /** The points form a commutative group. */
  lemma GroupLaws(c: Curve)
    requires CurveGroup(c)
    ensures IsGroup(Points(c))
  {
    hide EcAdd, OnCurve, IsPrime;
    var g := Points(c);
    forall a
      ensures Neutral(g, a)
    {
      AddZero(c, a);
    }
    forall a, b
      ensures Closed(g, a, b) && Commutes(g, a, b)
    {
      if OnCurve(c, a) && OnCurve(c, b) {
        SumOnCurve(c, a, b);
        SumCommutes(c, a, b);
      }
    }
    ZeroOnCurve(c);
  }

  lemma AddZero(c: Curve, a: Point)
    ensures Add(c, a, Infinity) == a && Add(c, Infinity, a) == a
  {
  }

  lemma ZeroOnCurve(c: Curve)
    ensures OnCurve(c, Infinity)
  {
  }

  /** The part of the hypotheses that is plain arithmetic on the curve's constants. */
  lemma ConstantsFit()
    ensures OnCurve(SECP256K1, Base(SECP256K1))
    ensures SECP256K1.p % 4 == 3 && SECP256K1.n <= SECP256K1.p <= Power(256, 32)
  {
    PowerOf256();
  }

  lemma PowerOf256()
    ensures Power(256, 32) == 0x1_00000000_00000000_00000000_00000000_00000000_00000000_00000000_00000000
  {
    var a := Power(256, 4);
    assert a == 0x1_00000000;
    PowerAdd(256, 4, 4);
    PowerAdd(256, 8, 8);
    PowerAdd(256, 16, 16);
  }

  function Negate(c: Curve, a: Point): Point
  {
    match a
    case Infinity => Infinity
    case Affine(x, y) => Affine(x, Minus(y, c.p))
  }

  function Minus(y: int, p: nat): (r: nat)
    requires p > 0
    ensures r < p
  {
    (-y) % p
  }

  lemma MinusIs(y: int, p: nat)
    requires p > 0
    ensures (Minus(y, p) * Minus(y, p)) % p == (y * y) % p
    ensures (y + Minus(y, p)) % p == 0
  {
    var m, n: int := Minus(y, p), -y;
    CongMod(n, p);
    CongMul(m, n, m, n, p);
    assert n * n == y * y;
    CongEqual(m * m, y * y, p);
    CongMod(y, p);
    CongAdd(y, y, m, n, p);
    CongEqual(y + m, 0, p);
  }

  lemma NegateIs(c: Curve, a: Point)
    requires OnCurve(c, a)
    ensures OnCurve(c, Negate(c, a)) && Add(c, a, Negate(c, a)) == Infinity
  {
    if a.Affine? {
      MinusIs(a.y, c.p);
    }
  }

  // ------------------------------------------------------------------ scalar multiplication

  /** k-fold addition, of the negated point when k is negative. */
  function Scale(c: Curve, k: int, a: Point): Point
  {
    if k >= 0 then Mul(c, k, a) else Mul(c, -k, Negate(c, a))
  }

  /** Double-and-add computes k-fold addition: for every scalar on a curve with the group laws, zero and negative
      scalars included, and without raising. */
  method EcMul(c: Curve, k: int, a: Point) returns (r: Result<Point>)
    ensures CurveGroup(c) && OnCurve(c, a) ==> r == Ok(Scale(c, k, a))
    decreases k < 0
  {
    hide Slope, Third, Rhs;
    if k % c.n == 0 || a.Infinity? {
      if CurveGroup(c) && OnCurve(c, a) {
        ScaleZero(c, k, a);
      }
      return Ok(Infinity);
    }
    if k < 0 {
      if CurveGroup(c) && OnCurve(c, a) {
        NegateIs(c, a);
      }
      r := EcMul(c, -k, Negate(c, a));
      return;
    }
    var rest: nat := k;
    var result, addend := Infinity, a;
    while rest > 0
      invariant CurveGroup(c) && OnCurve(c, a) ==>
                  OnCurve(c, result) && OnCurve(c, addend) &&
                  Add(c, result, Mul(c, rest, addend)) == Mul(c, k, a)
      decreases rest
    {
      if CurveGroup(c) && OnCurve(c, a) {
        GroupLaws(c);
        HalfStep(Points(c), result, rest, addend);
        AddNeverRaises(c, result, addend);
        AddNeverRaises(c, addend, addend);
      }
      if rest % 2 == 1 {
        var sum := EcAdd(c, result, addend);
        if sum.Err? {
          return Err;
        }
        result := sum.value;
      }
      var double := EcAdd(c, addend, addend);
      if double.Err? {
        return Err;
      }
      addend, rest := double.value, rest / 2;
    }
    return Ok(result);
  }

  lemma ScaleZero(c: Curve, k: int, a: Point)
    requires CurveGroup(c) && OnCurve(c, a) && (k % c.n == 0 || a.Infinity?)
    ensures Scale(c, k, a) == Infinity
  {
    GroupLaws(c);
    var g := Points(c);
    NegateIs(c, a);
    if a.Infinity? {
      TimesZero(g, if k >= 0 then k else -k);
    } else if k >= 0 {
      TimesMod(g, k, a);
    } else {
      MinusMultiple(k, c.n);
      TimesMod(g, -k, Negate(c, a));
    }
  }

  lemma MinusMultiple(k: int, n: nat)
    requires n > 0 && k % n == 0
    ensures (-k) % n == 0
  {
    CongSym(k, 0, n);
  }

  // ------------------------------------------------------------------ square roots

  function YFromX(c: Curve, x: nat, odd: bool): Option<nat>
  {
    var rhs := Rhs(c, x);
    var y := Power(rhs, (c.p + 1) / 4) % c.p;
    if (y * y) % c.p != rhs then None else Some(Choose(y, odd, c.p))
  }

  lemma {:induction false} SquarePower(z: nat, e: nat)
    ensures Power(z * z, e) == Power(z, 2 * e)
  {
    if e > 0 {
      SquarePower(z, e - 1);
      PowerAdd(z, 2, 2 * (e - 1));
      assert Power(z, 2) == z * Power(z, 1) && Power(z, 1) == z * Power(z, 0);
    }
  }

  /** For a prime that is 3 modulo 4 the (p+1)/4-th power of a square is a root of it. */
  lemma {:induction false} RootOfSquare(z: nat, p: nat)
    requires IsPrime(p) && p % 4 == 3
    ensures var rhs := (z * z) % p;
            var y := Power(rhs, (p + 1) / 4) % p;
            (y * y) % p == rhs
  {
    var e := (p + 1) / 4;
    var sq := z * z;
    var rhs := sq % p;
    var w := Power(rhs, e);
    var y := w % p;
    CongMod(w, p);
    CongMul(y, w, y, w, p);
    CongMod(sq, p);
    CongPower(rhs, sq, e, p);
    CongMul(w, Power(sq, e), w, Power(sq, e), p);
    SquarePower(z, e);
    PowerAdd(z, 2 * e, 2 * e);
    CongTrans(y * y, w * w, Power(z, 4 * e), p);
    FermatSquare(z, p);
    CongTrans(y * y, Power(z, 4 * e), sq, p);
    CongEqual(y * y, sq, p);
  }

  lemma FermatSquare(z: nat, p: nat)
    requires IsPrime(p) && p % 4 == 3
    ensures Cong(Power(z, 4 * ((p + 1) / 4)), z * z, p)
  {
    assert 4 * ((p + 1) / 4) == p + 1;
    PowerAdd(z, p - 1, 2);
    assert Power(z, 2) == z * z by {
      assert Power(z, 1) == z * Power(z, 0);
    }
    CongMod(z * z, p);
    if z % p != 0 {
      Fermat(z, p);
      CongMul(Power(z, p - 1), 1, z * z, z * z, p);
    } else {
      MakeCongZero(z, p);
      CongMul(z, 0, z, 0, p);
      CongMod(Power(z, p - 1), p);
      CongMul(Power(z, p - 1), Power(z, p - 1), z * z, 0, p);
      CongSym(z * z, 0, p);
      CongTrans(Power(z, p - 1) * (z * z), 0, z * z, p);
    }
  }

  lemma MinusValue(y: nat, p: nat)
    requires p > 0 && y < p
    ensures Minus(y, p) == if y == 0 then 0 else p - y
  {
    var n := 0 - y;
    if y == 0 {
      DivModUnique(p, 0, 0);
    } else {
      MakeCong(n, p - y, p, -1);
      CongEqual(n, p - y, p);
      DivModUnique(p, 0, p - y);
    }
  }

  /** Of a root and its negative, the one with the parity asked for. */
  function Choose(y: nat, odd: bool, p: nat): nat
    requires p > 0
  {
    if (y % 2 == 1) != odd then Minus(y, p) else y
  }

  lemma ChooseIs(y: nat, odd: bool, p: nat)
    requires p > 0 && p % 2 == 1 && y < p
    ensures var r := Choose(y, odd, p);
            r < p && (r * r) % p == (y * y) % p && (r != 0 ==> (r % 2 == 1) == odd)
  {
    MinusIs(y, p);
    MinusValue(y, p);
  }

  lemma ChooseFinds(y: nat, odd: bool, p: nat, z: nat)
    requires IsPrime(p) && p % 2 == 1 && y < p && z < p && (y * y) % p == (z * z) % p
    requires z != 0 ==> (z % 2 == 1) == odd
    ensures Choose(y, odd, p) == z
  {
    hide Choose, Minus, IsPrime, Cong;
    RootsAgree(y, z, p);
    SumOfRoots(y, z, p);
    MinusValue(y, p);
    ChooseBetween(y, odd, p, z, Minus(y, p));
  }

  /** Of two roots that differ in parity the one asked for is chosen. */
  lemma ChooseBetween(y: nat, odd: bool, p: nat, z: nat, minus: nat)
    requires p % 2 == 1 && y < p && z < p && minus == Minus(y, p) == if y == 0 then 0 else p - y
    requires y == z || y + z == 0 || y + z == p
    requires z != 0 ==> (z % 2 == 1) == odd
    ensures Choose(y, odd, p) == z
  {
    hide Minus;
  }

  /** What comes back is a root, and one of the parity asked for unless it is zero. */
  lemma YFromXRoot(c: Curve, x: nat, odd: bool)
    requires c.p % 4 == 3 && YFromX(c, x, odd).Some?
    ensures var y := YFromX(c, x, odd).value;
            y < c.p && (y * y) % c.p == Rhs(c, x) && (y != 0 ==> (y % 2 == 1) == odd)
  {
    hide Choose, Power, Rhs;
    ChooseIs(Power(Rhs(c, x), (c.p + 1) / 4) % c.p, odd, c.p);
  }

  /** A root of the parity asked for is found, and so is the root zero. */
  lemma YFromXFinds(c: Curve, x: nat, odd: bool, z: nat)
    requires IsPrime(c.p) && c.p % 4 == 3 && z < c.p
    requires (z * z) % c.p == Rhs(c, x) && (z != 0 ==> (z % 2 == 1) == odd)
    ensures YFromX(c, x, odd) == Some(z)
  {
    RootOfSquare(z, c.p);
    ChooseFinds(Power(Rhs(c, x), (c.p + 1) / 4) % c.p, odd, c.p, z);
  }

  /** A number comes back exactly when it is a root of the parity asked for, or the root zero. */
  lemma YFromXExactly(c: Curve, x: nat, odd: bool, z: nat)
    requires IsPrime(c.p) && c.p % 4 == 3 && z < c.p
    ensures YFromX(c, x, odd) == Some(z) <==>
            (z * z) % c.p == Rhs(c, x) && (z != 0 ==> (z % 2 == 1) == odd)
  {
    if YFromX(c, x, odd) == Some(z) {
      YFromXRoot(c, x, odd);
    } else if (z * z) % c.p == Rhs(c, x) && (z != 0 ==> (z % 2 == 1) == odd) {
      YFromXFinds(c, x, odd, z);
    }
  }

  lemma SumOfRoots(y: nat, z: nat, p: nat)
    requires p > 0 && y < p && z < p
    ensures (y + z) % p == 0 ==> y + z == 0 || y + z == p
  {
    if y + z < p {
      DivModUnique(p, 0, y + z);
    } else {
      DivModUnique(p, 1, y + z - p);
    }
  }

  // ------------------------------------------------------------------ recovery

  function Coordinates(a: Point): bytes
    requires a.Affine?
  {
    Fixed(256, 32, a.x) + Fixed(256, 32, a.y)
  }

  function RecId(v: byte): int {
    if v >= 27 then v - 27 else v
  }

  /** The point R a signature names, once its shape has been checked. */
  function NamedPoint(c: Curve, sig: bytes): Result<Point>
  {
    if |sig| != 65 then Err
    else
      var r, s := Value(256, sig[..32]), Value(256, sig[32..64]);
      if !(1 <= r < c.n) || !(1 <= s < c.n) then Err
      else if RecId(sig[64]) != 0 && RecId(sig[64]) != 1 then Err
      else
        match YFromX(c, r, RecId(sig[64]) == 1)
        case None => Err
        case Some(y) => Ok(Affine(r, y))
  }

  /** Recovery with scalar multiplication read as k-fold addition. */
  function Recover(c: Curve, hash: bytes, sig: bytes): Result<bytes>
  {
    if |hash| != 32 then Err
    else
      var R :- NamedPoint(c, sig);
      var s := Value(256, sig[32..64]);
      var e := Value(256, hash) % c.n;
      match ModInv(R.x, c.n)
      case None => Err
      case Some(i) =>
        var eG := Mul(c, e, Base(c));
        if eG.Infinity? then Err
        else
          var rest := Add(c, Mul(c, s, R), Negate(c, eG));
          if rest.Infinity? then Err
          else
            var q := Mul(c, i, rest);
            if q.Infinity? then Err else Ok(Coordinates(q))
  }

  method RecoverPublicKey(c: Curve, hash: bytes, sig: bytes) returns (r: Result<bytes>)
    ensures CurveGroup(c) ==> r == Recover(c, hash, sig)
  {
    if |hash| != 32 {
      return Err;
    }
    var named := NamedPoint(c, sig);
    if named.Err? {
      return Err;
    }
    var R := named.value;
    var s := Value(256, sig[32..64]);
    var e := Value(256, hash) % c.n;
    var inverse := ModInv(R.x, c.n);
    if inverse.None? {
      return Err;
    }
    if CurveGroup(c) {
      GroupLaws(c);
      NamedOnCurve(c, sig);
      TimesOn(Points(c), s, R);
      TimesOn(Points(c), e, Base(c));
      NegateIs(c, Mul(c, e, Base(c)));
      AddNeverRaises(c, Mul(c, s, R), Negate(c, Mul(c, e, Base(c))));
      assert Closed(Points(c), Mul(c, s, R), Negate(c, Mul(c, e, Base(c))));
    }
    var sR := EcMul(c, s, R);
    if sR.Err? {
      return Err;
    }
    var eG := EcMul(c, e, Base(c));
    if eG.Err? || eG.value.Infinity? {
      return Err;
    }
    var rest := EcAdd(c, sR.value, Negate(c, eG.value));
    if rest.Err? || rest.value.Infinity? {
      return Err;
    }
    var q := EcMul(c, inverse.value, rest.value);
    if q.Err? || q.value.Infinity? {
      return Err;
    }
    return Ok(Coordinates(q.value));
  }

  lemma NamedOnCurve(c: Curve, sig: bytes)
    requires CurveGroup(c) && NamedPoint(c, sig).Ok?
    ensures OnCurve(c, NamedPoint(c, sig).value)
  {
    var r := Value(256, sig[..32]);
    YFromXRoot(c, r, RecId(sig[64]) == 1);
  }

  /** A signature names a point exactly when it has 65 bytes, both numbers lie from 1 to n - 1, the last byte is 0, 1,
      27 or 28, and the first number is the x-coordinate of a curve point with the parity that byte says. */
  lemma NamedExactly(c: Curve, sig: bytes, R: Point)
    requires IsPrime(c.p) && c.p % 4 == 3
    ensures NamedPoint(c, sig) == Ok(R) <==>
            && |sig| == 65
            && 0 < Value(256, sig[..32]) < c.n && 0 < Value(256, sig[32..64]) < c.n
            && (sig[64] == 0 || sig[64] == 1 || sig[64] == 27 || sig[64] == 28)
            && R.Affine? && R.x == Value(256, sig[..32]) && R.y < c.p
            && (R.y * R.y) % c.p == (R.x * R.x * R.x + 7) % c.p
            && (R.y != 0 ==> (R.y % 2 == 1 <==> (sig[64] == 1 || sig[64] == 28)))
  {
    hide YFromX, IsPrime, Value;
    if |sig| == 65 {
      var r, odd := Value(256, sig[..32]), sig[64] == 1 || sig[64] == 28;
      if R.Affine? && R.y < c.p {
        YFromXExactly(c, r, odd, R.y);
      }
      if YFromX(c, r, odd).Some? {
        YFromXRoot(c, r, odd);
      }
    }
  }

  /** The point 64 bytes spell: its coordinates, most significant byte first. */
  function KeyPoint(key: bytes): Point
    requires |key| == 64
  {
    Affine(Value(256, key[..32]), Value(256, key[32..]))
  }

  lemma CoordinatesExactly(c: Curve, a: Point, key: bytes)
    requires c.p <= Power(256, 32) && a.Affine? && OnCurve(c, a)
    ensures Coordinates(a) == key <==> |key| == 64 && KeyPoint(key) == a
  {
    hide Fixed, Value, Power, Rhs;
    FixedValue(256, 32, a.x);
    FixedValue(256, 32, a.y);
    if Coordinates(a) == key {
      assert key[..32] == Fixed(256, 32, a.x) && key[32..] == Fixed(256, 32, a.y);
    }
    if |key| == 64 && KeyPoint(key) == a {
      ValueFixed(256, key[..32]);
      ValueFixed(256, key[32..]);
      assert key == key[..32] + key[32..];
    }
  }

  /** The ECDSA verification equation with the point R in full: e*G + r*Q == s*R. */
  predicate Verifies(c: Curve, e: nat, s: nat, R: Point, Q: Point)
    requires R.Affine?
  {
    Add(c, Mul(c, e, Base(c)), Mul(c, R.x, Q)) == Mul(c, s, R)
  }

  lemma RecoverNonzero(c: Curve, hash: bytes, sig: bytes, Q: Point)
    requires CurveGroup(c) && OnCurve(c, Q) && Q.Affine?
    requires |hash| == 32 && Value(256, hash) % c.n != 0
    requires NamedPoint(c, sig).Ok?
    ensures Recover(c, hash, sig) == Ok(Coordinates(Q)) <==>
            Verifies(c, Value(256, hash) % c.n, Value(256, sig[32..64]), NamedPoint(c, sig).value, Q)
  {
    hide Recover, Coordinates, Verifies, Points, Mul, EcAdd, IsPrime;
    var R := NamedPoint(c, sig).value;
    var s, e := Value(256, sig[32..64]), Value(256, hash) % c.n;
    NamedOnCurve(c, sig);
    var i := SolveScalars(c, e, s, R, Q);
    RecoverIs(c, hash, sig, Q, Add(c, Mul(c, s, R), Negate(c, Mul(c, e, Base(c)))), i);
  }

  lemma MulZero(c: Curve, a: Point)
    ensures Mul(c, 0, a) == Infinity
  {
  }

  /** The verification equation, solved for the key. */
  lemma SolveScalars(c: Curve, e: nat, s: nat, R: Point, Q: Point) returns (i: nat)
    requires CurveGroup(c) && OnCurve(c, Q) && OnCurve(c, R) && R.Affine? && 0 < R.x < c.n && 0 < e < c.n
    ensures ModInv(R.x, c.n) == Some(i)
    ensures Mul(c, e, Base(c)).Affine?
    ensures var rest := Add(c, Mul(c, s, R), Negate(c, Mul(c, e, Base(c))));
            OnCurve(c, Mul(c, i, rest)) && (Mul(c, i, rest) == Q <==> Verifies(c, e, s, R, Q))
  {
    hide Slope, Third, Rhs;
    GroupLaws(c);
    var g := Points(c);
    var eG, sR := Mul(c, e, Base(c)), Mul(c, s, R);
    DivModUnique(c.n, 0, R.x);
    PrimeInverse(R.x, c.n);
    ModInvIs(R.x, c.n);
    i := ModInv(R.x, c.n).value;
    DivModUnique(c.n, 0, e);
    TimesNonzero(g, e, Base(c));
    TimesOn(g, e, Base(c));
    TimesOn(g, s, R);
    NegateIs(c, eG);
    Solve(g, sR, eG, Negate(c, eG), R.x, i, Q);
    assert Closed(g, sR, Negate(c, eG));
    TimesOn(g, i, Add(c, sR, Negate(c, eG)));
  }

  /** Recovery succeeds with a key exactly when the key is the inverse of r times what is left of s*R. */
  lemma {:induction false} RecoverIs(c: Curve, hash: bytes, sig: bytes, Q: Point, rest: Point, i: nat)
    requires CurveGroup(c) && OnCurve(c, Q) && Q.Affine? && OnCurve(c, Mul(c, i, rest))
    requires |hash| == 32 && NamedPoint(c, sig).Ok?
    requires ModInv(NamedPoint(c, sig).value.x, c.n) == Some(i)
    requires Mul(c, Value(256, hash) % c.n, Base(c)).Affine?
    requires rest == Add(c, Mul(c, Value(256, sig[32..64]), NamedPoint(c, sig).value),
                         Negate(c, Mul(c, Value(256, hash) % c.n, Base(c))))
    ensures Recover(c, hash, sig) == Ok(Coordinates(Q)) <==> Mul(c, i, rest) == Q
  {
    hide EcAdd, Coordinates, IsPrime, Times, YFromX;
    GroupLaws(c);
    TimesZero(Points(c), i);
    var q := Mul(c, i, rest);
    if q.Affine? && Coordinates(q) == Coordinates(Q) {
      CoordinatesExactly(c, q, Coordinates(Q));
      CoordinatesExactly(c, Q, Coordinates(Q));
    }
  }

  /** A recovered key spells a point of the curve. */
  lemma RecoveredPoint(c: Curve, hash: bytes, sig: bytes) returns (Q: Point)
    requires CurveGroup(c) && Recover(c, hash, sig).Ok? && Value(256, hash) % c.n != 0
    ensures Q.Affine? && OnCurve(c, Q) && Recover(c, hash, sig) == Ok(Coordinates(Q))
  {
    hide Coordinates, Verifies, Points, Mul, EcAdd, IsPrime, YFromX;
    var R := NamedPoint(c, sig).value;
    var s, e := Value(256, sig[32..64]), Value(256, hash) % c.n;
    NamedOnCurve(c, sig);
    var i := SolveScalars(c, e, s, R, Infinity);
    Q := Mul(c, i, Add(c, Mul(c, s, R), Negate(c, Mul(c, e, Base(c)))));
  }

  /** Recovery returns exactly the one key under which the signature verifies with the point it names; for a hash that
      is zero modulo the order it refuses even that. */
  lemma RecoverExactly(c: Curve, hash: bytes, sig: bytes, key: bytes)
    requires CurveGroup(c)
    ensures Recover(c, hash, sig) == Ok(key) <==>
            && |hash| == 32 && Value(256, hash) % c.n != 0
            && NamedPoint(c, sig).Ok?
            && |key| == 64 && OnCurve(c, KeyPoint(key))
            && Verifies(c, Value(256, hash) % c.n, Value(256, sig[32..64]), NamedPoint(c, sig).value, KeyPoint(key))
  {
    hide Coordinates, Verifies, Points, EcAdd, IsPrime, OnCurve, YFromX;
    if |hash| == 32 && NamedPoint(c, sig).Ok? {
      if Value(256, hash) % c.n == 0 {
        MulZero(c, Base(c));
      } else if Recover(c, hash, sig) == Ok(key) {
        var Q := RecoveredPoint(c, hash, sig);
        CoordinatesExactly(c, Q, key);
        RecoverNonzero(c, hash, sig, Q);
      } else if |key| == 64 && OnCurve(c, KeyPoint(key)) {
        CoordinatesExactly(c, KeyPoint(key), key);
        RecoverNonzero(c, hash, sig, KeyPoint(key));
      }
    }
  }

  /** A signature satisfies its equation: s*k == h + r*d makes e*G + r*(d*G) == s*(k*G). */
  lemma SignerVerifies(c: Curve, h: nat, s: nat, R: Point, k: nat, d: nat)
    requires CurveGroup(c) && R.Affine? && R == Mul(c, k, Base(c))
    requires Cong(s * k, h + R.x * d, c.n)
    ensures Verifies(c, h % c.n, s, R, Mul(c, d, Base(c)))
  {
    hide EcAdd, IsPrime, Cong, Times;
    GroupLaws(c);
    SameScalar(c, h, h % c.n, R.x * d, s * k);
    ScalarEquation(Points(c), s, k, h % c.n, R.x, d, Base(c));
  }

  lemma SameScalar(c: Curve, h: nat, e: nat, rd: nat, sk: nat)
    requires c.n > 0 && e == h % c.n && Cong(sk, h + rd, c.n)
    ensures Cong(sk, e + rd, c.n)
  {
    CongMod(h, c.n);
    CongMod(rd, c.n);
    CongAdd(h, e, rd, rd, c.n);
    CongTrans(sk, h + rd, e + rd, c.n);
  }

  lemma NamedPointIs(c: Curve, sig: bytes, y: nat)
    requires CurveGroup(c) && |sig| == 65
    requires var r, s := Value(256, sig[..32]), Value(256, sig[32..64]);
             1 <= r < c.n && 1 <= s < c.n && OnCurve(c, Affine(r, y))
    requires (RecId(sig[64]) == 0 && y % 2 == 0) || (RecId(sig[64]) == 1 && y % 2 == 1)
    ensures NamedPoint(c, sig) == Ok(Affine(Value(256, sig[..32]), y))
  {
    YFromXFinds(c, Value(256, sig[..32]), RecId(sig[64]) == 1, y);
  }

  /** A signature made with the nonce k and the key d, over a hash that is not zero modulo the order, whose R has an
      x-coordinate below the order and the parity the recovery byte says, gives back the public key d*G. */
  lemma RecoverSigner(c: Curve, hash: bytes, sig: bytes, k: nat, d: nat, y: nat)
    requires CurveGroup(c) && |hash| == 32 && |sig| == 65
    requires var r, s := Value(256, sig[..32]), Value(256, sig[32..64]);
             && 1 <= r < c.n && 1 <= s < c.n && Mul(c, k, Base(c)) == Affine(r, y)
             && Cong(s * k, Value(256, hash) + r * d, c.n)
    requires (RecId(sig[64]) == 0 && y % 2 == 0) || (RecId(sig[64]) == 1 && y % 2 == 1)
    requires Value(256, hash) % c.n != 0 && d % c.n != 0
    ensures Mul(c, d, Base(c)).Affine?
    ensures Recover(c, hash, sig) == Ok(Coordinates(Mul(c, d, Base(c))))
  {
    GroupLaws(c);
    var R := Affine(Value(256, sig[..32]), y);
    TimesOn(Points(c), k, Base(c));
    NamedPointIs(c, sig, y);
    TimesOn(Points(c), d, Base(c));
    TimesNonzero(Points(c), d, Base(c));
    SignerVerifies(c, Value(256, hash), Value(256, sig[32..64]), R, k, d);
    RecoverNonzero(c, hash, sig, Mul(c, d, Base(c)));
  }

  /** The same signature over a hash that is zero modulo the order still verifies under d*G, and is refused. */
  lemma ZeroHashRefused(c: Curve, hash: bytes, sig: bytes, k: nat, d: nat, y: nat)
    requires CurveGroup(c) && |hash| == 32 && |sig| == 65
    requires var r, s := Value(256, sig[..32]), Value(256, sig[32..64]);
             && 1 <= r < c.n && 1 <= s < c.n && Mul(c, k, Base(c)) == Affine(r, y)
             && Cong(s * k, Value(256, hash) + r * d, c.n)
    requires (RecId(sig[64]) == 0 && y % 2 == 0) || (RecId(sig[64]) == 1 && y % 2 == 1)
    requires Value(256, hash) % c.n == 0
    ensures NamedPoint(c, sig) == Ok(Affine(Value(256, sig[..32]), y))
    ensures Verifies(c, 0, Value(256, sig[32..64]), Affine(Value(256, sig[..32]), y), Mul(c, d, Base(c)))
    ensures Recover(c, hash, sig).Err?
  {
    hide Verifies, EcAdd, IsPrime;
    GroupLaws(c);
    var R := Affine(Value(256, sig[..32]), y);
    TimesOn(Points(c), k, Base(c));
    NamedPointIs(c, sig, y);
    SignerVerifies(c, Value(256, hash), Value(256, sig[32..64]), R, k, d);
    MulZero(c, Base(c));
  }
}
