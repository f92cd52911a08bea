/** Arithmetic modulo a prime: inverses by the extended Euclidean algorithm, Euclid's lemma and Fermat's little
    theorem. */
module NumberTheory {
  import opened Wrappers
  import opened Digits

  ghost predicate IsPrime(p: nat) {
    p >= 2 && forall d | 2 <= d < p :: p % d != 0
  }

  // ------------------------------------------------------------------ congruence

  predicate Cong(a: int, b: int, m: nat)
    requires m > 0
  {
    (a - b) % m == 0
  }

  lemma Quotient(a: int, b: int, m: nat) returns (k: int)
    requires m > 0 && Cong(a, b, m)
    ensures a - b == k * m
  {
    k := (a - b) / m;
  }

  lemma Multiple(k: int, m: nat)
    requires m > 0
    ensures (k * m) % m == 0
  {
    var x := k * m;
    var q, r := x / m, x % m;
    assert (k - q) * m == r;
    if k - q > 0 {
      MulMono(1, k - q, m);
    } else if k - q < 0 {
      MulMono(1, q - k, m);
    }
  }

  lemma MakeCong(a: int, b: int, m: nat, k: int)
    requires m > 0 && a - b == k * m
    ensures Cong(a, b, m)
  {
    Multiple(k, m);
  }

  lemma CongSym(a: int, b: int, m: nat)
    requires m > 0 && Cong(a, b, m)
    ensures Cong(b, a, m)
  {
    var k := Quotient(a, b, m);
    assert b - a == (-k) * m;
    MakeCong(b, a, m, -k);
  }

  lemma CongTrans(a: int, b: int, c: int, m: nat)
    requires m > 0 && Cong(a, b, m) && Cong(b, c, m)
    ensures Cong(a, c, m)
  {
    var k := Quotient(a, b, m);
    var l := Quotient(b, c, m);
    assert a - c == (k + l) * m;
    MakeCong(a, c, m, k + l);
  }

  lemma CongAdd(a: int, b: int, c: int, d: int, m: nat)
    requires m > 0 && Cong(a, b, m) && Cong(c, d, m)
    ensures Cong(a + c, b + d, m) && Cong(a - c, b - d, m)
  {
    var k := Quotient(a, b, m);
    var l := Quotient(c, d, m);
    assert (a + c) - (b + d) == (k + l) * m;
    assert (a - c) - (b - d) == (k - l) * m;
    MakeCong(a + c, b + d, m, k + l);
    MakeCong(a - c, b - d, m, k - l);
  }

  lemma CongMul(a: int, b: int, c: int, d: int, m: nat)
    requires m > 0 && Cong(a, b, m) && Cong(c, d, m)
    ensures Cong(a * c, b * d, m)
  {
    var k := Quotient(a, b, m);
    var l := Quotient(c, d, m);
    IntDistr(a, b, c);
    IntDistr(c, d, b);
    IntAssoc(k, m, c);
    IntAssoc(l, m, b);
    IntAssoc(k, c, m);
    IntAssoc(l, b, m);
    IntDistr(k * c, -(l * b), m);
    assert a * c - b * d == (a - b) * c + b * (c - d);
    assert a * c - b * d == (k * c + l * b) * m;
    MakeCong(a * c, b * d, m, k * c + l * b);
  }

  lemma IntAssoc(a: int, b: int, c: int)
    ensures a * b * c == a * (b * c) && a * b == b * a
  {
  }

  lemma IntDistr(a: int, b: int, c: int)
    ensures (a - b) * c == a * c - b * c
  {
  }

  lemma CongMod(a: int, m: nat)
    requires m > 0
    ensures Cong(a, a % m, m) && Cong(a % m, a, m) && Cong(a, a, m)
  {
    assert a - a % m == (a / m) * m;
    MakeCong(a, a % m, m, a / m);
    CongSym(a, a % m, m);
    MakeCong(a, a, m, 0);
  }

  /** Congruent means equal remainders. */
  lemma CongEqual(a: int, b: int, m: nat)
    requires m > 0
    ensures Cong(a, b, m) <==> a % m == b % m
  {
    CongMod(a, m);
    CongMod(b, m);
    if Cong(a, b, m) {
      CongTrans(a % m, a, b, m);
      CongTrans(a % m, b, b % m, m);
      SmallCong(a % m, b % m, m);
    } else if a % m == b % m {
      CongTrans(a, a % m, b, m);
    }
  }

  lemma SmallCong(a: nat, b: nat, m: nat)
    requires a < m && b < m && Cong(a, b, m)
    ensures a == b
  {
    var k := Quotient(a, b, m);
    if k > 0 {
      MulMono(1, k, m);
    } else if k < 0 {
      MulMono(1, -k, m);
    }
  }

  lemma {:induction false} CongPower(a: nat, b: nat, e: nat, m: nat)
    requires m > 0 && Cong(a, b, m)
    ensures Cong(Power(a, e), Power(b, e), m)
  {
    if e == 0 {
      CongMod(1, m);
    } else {
      CongPower(a, b, e - 1, m);
      CongMul(a, b, Power(a, e - 1), Power(b, e - 1), m);
    }
  }

  // ------------------------------------------------------------------ inverses

  /** The extended Euclidean algorithm. */
  function ExtGcd(a: nat, b: nat): (nat, int, int)
    decreases b
  {
    if b == 0 then (a, 1, 0)
    else
      var (g, x, y) := ExtGcd(b, a % b);
      (g, y, x - (a / b) * y)
  }

  lemma BezoutStep(a: nat, b: nat, x: int, y: int)
    requires b > 0
    ensures a * y + b * (x - (a / b) * y) == b * x + (a % b) * y
  {
    var q, r := a / b, a % b;
    assert a == b * q + r;
    assert a * y == b * q * y + r * y;
    assert b * (x - q * y) == b * x - b * (q * y);
    IntAssoc(b, q, y);
  }

  lemma {:induction false} Bezout(a: nat, b: nat)
    ensures var (g, x, y) := ExtGcd(a, b); a * x + b * y == g
    decreases b
  {
    if b > 0 {
      Bezout(b, a % b);
      var (_, x, y) := ExtGcd(b, a % b);
      BezoutStep(a, b, x, y);
    }
  }

  lemma DividesStep(g: nat, k: nat, l: nat, q: nat, b: nat, r: nat)
    requires b == g * k && r == g * l
    ensures b * q + r == g * (k * q + l)
  {
    MulAssoc(g, k, q);
  }

  /** The common divisor divides both numbers. */
  lemma {:induction false} GcdDivides(a: nat, b: nat) returns (g: nat, k: nat, l: nat)
    ensures g == ExtGcd(a, b).0 && a == g * k && b == g * l
    decreases b
  {
    if b == 0 {
      g, k, l := a, 1, 0;
    } else {
      var m, n;
      g, m, n := GcdDivides(b, a % b);
      var q := a / b;
      DivMod(b, a);
      DividesStep(g, m, n, q, b, a % b);
      IntAssoc(q, b, 1);
      k, l := m * q + n, m;
    }
  }

  /** Python's `pow(a, -1, m)`: the inverse below `m`, or nothing when there is none. */
  function ModInv(a: int, m: nat): (r: Option<nat>)
    requires m > 0
    ensures r.Some? ==> r.value < m
  {
    var (g, x, _) := ExtGcd(a % m, m);
    if g == 1 then Some(x % m) else None
  }

  lemma ModInvIs(a: int, m: nat)
    requires m > 0 && ModInv(a, m).Some?
    ensures Cong(a * ModInv(a, m).value, 1, m)
  {
    var (g, x, y) := ExtGcd(a % m, m);
    Bezout(a % m, m);
    assert a % m * x - 1 == (-y) * m;
    MakeCong(a % m * x, 1, m, -y);
    CongMod(a, m);
    CongMod(x, m);
    CongMul(a, a % m, x % m, x, m);
    CongTrans(a * (x % m), a % m * x, 1, m);
  }

  lemma PrimeDivisor(p: nat, g: nat, k: nat)
    requires IsPrime(p) && p == g * k && g < p
    ensures g == 1
  {
    if g >= 2 {
      MulAssoc(g, k, 1);
      DivModUnique(g, k, 0);
    }
  }

  /** Modulo a prime exactly the multiples of the prime have no inverse. */
  lemma PrimeInverse(a: int, p: nat)
    requires IsPrime(p)
    ensures ModInv(a, p).Some? <==> a % p != 0
  {
    var r := a % p;
    if r != 0 {
      var g, l, k := GcdDivides(r, p);
      DivisorSmall(g, l, r);
      PrimeDivisor(p, g, k);
    } else {
      assert ExtGcd(p, 0).0 == p;
      assert ExtGcd(0, p).0 == ExtGcd(p, 0 % p).0;
    }
  }

  lemma DivisorSmall(g: nat, l: nat, r: nat)
    requires r == g * l && r > 0
    ensures g <= r
  {
    if l >= 1 {
      MulMono(1, l, g);
    }
  }

  /** Euclid's lemma. */
  lemma EuclidsLemma(a: int, b: int, p: nat)
    requires IsPrime(p) && (a * b) % p == 0
    ensures a % p == 0 || b % p == 0
  {
    if a % p != 0 {
      PrimeInverse(a, p);
      var i := ModInv(a, p).value;
      ModInvIs(a, p);
      Cancel(a, i, b, p);
    }
  }

  /** What an invertible number annihilates is a multiple of the modulus. */
  lemma Cancel(a: int, i: int, b: int, m: nat)
    requires m > 0 && Cong(a * i, 1, m) && (a * b) % m == 0
    ensures b % m == 0
  {
    MakeCongZero(a * b, m);
    CongMod(i, m);
    CongMod(b, m);
    CongMul(a * b, 0, i, i, m);
    CongMul(a * i, 1, b, b, m);
    assert a * b * i == a * i * b by {
      IntAssoc(a, b, i);
      IntAssoc(a, i, b);
      IntAssoc(b, i, 1);
    }
    CongSym(a * i * b, b, m);
    CongTrans(b, a * i * b, 0, m);
    CongEqual(b, 0, m);
  }

  lemma MakeCongZero(x: int, m: nat)
    requires m > 0 && x % m == 0
    ensures Cong(x, 0, m)
  {
  }

  // ------------------------------------------------------------------ Fermat's little theorem

  function Product(s: seq<nat>): nat {
    if |s| == 0 then 1 else Product(s[..|s| - 1]) * s[|s| - 1]
  }

  ghost predicate Distinct(s: seq<nat>) {
    forall i, j | 0 <= i < j < |s| :: s[i] != s[j]
  }

  ghost predicate Within(s: seq<nat>, n: nat) {
    forall i | 0 <= i < |s| :: 1 <= s[i] <= n
  }

  function Without(s: seq<nat>, k: nat): (r: seq<nat>)
    requires k < |s|
    ensures |r| == |s| - 1
    ensures forall i | 0 <= i < |r| :: r[i] == if i < k then s[i] else s[i + 1]
  {
    s[..k] + s[k + 1..]
  }

  lemma {:induction false} ProductWithout(s: seq<nat>, k: nat)
    requires k < |s|
    ensures Product(s) == Product(Without(s, k)) * s[k]
  {
    var n := |s| - 1;
    if k == n {
      assert Without(s, k) == s[..n];
    } else {
      ProductWithout(s[..n], k);
      assert Without(s, k)[..n - 1] == Without(s[..n], k);
      var rest := Product(Without(s[..n], k));
      MulAssoc(rest, s[k], s[n]);
      MulAssoc(rest, s[n], s[k]);
    }
  }

  /** Distinct numbers from 1 to n are at most n in number. */
  lemma {:induction false} Pigeonhole(s: seq<nat>, n: nat)
    requires Distinct(s) && Within(s, n)
    ensures |s| <= n
    decreases n
  {
    if |s| == 0 {
    } else if k :| 0 <= k < |s| && s[k] == n {
      Pigeonhole(Without(s, k), n - 1);
    } else {
      assert 1 <= s[0] <= n;
      Pigeonhole(s, n - 1);
    }
  }

  function Factorial(n: nat): nat {
    if n == 0 then 1 else Factorial(n - 1) * n
  }

  /** The product of n distinct numbers from 1 to n, in whatever order, is the factorial. */
  lemma {:induction false} ProductOfAll(s: seq<nat>, n: nat)
    requires Distinct(s) && Within(s, n) && |s| == n
    ensures Product(s) == Factorial(n)
  {
    if n > 0 {
      if k :| 0 <= k < |s| && s[k] == n {
        ProductWithout(s, k);
        ProductOfAll(Without(s, k), n - 1);
      } else {
        Pigeonhole(s, n - 1);
      }
    }
  }

  /** a, 2a, ..., na modulo p. */
  function Multiples(a: nat, n: nat, p: nat): (s: seq<nat>)
    requires p > 0
    ensures |s| == n && forall i | 0 <= i < n :: s[i] == a * (i + 1) % p
  {
    seq(n, i requires 0 <= i < n => a * (i + 1) % p)
  }

  lemma MultipleNonzero(a: nat, i: nat, p: nat)
    requires IsPrime(p) && a % p != 0 && 1 <= i < p
    ensures 1 <= a * i % p <= p - 1
  {
    if a * i % p == 0 {
      EuclidsLemma(a, i, p);
    }
  }

  lemma MultiplesDiffer(a: nat, i: nat, j: nat, p: nat)
    requires IsPrime(p) && a % p != 0 && 1 <= i < j < p
    ensures a * i % p != a * j % p
  {
    if a * i % p == a * j % p {
      CongEqual(a * j, a * i, p);
      assert a * (j - i) == a * j - a * i;
      EuclidsLemma(a, j - i, p);
    }
  }

  lemma MultiplesPermute(a: nat, p: nat)
    requires IsPrime(p) && a % p != 0
    ensures Distinct(Multiples(a, p - 1, p)) && Within(Multiples(a, p - 1, p), p - 1)
  {
    var s := Multiples(a, p - 1, p);
    forall i | 0 <= i < p - 1
      ensures 1 <= s[i] <= p - 1
    {
      MultipleNonzero(a, i + 1, p);
    }
    forall i, j | 0 <= i < j < p - 1
      ensures s[i] != s[j]
    {
      MultiplesDiffer(a, i + 1, j + 1, p);
    }
  }

  lemma {:induction false} MultiplesProduct(a: nat, n: nat, p: nat)
    requires p > 0
    ensures Cong(Product(Multiples(a, n, p)), Power(a, n) * Factorial(n), p)
  {
    if n == 0 {
      CongMod(1, p);
    } else {
      MultiplesProduct(a, n - 1, p);
      var s := Multiples(a, n, p);
      assert s[..n - 1] == Multiples(a, n - 1, p);
      CongMod(a * n, p);
      CongMul(Product(s[..n - 1]), Power(a, n - 1) * Factorial(n - 1), a * n % p, a * n, p);
      Regroup(Power(a, n - 1), Factorial(n - 1), a, n);
    }
  }

  lemma Regroup(w: nat, f: nat, a: nat, n: nat)
    ensures w * f * (a * n) == a * w * (f * n)
  {
    MulAssoc(w * f, a, n);
    MulAssoc(w, f, a);
    MulAssoc(w, a, f);
    MulAssoc(a * w, f, n);
  }

  lemma {:induction false} FactorialPrime(n: nat, p: nat)
    requires IsPrime(p) && n < p
    ensures Factorial(n) % p != 0
  {
    if n > 0 {
      FactorialPrime(n - 1, p);
      var f := Factorial(n - 1);
      DivModUnique(p, 0, n);
      if (f * n) % p == 0 {
        EuclidsLemma(f, n, p);
      }
    }
  }

  /** Fermat's little theorem. */
  lemma Fermat(a: nat, p: nat)
    requires IsPrime(p) && a % p != 0
    ensures Cong(Power(a, p - 1), 1, p)
  {
    var s := Multiples(a, p - 1, p);
    MultiplesPermute(a, p);
    ProductOfAll(s, p - 1);
    MultiplesProduct(a, p - 1, p);
    var f, w := Factorial(p - 1), Power(a, p - 1);
    CongSym(f, w * f, p);
    FactorialPrime(p - 1, p);
    CancelFactor(w, f, p);
  }

  lemma CancelFactor(w: nat, f: nat, p: nat)
    requires IsPrime(p) && f % p != 0 && Cong(w * f, f, p)
    ensures Cong(w, 1, p)
  {
    IntDistr(w, 1, f);
    EuclidsLemma(w - 1, f, p);
  }
}
