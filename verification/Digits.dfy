/** Big-endian numerals: Python's `int.from_bytes(..., "big")`, `to_bytes(..., "big")` and divmod loops all
    read or write one of these. */
module Digits {

  type byte = x: nat | x < 256
  type bytes = seq<byte>

  function Power(base: nat, e: nat): (r: nat)
    ensures base >= 1 ==> r >= 1
  {
    if e == 0 then 1 else base * Power(base, e - 1)
  }

  ghost predicate InBase(base: nat, ds: seq<nat>) {
    forall i | 0 <= i < |ds| :: ds[i] < base
  }

  /** The number the digits spell, most significant first. */
  function Value(base: nat, ds: seq<nat>): nat {
    if |ds| == 0 then 0 else Value(base, ds[..|ds| - 1]) * base + ds[|ds| - 1]
  }

  /** The shortest numeral of `n`: no leading zero, and no digit at all for zero. */
  function Minimal(base: nat, n: nat): (ds: seq<nat>)
    requires base >= 2
    ensures InBase(base, ds)
    ensures |ds| > 0 ==> ds[0] > 0
    ensures |ds| == 0 <==> n == 0
  {
    if n == 0 then []
    else
      Shrinks(base, n);
      Minimal(base, n / base) + [n % base]
  }

  /** The numeral of `n` with exactly `len` digits, higher digits dropped. */
  function Fixed(base: nat, len: nat, n: nat): (ds: seq<nat>)
    requires base >= 2
    ensures |ds| == len && InBase(base, ds)
  {
    if len == 0 then [] else Fixed(base, len - 1, n / base) + [n % base]
  }

  lemma Shrinks(base: nat, n: nat)
    requires base >= 2 && n > 0
    ensures 0 <= n / base < n
  {
    DivMod(base, n);
    if n / base >= n {
      MulMono(n, n / base, base);
      assert n * base >= n * 2 by { MulMono(2, base, n); }
    }
  }

  lemma DivMod(base: nat, n: nat)
    requires base >= 1
    ensures n == (n / base) * base + n % base && 0 <= n % base < base && 0 <= n / base
  {
  }

  lemma MulMono(a: nat, b: nat, c: nat)
    requires a <= b
    ensures a * c <= b * c && c * a <= c * b
  {
  }

  lemma MulAssoc(a: nat, b: nat, c: nat)
    ensures a * b * c == a * (b * c)
  {
  }

  lemma MulDistr(a: nat, b: nat, c: nat)
    ensures (a + b) * c == a * c + b * c
  {
  }

  /** Quotient and remainder are determined by the equation they solve. */
  lemma DivModUnique(base: nat, q: nat, r: nat)
    requires base >= 1 && r < base
    ensures (q * base + r) / base == q && (q * base + r) % base == r
  {
    var n := q * base + r;
    DivMod(base, n);
    var q', r' := n / base, n % base;
    assert (q - q') * base == r' - r;
    if q > q' {
      MulMono(1, q - q', base);
    } else if q < q' {
      MulMono(1, q' - q, base);
    }
  }

  lemma {:induction false} PowerAdd(base: nat, a: nat, b: nat)
    ensures Power(base, a + b) == Power(base, a) * Power(base, b)
  {
    if a > 0 {
      PowerAdd(base, a - 1, b);
      MulAssoc(base, Power(base, a - 1), Power(base, b));
      assert Power(base, a + b) == base * Power(base, a - 1 + b);
    }
  }

  lemma {:induction false} PowerMono(base: nat, a: nat, b: nat)
    requires base >= 1 && a <= b
    ensures Power(base, a) <= Power(base, b)
  {
    if a < b {
      PowerMono(base, a, b - 1);
      MulMono(1, base, Power(base, b - 1));
    }
  }

  lemma {:induction false} MinimalValue(base: nat, n: nat)
    requires base >= 2
    ensures Value(base, Minimal(base, n)) == n
    decreases n
  {
    if n > 0 {
      Shrinks(base, n);
      MinimalValue(base, n / base);
      var ds := Minimal(base, n);
      assert ds[..|ds| - 1] == Minimal(base, n / base);
      DivMod(base, n);
    }
  }

  lemma OneMoreDigit(base: nat, n: nat, d: nat)
    requires base >= 2 && d < base && (n > 0 || d > 0)
    ensures Minimal(base, n * base + d) == Minimal(base, n) + [d]
  {
    DivModUnique(base, n, d);
    if n > 0 {
      MulMono(1, n, base);
    }
  }

  /** A numeral without a leading zero is the minimal one of the number it spells. */
  lemma {:induction false} ValueMinimal(base: nat, ds: seq<nat>)
    requires base >= 2 && InBase(base, ds)
    requires |ds| > 0 ==> ds[0] > 0
    ensures Minimal(base, Value(base, ds)) == ds
  {
    if |ds| > 0 {
      var init, last := ds[..|ds| - 1], ds[|ds| - 1];
      ValueMinimal(base, init);
      assert init + [last] == ds;
      assert |init| == 0 ==> Value(base, init) == 0 && last == ds[0];
      OneMoreDigit(base, Value(base, init), last);
    }
  }

  lemma {:induction false} ValueBound(base: nat, ds: seq<nat>)
    requires base >= 1 && InBase(base, ds)
    ensures Value(base, ds) < Power(base, |ds|)
  {
    if |ds| > 0 {
      var init, last := ds[..|ds| - 1], ds[|ds| - 1];
      ValueBound(base, init);
      var v, p := Value(base, init), Power(base, |init|);
      MulDistr(v, 1, base);
      MulMono(v + 1, p, base);
      assert Value(base, ds) == v * base + last < (v + 1) * base;
      assert Power(base, |ds|) == p * base;
    }
  }

  lemma PlaceUp(d: nat, unit: nat, base: nat)
    ensures d * (base * unit) == d * unit * base
  {
    MulAssoc(d, unit, base);
    assert base * unit == unit * base;
  }

  /** A numeral with a nonzero leading digit is at least that digit's place. */
  lemma {:induction false} ValueLower(base: nat, ds: seq<nat>)
    requires base >= 1 && |ds| > 0
    ensures Value(base, ds) >= ds[0] * Power(base, |ds| - 1)
  {
    if |ds| > 1 {
      var init := ds[..|ds| - 1];
      ValueLower(base, init);
      MulMono(ds[0] * Power(base, |ds| - 2), Value(base, init), base);
      PlaceUp(ds[0], Power(base, |ds| - 2), base);
    } else {
      assert Value(base, ds[..0]) == 0;
    }
  }

  /** How many digits a number takes: the powers it lies between. */
  lemma {:induction false} MinimalLength(base: nat, n: nat, len: nat)
    requires base >= 2
    ensures |Minimal(base, n)| <= len <==> n < Power(base, len)
  {
    var ds := Minimal(base, n);
    MinimalValue(base, n);
    ValueBound(base, ds);
    if |ds| <= len {
      PowerMono(base, |ds|, len);
    } else {
      ValueLower(base, ds);
      MulMono(1, ds[0], Power(base, |ds| - 1));
      PowerMono(base, len, |ds| - 1);
    }
  }

  lemma MinimalMono(base: nat, m: nat, n: nat)
    requires base >= 2 && m <= n
    ensures |Minimal(base, m)| <= |Minimal(base, n)|
  {
    MinimalLength(base, n, |Minimal(base, n)|);
    MinimalLength(base, m, |Minimal(base, n)|);
  }

  lemma {:induction false} FixedValue(base: nat, len: nat, n: nat)
    requires base >= 2 && n < Power(base, len)
    ensures Value(base, Fixed(base, len, n)) == n
  {
    if len > 0 {
      DivMod(base, n);
      if n / base >= Power(base, len - 1) {
        MulMono(Power(base, len - 1), n / base, base);
      }
      FixedValue(base, len - 1, n / base);
      var ds := Fixed(base, len, n);
      assert ds[..|ds| - 1] == Fixed(base, len - 1, n / base);
    }
  }

  /** Digits are recovered from their count and the number they spell. */
  lemma {:induction false} ValueFixed(base: nat, ds: seq<nat>)
    requires base >= 2 && InBase(base, ds)
    ensures Fixed(base, |ds|, Value(base, ds)) == ds
  {
    if |ds| > 0 {
      var init, last := ds[..|ds| - 1], ds[|ds| - 1];
      ValueFixed(base, init);
      DivModUnique(base, Value(base, init), last);
      assert init + [last] == ds;
    }
  }

  lemma ValueInjective(base: nat, a: seq<nat>, b: seq<nat>)
    requires base >= 2 && InBase(base, a) && InBase(base, b)
    requires |a| == |b| && Value(base, a) == Value(base, b)
    ensures a == b
  {
    ValueFixed(base, a);
    ValueFixed(base, b);
  }

  /** No numeral of a number is shorter than the minimal one, and only the minimal one is as short. */
  lemma MinimalShortest(base: nat, ds: seq<nat>)
    requires base >= 2 && InBase(base, ds)
    ensures |Minimal(base, Value(base, ds))| <= |ds|
    ensures |Minimal(base, Value(base, ds))| == |ds| ==> Minimal(base, Value(base, ds)) == ds
  {
    var n := Value(base, ds);
    ValueBound(base, ds);
    MinimalLength(base, n, |ds|);
    MinimalValue(base, n);
    if |Minimal(base, n)| == |ds| {
      ValueInjective(base, Minimal(base, n), ds);
    }
  }

  lemma {:induction false} ValueAppend(base: nat, a: seq<nat>, b: seq<nat>)
    ensures Value(base, a + b) == Value(base, a) * Power(base, |b|) + Value(base, b)
  {
    if |b| == 0 {
      assert a + b == a;
    } else {
      var init, last := b[..|b| - 1], b[|b| - 1];
      ValueAppend(base, a, init);
      assert (a + b)[..|a + b| - 1] == a + init;
      var p := Power(base, |init|);
      MulDistr(Value(base, a) * p, Value(base, init), base);
      MulAssoc(Value(base, a), p, base);
      assert Power(base, |b|) == p * base;
    }
  }

  /** A number lies between its leading digit's place and the next one's. */
  lemma LeadingDigit(base: nat, ds: seq<nat>)
    requires base >= 1 && |ds| > 0 && InBase(base, ds)
    ensures Value(base, ds) == ds[0] * Power(base, |ds| - 1) + Value(base, ds[1..])
    ensures Value(base, ds[1..]) < Power(base, |ds| - 1)
  {
    assert ds == [ds[0]] + ds[1..] && [ds[0]][..0] == [];
    ValueAppend(base, [ds[0]], ds[1..]);
    ValueBound(base, ds[1..]);
    assert Value(base, [ds[0]]) == ds[0];
  }
}
