/** Commutative groups of prime order, and what scalar multiplication does in them. */
module PrimeOrderGroup {
  import opened Digits
  import opened NumberTheory

  /** An addition on the values `on` picks out; the group's size is `n`. */
  datatype Group<!T> = Group(add: (T, T) -> T, zero: T, on: T -> bool, n: nat)

  ghost predicate Closed<T>(g: Group<T>, a: T, b: T) {
    g.on(a) && g.on(b) ==> g.on(g.add(a, b))
  }

  ghost predicate Commutes<T>(g: Group<T>, a: T, b: T) {
    g.on(a) && g.on(b) ==> g.add(a, b) == g.add(b, a)
  }

  ghost predicate Associates<T>(g: Group<T>, a: T, b: T, d: T) {
    g.on(a) && g.on(b) && g.on(d) ==> g.add(g.add(a, b), d) == g.add(a, g.add(b, d))
  }

  ghost predicate Neutral<T>(g: Group<T>, a: T) {
    g.add(a, g.zero) == a && g.add(g.zero, a) == a
  }

  ghost predicate HasOrder<T>(g: Group<T>, a: T) {
    g.on(a) ==> Times(g, g.n, a) == g.zero
  }

  ghost predicate IsGroup<T(!new)>(g: Group<T>) {
    && IsPrime(g.n) && g.on(g.zero)
    && (forall a :: Neutral(g, a))
    && (forall a, b :: Closed(g, a, b))
    && (forall a, b :: Commutes(g, a, b))
    && (forall a, b, d :: Associates(g, a, b, d))
    && (forall a :: HasOrder(g, a))
  }

  /** k-fold addition. */
  function Times<T>(g: Group<T>, k: nat, a: T): T {
    if k == 0 then g.zero else g.add(Times(g, k - 1, a), a)
  }

  lemma {:induction false} TimesOn<T(!new)>(g: Group<T>, k: nat, a: T)
    requires IsGroup(g) && g.on(a)
    ensures g.on(Times(g, k, a))
  {
    if k > 0 {
      TimesOn(g, k - 1, a);
      assert Closed(g, Times(g, k - 1, a), a);
    }
  }

  lemma {:induction false} TimesAdd<T(!new)>(g: Group<T>, j: nat, k: nat, a: T)
    requires IsGroup(g) && g.on(a)
    ensures Times(g, j + k, a) == g.add(Times(g, j, a), Times(g, k, a))
  {
    assert Neutral(g, Times(g, j, a));
    if k > 0 {
      TimesAdd(g, j, k - 1, a);
      TimesOn(g, j, a);
      TimesOn(g, k - 1, a);
      assert Associates(g, Times(g, j, a), Times(g, k - 1, a), a);
    }
  }

  lemma {:induction false} TimesZero<T(!new)>(g: Group<T>, k: nat)
    requires IsGroup(g)
    ensures Times(g, k, g.zero) == g.zero
  {
    assert Neutral(g, g.zero);
    if k > 0 {
      TimesZero(g, k - 1);
    }
  }

  lemma TimesOne<T(!new)>(g: Group<T>, a: T)
    requires IsGroup(g)
    ensures Times(g, 1, a) == a
  {
    assert Neutral(g, a);
    assert Times(g, 1, a) == g.add(Times(g, 0, a), a);
  }

  lemma {:induction false} TimesTimes<T(!new)>(g: Group<T>, j: nat, k: nat, a: T)
    requires IsGroup(g) && g.on(a)
    ensures Times(g, j, Times(g, k, a)) == Times(g, j * k, a)
  {
    if j > 0 {
      var rest := (j - 1) * k;
      assert j * k == rest + k by {
        MulDistr(j - 1, 1, k);
      }
      TimesTimes(g, j - 1, k, a);
      TimesAdd(g, rest, k, a);
    }
  }

  /** Multiples depend on the scalar modulo the group order alone. */
  lemma TimesMod<T(!new)>(g: Group<T>, k: nat, a: T)
    requires IsGroup(g) && g.on(a)
    ensures Times(g, k, a) == Times(g, k % g.n, a)
  {
    var q, r := k / g.n, k % g.n;
    DivMod(g.n, k);
    TimesAdd(g, q * g.n, r, a);
    TimesTimes(g, q, g.n, a);
    assert HasOrder(g, a);
    TimesZero(g, q);
    assert Neutral(g, Times(g, r, a));
  }

  lemma TimesCong<T(!new)>(g: Group<T>, j: nat, k: nat, a: T)
    requires IsGroup(g) && g.on(a) && Cong(j, k, g.n)
    ensures Times(g, j, a) == Times(g, k, a)
  {
    CongEqual(j, k, g.n);
    TimesMod(g, j, a);
    TimesMod(g, k, a);
  }

  /** Multiplying by a number and by its inverse modulo the order changes nothing. */
  lemma {:induction false} TimesInverse<T(!new)>(g: Group<T>, r: nat, i: nat, a: T)
    requires IsGroup(g) && g.on(a) && Cong(r * i, 1, g.n)
    ensures Times(g, i, Times(g, r, a)) == a
    ensures Times(g, r, Times(g, i, a)) == a
  {
    TimesTimes(g, i, r, a);
    TimesTimes(g, r, i, a);
    IntAssoc(r, i, 1);
    TimesCong(g, r * i, 1, a);
    TimesOne(g, a);
  }

  /** Only multiples of the order annihilate a point other than zero. */
  lemma TimesNonzero<T(!new)>(g: Group<T>, k: nat, a: T)
    requires IsGroup(g) && g.on(a) && a != g.zero && k % g.n != 0
    ensures Times(g, k, a) != g.zero
  {
    PrimeInverse(k, g.n);
    ModInvIs(k, g.n);
    var i := ModInv(k, g.n).value;
    TimesInverse(g, k, i, a);
    TimesZero(g, i);
  }

  /** One round of double-and-add keeps what is still to be added. */
  lemma {:induction false} HalfStep<T(!new)>(g: Group<T>, result: T, k: nat, addend: T)
    requires IsGroup(g) && g.on(result) && g.on(addend)
    ensures var next := if k % 2 == 1 then g.add(result, addend) else result;
            var twice := g.add(addend, addend);
            g.on(next) && g.on(twice) && g.add(next, Times(g, k / 2, twice)) == g.add(result, Times(g, k, addend))
  {
    var h := k / 2;
    assert Closed(g, result, addend) && Closed(g, addend, addend);
    TimesOne(g, addend);
    TimesAdd(g, 1, 1, addend);
    TimesTimes(g, h, 2, addend);
    if k % 2 == 1 {
      TimesAdd(g, 1, h * 2, addend);
      TimesOn(g, h * 2, addend);
      assert Associates(g, result, addend, Times(g, h * 2, addend));
    }
  }

  /** b == a - d exactly when d + b == a; `m` is the negative of d. */
  lemma Subtract<T(!new)>(g: Group<T>, a: T, d: T, m: T, b: T)
    requires IsGroup(g) && g.on(a) && g.on(b) && g.on(d) && g.on(m) && g.add(d, m) == g.zero
    ensures g.add(a, m) == b <==> g.add(d, b) == a
  {
    assert Commutes(g, d, b) && Commutes(g, m, a);
    assert Associates(g, b, d, m);
    assert Associates(g, d, m, a);
    assert Neutral(g, b) && Neutral(g, a);
  }

  /** d == r^-1 * (a - e) exactly when e + r*d == a. */
  lemma Solve<T(!new)>(g: Group<T>, a: T, e: T, m: T, r: nat, i: nat, d: T)
    requires IsGroup(g) && g.on(a) && g.on(d) && g.on(e) && g.on(m) && g.add(e, m) == g.zero
    requires Cong(r * i, 1, g.n)
    ensures Times(g, i, g.add(a, m)) == d <==> g.add(e, Times(g, r, d)) == a
  {
    var rest := g.add(a, m);
    assert Closed(g, a, m);
    TimesOn(g, r, d);
    Subtract(g, a, e, m, Times(g, r, d));
    TimesInverse(g, r, i, d);
    TimesInverse(g, r, i, rest);
  }

  /** s*k == e + r*d between scalars is e*B + r*(d*B) == s*(k*B) between points. */
  lemma {:induction false} ScalarEquation<T(!new)>(g: Group<T>, s: nat, k: nat, e: nat, r: nat, d: nat, B: T)
    requires IsGroup(g) && g.on(B) && Cong(s * k, e + r * d, g.n)
    ensures g.add(Times(g, e, B), Times(g, r, Times(g, d, B))) == Times(g, s, Times(g, k, B))
  {
    TimesTimes(g, s, k, B);
    TimesTimes(g, r, d, B);
    TimesAdd(g, e, r * d, B);
    TimesCong(g, s * k, e + r * d, B);
  }
}
