/** Regrouping a stream of f-bit values into t-bit values, most significant bit first: recto/bitcoin.py:442-463.
    Shifts and masks are written as the multiplications, divisions and remainders by powers of two they are. */
module BitGroups {
  import opened Wrappers
  import opened Digits

  function Pow2(e: nat): (r: nat)
    ensures r >= 1
  {
    Power(2, e)
  }

  predicate InRange(data: seq<int>, width: nat) {
    forall i | 0 <= i < |data| :: 0 <= data[i] < Pow2(width)
  }

  /** The number an in-range stream spells, most significant bit first. */
  function Stream(data: seq<int>, width: nat): nat
    requires InRange(data, width)
  {
    Value(Pow2(width), data)
  }

  lemma Pow2Base(width: nat)
    requires width >= 1
    ensures Pow2(width) >= 2
  {
    PowerMono(2, 1, width);
  }

  /** What regrouping means: the same bits cut into `t`-bit values. With padding, zero bits fill the last value;
      without, fewer than `f` bits may be left over and they must be zero. */
  function Regroup(data: seq<int>, f: nat, t: nat, pad: bool): (r: Option<seq<nat>>)
    requires f >= 1 && t >= 1
    ensures r.Some? ==> InRange(data, f) && InRange(r.value, t)
  {
    if !InRange(data, f) then None
    else
      Pow2Base(t);
      var v := Stream(data, f);
      var bits := |data| * f;
      DivMod(t, bits);
      var full, rest := bits / t, bits % t;
      if pad then Some(if rest > 0 then Fixed(Pow2(t), full + 1, v * Pow2(t - rest)) else Fixed(Pow2(t), full, v))
      else if rest >= f || v % Pow2(rest) != 0 then None
      else Some(Fixed(Pow2(t), full, v / Pow2(rest)))
  }

  // ------------------------------------------------------------------ the accumulator loop

  /** Dropping the bits above a larger power leaves the lower bits alone. */
  lemma ModMod(x: nat, lo: nat, hi: nat)
    requires lo <= hi
    ensures (x % Pow2(hi)) % Pow2(lo) == x % Pow2(lo)
  {
    var a, b := Pow2(lo), Pow2(hi - lo);
    PowerAdd(2, lo, hi - lo);
    var y := x % Pow2(hi);
    var q := x / Pow2(hi);
    DivMod(Pow2(hi), x);
    DivMod(a, y);
    Nest(q, b, y / a, a, y % a);
    DivModUnique(a, q * b + y / a, y % a);
  }

  lemma ModProduct(x: nat, a: nat, b: nat)
    requires a >= 1 && b >= 1
    ensures a * b >= 1
    ensures x % (a * b) == (x / a) % b * a + x % a
  {
    var hi := x / a;
    var q, m := hi / b, hi % b;
    DivMod(a, x);
    DivMod(b, hi);
    Nest(q, b, m, a, x % a);
    MulMono(m + 1, b, a);
    MulDistr(m, 1, a);
    MulMono(1, b, a);
    DivModUnique(a * b, q, m * a + x % a);
  }

  /** The low `n + t` bits are the middle `t` bits above the low `n`. */
  lemma ModSplit(x: nat, n: nat, t: nat)
    ensures x % Pow2(n + t) == (x / Pow2(n)) % Pow2(t) * Pow2(n) + x % Pow2(n)
  {
    PowerAdd(2, n, t);
    ModProduct(x, Pow2(n), Pow2(t));
  }

  lemma Nest(q: nat, b: nat, m: nat, a: nat, lo: nat)
    ensures (q * b + m) * a + lo == q * (a * b) + (m * a + lo)
  {
    assert (q * b) * a == q * (a * b);
  }

  /** Shifting in one value keeps the bits not yet written out, whatever the mask cuts off above them. */
  lemma ShiftIn(acc: nat, bits: nat, f: nat, t: nat, value: nat)
    requires f >= 1 && t >= 1 && bits < t && value < Pow2(f)
    ensures ((acc * Pow2(f) + value) % Pow2(f + t - 1)) % Pow2(bits + f) == acc % Pow2(bits) * Pow2(f) + value
  {
    var x := acc * Pow2(f) + value;
    ModMod(x, bits + f, f + t - 1);
    DivModUnique(Pow2(f), acc, value);
    ModSplit(x, f, bits);
  }

  /** Shifting the unwritten bits up to a whole value. */
  lemma ShiftUp(acc: nat, bits: nat, t: nat)
    requires bits <= t
    ensures (acc * Pow2(t - bits)) % Pow2(t) == acc % Pow2(bits) * Pow2(t - bits)
  {
    var p := Pow2(t - bits);
    var x := acc * p;
    DivModUnique(p, acc, 0);
    ModSplit(x, t - bits, bits);
  }

  lemma ProductSplit(a: nat, b: nat, c: nat)
    ensures a * Pow2(b) * Pow2(c) == a * Pow2(b + c)
  {
    PowerAdd(2, b, c);
    assert a * Pow2(b) * Pow2(c) == a * (Pow2(b) * Pow2(c));
  }

  /** The invariant of the loop: everything written, followed by the unwritten low bits of the accumulator, is the
      stream read so far. */
  ghost predicate Accounted(v: nat, ret: seq<nat>, acc: nat, bits: nat, t: nat) {
    InRange(ret, t) && v == Stream(ret, t) * Pow2(bits) + acc % Pow2(bits)
  }

  lemma EmitStep(v: nat, ret: seq<nat>, acc: nat, bits: nat, t: nat)
    requires bits >= t && Accounted(v, ret, acc, bits, t)
    ensures Accounted(v, ret + [acc / Pow2(bits - t) % Pow2(t)], acc, bits - t, t)
  {
    var n := bits - t;
    var d := acc / Pow2(n) % Pow2(t);
    ModSplit(acc, n, t);
    assert (ret + [d])[..|ret|] == ret;
    Nest(Stream(ret, t), Pow2(t), d, Pow2(n), acc % Pow2(n));
    PowerAdd(2, n, t);
  }

  lemma ReadStep(v: nat, ret: seq<nat>, acc: nat, bits: nat, f: nat, t: nat, value: nat)
    requires f >= 1 && t >= 1 && bits < t && value < Pow2(f) && Accounted(v, ret, acc, bits, t)
    ensures Accounted(v * Pow2(f) + value, ret, (acc * Pow2(f) + value) % Pow2(f + t - 1), bits + f, t)
  {
    ShiftIn(acc, bits, f, t, value);
    Nest(Stream(ret, t), Pow2(bits), acc % Pow2(bits), Pow2(f), value);
    PowerAdd(2, f, bits);
  }

  lemma PadStep(v: nat, ret: seq<nat>, acc: nat, bits: nat, t: nat)
    requires bits <= t && Accounted(v, ret, acc, bits, t)
    ensures var d := acc * Pow2(t - bits) % Pow2(t);
            InRange(ret + [d], t) && Stream(ret + [d], t) == v * Pow2(t - bits)
  {
    var d := acc * Pow2(t - bits) % Pow2(t);
    ShiftUp(acc, bits, t);
    assert (ret + [d])[..|ret|] == ret;
    var lo := acc % Pow2(bits);
    MulDistr(Stream(ret, t) * Pow2(bits), lo, Pow2(t - bits));
    ProductSplit(Stream(ret, t), bits, t - bits);
    assert Stream(ret + [d], t) == Stream(ret, t) * Pow2(t) + lo * Pow2(t - bits);
  }

  lemma CutStep(v: nat, ret: seq<nat>, acc: nat, bits: nat, t: nat)
    requires bits < t && Accounted(v, ret, acc, bits, t)
    ensures acc * Pow2(t - bits) % Pow2(t) == 0 <==> v % Pow2(bits) == 0
    ensures v / Pow2(bits) == Stream(ret, t)
  {
    ShiftUp(acc, bits, t);
    DivModUnique(Pow2(bits), Stream(ret, t), acc % Pow2(bits));
    if acc % Pow2(bits) > 0 {
      MulMono(1, acc % Pow2(bits), Pow2(t - bits));
    }
  }

  lemma FixedStream(ret: seq<nat>, t: nat)
    requires t >= 1 && InRange(ret, t)
    ensures Pow2(t) >= 2 && Fixed(Pow2(t), |ret|, Stream(ret, t)) == ret
  {
    Pow2Base(t);
    ValueFixed(Pow2(t), ret);
  }

  /** After the loop: the last, padded or cut, value makes the whole what `Regroup` says. */
  lemma Finish(data: seq<int>, f: nat, t: nat, pad: bool, ret: seq<nat>, acc: nat, bits: nat)
    requires f >= 1 && t >= 1 && bits < t && InRange(data, f)
    requires |ret| * t + bits == |data| * f
    requires Accounted(Stream(data, f), ret, acc, bits, t)
    ensures var last := acc * Pow2(t - bits) % Pow2(t);
            Regroup(data, f, t, pad) ==
            if pad then Some(if bits > 0 then ret + [last] else ret)
            else if bits >= f || last != 0 then None
            else Some(ret)
  {
    DivModUnique(t, |ret|, bits);
    if pad && bits > 0 {
      var last := acc * Pow2(t - bits) % Pow2(t);
      PadStep(Stream(data, f), ret, acc, bits, t);
      FixedStream(ret + [last], t);
    } else {
      CutStep(Stream(data, f), ret, acc, bits, t);
      FixedStream(ret, t);
    }
  }

  lemma OneMore(n: nat, width: nat)
    ensures (n + 1) * width == n * width + width
  {
  }

  /** The loop of the source, proved to cut the stream as `Regroup` says. */
  method ConvertBits(data: seq<int>, f: nat, t: nat, pad: bool) returns (r: Option<seq<nat>>)
    requires f >= 1 && t >= 1
    ensures r == Regroup(data, f, t, pad)
  {
    var acc: nat, bits: nat, ret: seq<nat> := 0, 0, [];
    var i := 0;
    assert data[..0] == [];
    while i < |data|
      invariant 0 <= i <= |data| && bits < t
      invariant InRange(data[..i], f)
      invariant |ret| * t + bits == i * f
      invariant Accounted(Stream(data[..i], f), ret, acc, bits, t)
    {
      var value := data[i];
      if value < 0 || value >= Pow2(f) {
        return None;
      }
      assert data[..i + 1] == data[..i] + [value];
      ghost var v := Stream(data[..i + 1], f);
      assert data[..i + 1][..i] == data[..i];
      ReadStep(Stream(data[..i], f), ret, acc, bits, f, t, value);
      OneMore(i, f);
      acc, bits := (acc * Pow2(f) + value) % Pow2(f + t - 1), bits + f;
      while bits >= t
        invariant |ret| * t + bits == (i + 1) * f
        invariant Accounted(v, ret, acc, bits, t)
      {
        EmitStep(v, ret, acc, bits, t);
        OneMore(|ret|, t);
        ret, bits := ret + [acc / Pow2(bits - t) % Pow2(t)], bits - t;
      }
      i := i + 1;
    }
    assert data[..i] == data;
    Finish(data, f, t, pad, ret, acc, bits);
    if pad {
      if bits > 0 {
        ret := ret + [acc * Pow2(t - bits) % Pow2(t)];
      }
    } else if bits >= f || acc * Pow2(t - bits) % Pow2(t) != 0 {
      return None;
    }
    return Some(ret);
  }

  // ------------------------------------------------------------------ there and back

  /** A stream moved up by `p` bits still fits in a numeral with that many more bits. */
  lemma ShiftedFits(data: seq<int>, f: nat, p: nat, t: nat, len: nat)
    requires f >= 1 && InRange(data, f) && len * t == |data| * f + p
    ensures Stream(data, f) * Pow2(p) < Power(Pow2(t), len)
  {
    ValueBound(Pow2(f), data);
    PowerPower(f, |data|);
    PowerPower(t, len);
    PowerAdd(2, |data| * f, p);
    var v, b, c := Stream(data, f), Pow2(|data| * f), Pow2(p);
    MulMono(v + 1, b, c);
    OneMore(v, c);
  }

  /** Padding appends `p < t` zero bits and nothing else. */
  lemma PadStream(data: seq<int>, f: nat, t: nat) returns (out: seq<nat>, p: nat)
    requires f >= 1 && t >= 1 && InRange(data, f)
    ensures Regroup(data, f, t, true) == Some(out)
    ensures p < t && |out| * t == |data| * f + p
    ensures Stream(out, t) == Stream(data, f) * Pow2(p)
  {
    var bits := |data| * f;
    DivMod(t, bits);
    OneMore(bits / t, t);
    Pow2Base(t);
    out := Regroup(data, f, t, true).value;
    p := |out| * t - bits;
    ShiftedFits(data, f, p, t, |out|);
    FixedValue(Pow2(t), |out|, Stream(data, f) * Pow2(p));
  }

  /** Bits cut finer with padding, then cut back without, are the bits they were. */
  lemma PadThenCut(data: seq<int>, f: nat, t: nat)
    requires 1 <= t <= f && InRange(data, f)
    ensures Regroup(data, f, t, true).Some?
    ensures Regroup(Regroup(data, f, t, true).value, t, f, false) == Some(data)
  {
    var out, p := PadStream(data, f, t);
    DivModUnique(f, |data|, p);
    DivModUnique(Pow2(p), Stream(data, f), 0);
    FixedStream(data, f);
  }

  /** Cutting without padding drops `r < t` zero bits and nothing else. */
  lemma CutStream(syms: seq<int>, t: nat, f: nat) returns (out: seq<nat>, r: nat)
    requires f >= 1 && t >= 1
    requires Regroup(syms, t, f, false).Some?
    ensures Regroup(syms, t, f, false) == Some(out)
    ensures r < t && |out| * f + r == |syms| * t
    ensures Stream(out, f) * Pow2(r) == Stream(syms, t)
  {
    var v, bits := Stream(syms, t), |syms| * t;
    out := Regroup(syms, t, f, false).value;
    DivMod(f, bits);
    r := bits % f;
    DivMod(Pow2(r), v);
    Pow2Base(f);
    Pow2Base(t);
    assert v / Pow2(r) < Power(Pow2(f), |out|) by {
      ValueBound(Pow2(t), syms);
      PowerPower(t, |syms|);
      PowerPower(f, |out|);
      PowerAdd(2, |out| * f, r);
      if v / Pow2(r) >= Pow2(|out| * f) {
        MulMono(Pow2(|out| * f), v / Pow2(r), Pow2(r));
      }
    }
    FixedValue(Pow2(f), |out|, v / Pow2(r));
  }

  /** Values cut back without padding, then cut finer with it, are the values they were. */
  lemma CutThenPad(syms: seq<int>, t: nat, f: nat)
    requires 1 <= t <= f
    requires Regroup(syms, t, f, false).Some?
    ensures Regroup(Regroup(syms, t, f, false).value, f, t, true) == Some(syms)
  {
    var out, r := CutStream(syms, t, f);
    if r == 0 {
      DivModUnique(t, |syms|, 0);
    } else {
      OneMore(|syms| - 1, t);
      DivModUnique(t, |syms| - 1, t - r);
    }
    FixedStream(syms, t);
  }

  lemma {:induction false} PowerPower(width: nat, n: nat)
    ensures Power(Pow2(width), n) == Pow2(n * width)
  {
    if n > 0 {
      PowerPower(width, n - 1);
      PowerAdd(2, width, (n - 1) * width);
      OneMore(n - 1, width);
    }
  }
}
