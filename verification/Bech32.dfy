/** Bech32 and bech32m SegWit addresses (BIP-173, BIP-350): recto/bitcoin.py:404-517. */
module Bech32 {
  import opened Wrappers
  import opened Digits
  import opened Alphabets
  import opened BitGroups

  // ------------------------------------------------------------------ the checksum register

  type u5 = x: nat | x < 32
  type word = x: nat | x < 0x4000_0000

  const BECH32_CONST: bv30 := 1
  const BECH32M_CONST: bv30 := 0x2BC830A3

  /** A value as it enters the register. */
  function Word(v: word): bv30 {
    if v < 32 then (v as bv5) as bv30 else v as bv30
  }

  function Low5(x: bv30): u5 {
    ((x & 31) as bv5) as nat
  }

  lemma U5RoundTrip(v: u5)
    ensures (v as bv5) as nat == v
  {
  }

  lemma WordInjective(v: u5, w: u5)
    requires Word(v) == Word(w)
    ensures v == w
  {
    assert v as bv5 == w as bv5;
    U5RoundTrip(v);
    U5RoundTrip(w);
  }

  lemma Low5Word(x: bv30)
    ensures Word(Low5(x)) == x & 31
  {
  }

  function Xor(a: bv30, b: bv30): bv30 {
    a ^ b
  }

  function Pick(on: bool, g: bv30): bv30 {
    if on then g else 0
  }

  function FeedbackOf(p: bool, q: bool, r: bool, s: bool, t: bool): bv30 {
    Xor(Xor(Xor(Xor(Pick(p, 0x3B6A57B2), Pick(q, 0x26508E6D)), Pick(r, 0x1EA119FA)), Pick(s, 0x3D4233DD)),
        Pick(t, 0x2A1462B3))
  }

  /** What the five bits shifted out feed back into the register. */
  function Feedback(b: bv30): bv30 {
    FeedbackOf(b & 1 != 0, b & 2 != 0, b & 4 != 0, b & 8 != 0, b & 16 != 0)
  }

  /** The low 25 bits of the register, moved up five places. */
  function Shifted(chk: bv30): bv30 {
    (chk & 0x1FFFFFF) << 5
  }

  function Enter(chk: bv30, v: bv30, f: bv30): bv30 {
    (Shifted(chk) ^ v) ^ f
  }

  function Step(chk: bv30, v: bv30): bv30 {
    Enter(chk, v, Feedback(chk >> 25))
  }

  /** The register after a run of values. */
  function Fold(chk: bv30, values: seq<word>): bv30 {
    if |values| == 0 then chk else Step(Fold(chk, values[..|values| - 1]), Word(values[|values| - 1]))
  }

  function Polymod(values: seq<word>): bv30 {
    Fold(1, values)
  }

  const GENERATOR: seq<bv30> := [0x3B6A57B2, 0x26508E6D, 0x1EA119FA, 0x3D4233DD, 0x2A1462B3]

  /** The inner loop of the source after `n` rounds. */
  function Rounds(b: bv30, chk: bv30, n: nat): bv30
    requires n <= 5
  {
    if n == 0 then chk
    else
      var prev := Rounds(b, chk, n - 1);
      if BitSet(b, n - 1) then Xor(prev, GENERATOR[n - 1]) else prev
  }

  predicate BitSet(b: bv30, i: nat)
    requires i < 5
  {
    (b >> i) & 1 == 1
  }

  lemma BitMasks(b: bv30)
    ensures BitSet(b, 0) == (b & 1 != 0) && BitSet(b, 1) == (b & 2 != 0) && BitSet(b, 2) == (b & 4 != 0)
    ensures BitSet(b, 3) == (b & 8 != 0) && BitSet(b, 4) == (b & 16 != 0)
  {
  }

  lemma XorZero(a: bv30)
    ensures Xor(a, 0) == a
  {
  }

  lemma RoundOne(b: bv30, x: bv30, n: nat)
    requires n < 5
    ensures Rounds(b, x, n + 1) == Xor(Rounds(b, x, n), Pick(BitSet(b, n), GENERATOR[n]))
  {
    XorZero(Rounds(b, x, n));
  }

  lemma XorAssoc(a: bv30, b: bv30, c: bv30)
    ensures Xor(Xor(a, b), c) == Xor(a, Xor(b, c))
  {
  }

  lemma XorFive(x: bv30, a: bv30, b: bv30, c: bv30, d: bv30, e: bv30)
    ensures Xor(Xor(Xor(Xor(Xor(x, a), b), c), d), e) == Xor(x, Xor(Xor(Xor(Xor(a, b), c), d), e))
  {
    XorAssoc(x, a, b);
    XorAssoc(x, Xor(a, b), c);
    XorAssoc(x, Xor(Xor(a, b), c), d);
    XorAssoc(x, Xor(Xor(Xor(a, b), c), d), e);
  }

  lemma Chain(r0: bv30, r1: bv30, r2: bv30, r3: bv30, r4: bv30, r5: bv30,
              t0: bv30, t1: bv30, t2: bv30, t3: bv30, t4: bv30)
    requires r1 == Xor(r0, t0) && r2 == Xor(r1, t1) && r3 == Xor(r2, t2) && r4 == Xor(r3, t3) && r5 == Xor(r4, t4)
    ensures r5 == Xor(r0, Xor(Xor(Xor(Xor(t0, t1), t2), t3), t4))
  {
    XorFive(r0, t0, t1, t2, t3, t4);
  }

  lemma RoundsFive(b: bv30, x: bv30)
    ensures Rounds(b, x, 5) == Xor(x, FeedbackOf(BitSet(b, 0), BitSet(b, 1), BitSet(b, 2), BitSet(b, 3), BitSet(b, 4)))
  {
    hide Xor, BitSet, Pick;
    RoundOne(b, x, 0);
    RoundOne(b, x, 1);
    RoundOne(b, x, 2);
    RoundOne(b, x, 3);
    RoundOne(b, x, 4);
    Chain(x, Rounds(b, x, 1), Rounds(b, x, 2), Rounds(b, x, 3), Rounds(b, x, 4), Rounds(b, x, 5),
          Pick(BitSet(b, 0), 0x3B6A57B2), Pick(BitSet(b, 1), 0x26508E6D), Pick(BitSet(b, 2), 0x1EA119FA),
          Pick(BitSet(b, 3), 0x3D4233DD), Pick(BitSet(b, 4), 0x2A1462B3));
  }

  lemma RoundsFeedback(b: bv30, x: bv30)
    ensures Rounds(b, x, 5) == Xor(x, Feedback(b))
  {
    BitMasks(b);
    RoundsFive(b, x);
  }

  /** The two loops of the source meet the register's definition. */
  method Bech32Polymod(values: seq<word>) returns (chk: bv30)
    ensures chk == Polymod(values)
  {
    chk := 1;
    for n := 0 to |values|
      invariant chk == Fold(1, values[..n])
    {
      var b := chk >> 25;
      var shifted := Xor((chk & 0x1FFFFFF) << 5, Word(values[n]));
      RoundsStep(chk, Word(values[n]));
      assert values[..n + 1][..n] == values[..n];
      chk := shifted;
      for i := 0 to 5
        invariant chk == Rounds(b, shifted, i)
      {
        if BitSet(b, i) {
          chk := Xor(chk, GENERATOR[i]);
        }
      }
    }
    assert values[..|values|] == values;
  }

  lemma RoundsStep(chk: bv30, v: bv30)
    ensures Rounds(chk >> 25, Xor(Shifted(chk), v), 5) == Step(chk, v)
  {
    RoundsFeedback(chk >> 25, Xor(Shifted(chk), v));
    EnterIsXor(chk, v, Feedback(chk >> 25));
  }

  lemma EnterIsXor(chk: bv30, v: bv30, f: bv30)
    ensures Enter(chk, v, f) == Xor(Xor(Shifted(chk), v), f)
  {
    hide Xor, Shifted;
    XorXor(Shifted(chk), v, f);
  }

  lemma XorXor(a: bv30, b: bv30, c: bv30)
    ensures (a ^ b) ^ c == Xor(Xor(a, b), c)
  {
  }

  // ------------------------------------------------------------------ the register loses nothing

  lemma FeedbackLowInjective(b: bv30, c: bv30)
    requires b < 32 && c < 32
    ensures Feedback(b) & 31 == Feedback(c) & 31 ==> b == c
  {
  }

  lemma EnterInjective(a: bv30, b: bv30, v: bv30, f: bv30, g: bv30)
    requires Enter(a, v, f) == Enter(b, v, g)
    requires f & 31 == g & 31 ==> a >> 25 == b >> 25 && f == g
    ensures a == b
  {
  }

  lemma FeedbackTop(a: bv30, b: bv30)
    ensures Feedback(a >> 25) & 31 == Feedback(b >> 25) & 31 ==>
              a >> 25 == b >> 25 && Feedback(a >> 25) == Feedback(b >> 25)
  {
    FeedbackLowInjective(a >> 25, b >> 25);
  }

  /** Two registers that differ still differ after the same value enters both. */
  lemma StepInjective(a: bv30, b: bv30, v: bv30)
    requires Step(a, v) == Step(b, v)
    ensures a == b
  {
    FeedbackTop(a, b);
    EnterInjective(a, b, v, Feedback(a >> 25), Feedback(b >> 25));
  }

  lemma {:induction false} FoldInjective(a: bv30, b: bv30, values: seq<word>)
    requires Fold(a, values) == Fold(b, values)
    ensures a == b
  {
    if |values| > 0 {
      var init := values[..|values| - 1];
      StepInjective(Fold(a, init), Fold(b, init), Word(values[|values| - 1]));
      FoldInjective(a, b, init);
    }
  }

  lemma {:induction false} FoldAppend(chk: bv30, a: seq<word>, b: seq<word>)
    ensures Fold(chk, a + b) == Fold(Fold(chk, a), b)
  {
    if |b| == 0 {
      assert a + b == a;
    } else {
      assert (a + b)[..|a + b| - 1] == a + b[..|b| - 1];
      FoldAppend(chk, a, b[..|b| - 1]);
    }
  }

  /** One more symbol below the ones already there. */
  function Glue(x: bv30, v: bv30): bv30 {
    (x << 5) ^ v
  }

  lemma EnterLow(a: bv30, x: bv30, v: bv30, f: bv30)
    requires x < 0x2000000
    ensures Enter(Xor(a, x), v, f) == Xor(Enter(a, 0, f), Glue(x, v))
  {
  }

  lemma TopUnchanged(a: bv30, x: bv30)
    requires x < 0x2000000
    ensures Xor(a, x) >> 25 == a >> 25
  {
  }

  /** A difference below bit 25 shifts along without touching the feedback. */
  lemma StepLow(a: bv30, x: bv30, v: bv30)
    requires x < 0x2000000
    ensures Step(Xor(a, x), v) == Xor(Step(a, 0), Glue(x, v))
  {
    TopUnchanged(a, x);
    EnterLow(a, x, v, Feedback(a >> 25));
  }

  /** Up to six symbols side by side in the register. */
  function Pack(syms: seq<u5>): bv30 {
    if |syms| == 0 then 0 else Glue(Pack(syms[..|syms| - 1]), Word(syms[|syms| - 1]))
  }

  function Zeros(n: nat): (z: seq<u5>)
    ensures |z| == n
  {
    seq(n, i => 0)
  }

  /** The registers that hold no more than `n` symbols. */
  predicate Holds(x: bv30, n: nat)
    requires n <= 6
  {
    match n
    case 0 => x == 0
    case 1 => x < 0x20
    case 2 => x < 0x400
    case 3 => x < 0x8000
    case 4 => x < 0x100000
    case 5 => x < 0x2000000
    case _ => true
  }

  lemma GlueHolds(x: bv30, v: bv30, n: nat)
    requires 0 < n <= 6 && Holds(x, n - 1) && v < 32
    ensures Holds(Glue(x, v), n) && x < 0x2000000
  {
    match n
    case 1 =>
    case 2 =>
    case 3 =>
    case 4 =>
    case 5 =>
    case _ =>
  }

  lemma WordSmall(v: u5)
    ensures Word(v) < 32
  {
  }

  lemma {:induction false} PackHolds(syms: seq<u5>)
    requires |syms| <= 6
    ensures Holds(Pack(syms), |syms|)
  {
    if |syms| > 0 {
      PackHolds(syms[..|syms| - 1]);
      WordSmall(syms[|syms| - 1]);
      GlueHolds(Pack(syms[..|syms| - 1]), Word(syms[|syms| - 1]), |syms|);
    }
  }

  /** The symbols before the last one of at most six leave room for it. */
  lemma PackRoom(syms: seq<u5>)
    requires 0 < |syms| <= 6
    ensures Pack(syms[..|syms| - 1]) < 0x2000000 && Word(syms[|syms| - 1]) < 32
  {
    PackHolds(syms[..|syms| - 1]);
    WordSmall(syms[|syms| - 1]);
    GlueHolds(Pack(syms[..|syms| - 1]), Word(syms[|syms| - 1]), |syms|);
  }

  lemma GlueInjective(x: bv30, v: bv30, y: bv30, w: bv30)
    requires x < 0x2000000 && y < 0x2000000 && v < 32 && w < 32
    requires Glue(x, v) == Glue(y, w)
    ensures x == y && v == w
  {
  }

  lemma {:induction false} PackInjective(a: seq<u5>, b: seq<u5>)
    requires |a| == |b| <= 6 && Pack(a) == Pack(b)
    ensures a == b
  {
    if |a| > 0 {
      var n := |a| - 1;
      PackRoom(a);
      PackRoom(b);
      GlueInjective(Pack(a[..n]), Word(a[n]), Pack(b[..n]), Word(b[n]));
      WordInjective(a[n], b[n]);
      PackInjective(a[..n], b[..n]);
      assert a == a[..n] + [a[n]] && b == b[..n] + [b[n]];
    }
  }

  /** Six symbols enter by plain XOR: nothing they carry has reached the feedback yet. */
  lemma {:induction false} SymbolsEnter(chk: bv30, syms: seq<u5>)
    requires |syms| <= 6
    ensures Fold(chk, syms) == Xor(Fold(chk, Zeros(|syms|)), Pack(syms))
  {
    if |syms| > 0 {
      var n := |syms| - 1;
      SymbolsEnter(chk, syms[..n]);
      PackRoom(syms);
      assert Zeros(n + 1)[..n] == Zeros(n);
      StepLow(Fold(chk, Zeros(n)), Pack(syms[..n]), Word(syms[n]));
    }
  }

  lemma XorCancel(a: bv30, b: bv30, c: bv30)
    ensures Xor(a, b) == Xor(a, c) ==> b == c
    ensures Xor(a, Xor(a, b)) == b
  {
  }

  /** Any change confined to six neighbouring symbols, wherever they stand and whatever follows, changes the register:
      a single wrong symbol is the smallest case. */
  lemma BurstChanges(pre: seq<word>, a: seq<u5>, b: seq<u5>, post: seq<word>)
    requires |a| == |b| <= 6 && a != b
    ensures Polymod(pre + a + post) != Polymod(pre + b + post)
  {
    var c := Polymod(pre);
    FoldAppend(1, pre + a, post);
    FoldAppend(1, pre + b, post);
    FoldAppend(1, pre, a);
    FoldAppend(1, pre, b);
    if Fold(Fold(c, a), post) == Fold(Fold(c, b), post) {
      FoldInjective(Fold(c, a), Fold(c, b), post);
      SymbolsEnter(c, a);
      SymbolsEnter(c, b);
      XorCancel(Fold(c, Zeros(|a|)), Pack(a), Pack(b));
      PackInjective(a, b);
    }
  }

  // ------------------------------------------------------------------ checksums

  function HrpExpand(hrp: string): (r: seq<word>) {
    seq(|hrp|, i requires 0 <= i < |hrp| => hrp[i] as nat / 32) + [0]
    + seq(|hrp|, i requires 0 <= i < |hrp| => hrp[i] as nat % 32)
  }

  /** The prefix enters as the high parts of its characters, a zero, and their low five bits. */
  lemma HrpExpandIs(hrp: string, i: nat)
    requires i < |hrp|
    ensures var r := HrpExpand(hrp);
            |r| == 2 * |hrp| + 1 && r[|hrp|] == 0 && r[|hrp| + 1 + i] < 32 &&
            hrp[i] as nat == r[i] * 32 + r[|hrp| + 1 + i]
  {
  }

  /** The register cut into six symbols, the top one first. */
  function Digits5(p: bv30): (r: seq<u5>)
    ensures |r| == 6
  {
    [Low5(p >> 25), Low5(p >> 20), Low5(p >> 15), Low5(p >> 10), Low5(p >> 5), Low5(p)]
  }

  function CreateChecksum(hrp: string, data: seq<u5>, spec: bv30): (r: seq<u5>)
    ensures |r| == 6
  {
    Digits5(Xor(Polymod(HrpExpand(hrp) + data + [0, 0, 0, 0, 0, 0]), spec))
  }

  function VerifyChecksum(hrp: string, data: seq<u5>): Option<bv30> {
    var p := Polymod(HrpExpand(hrp) + data);
    if p == BECH32_CONST then Some(BECH32_CONST)
    else if p == BECH32M_CONST then Some(BECH32M_CONST)
    else None
  }

  function Six(a: bv30, b: bv30, c: bv30, d: bv30, e: bv30, f: bv30): bv30 {
    Glue(Glue(Glue(Glue(Glue(Glue(0, a), b), c), d), e), f)
  }

  lemma Reassemble(p: bv30)
    ensures Six((p >> 25) & 31, (p >> 20) & 31, (p >> 15) & 31, (p >> 10) & 31, (p >> 5) & 31, p & 31) == p
  {
  }

  lemma {:induction false} PackSix(s: seq<u5>)
    requires |s| == 6
    ensures Pack(s) == Six(Word(s[0]), Word(s[1]), Word(s[2]), Word(s[3]), Word(s[4]), Word(s[5]))
  {
    var p5, p4, p3, p2, p1 := s[..5], s[..4], s[..3], s[..2], s[..1];
    assert p5[..4] == p4 && p4[..3] == p3 && p3[..2] == p2 && p2[..1] == p1 && p1[..0] == [];
    assert Pack(p1) == Glue(0, Word(s[0]));
    assert Pack(p2) == Glue(Pack(p1), Word(s[1]));
    assert Pack(p3) == Glue(Pack(p2), Word(s[2]));
    assert Pack(p4) == Glue(Pack(p3), Word(s[3]));
    assert Pack(p5) == Glue(Pack(p4), Word(s[4]));
  }

  lemma PackDigits(p: bv30)
    ensures Pack(Digits5(p)) == p
  {
    Low5Word(p >> 25);
    Low5Word(p >> 20);
    Low5Word(p >> 15);
    Low5Word(p >> 10);
    Low5Word(p >> 5);
    Low5Word(p);
    PackSix(Digits5(p));
    Reassemble(p);
  }

  /** The checksum packs to the difference it has to make. */
  lemma ChecksumPacks(hrp: string, data: seq<u5>, spec: bv30)
    ensures Pack(CreateChecksum(hrp, data, spec)) == Xor(Polymod(HrpExpand(hrp) + data + Zeros(6)), spec)
  {
    assert Zeros(6) == [0, 0, 0, 0, 0, 0];
    PackDigits(Xor(Polymod(HrpExpand(hrp) + data + Zeros(6)), spec));
  }

  /** Six symbols complete a checksum exactly when they are the ones `CreateChecksum` computes. */
  lemma ChecksumExactly(hrp: string, data: seq<u5>, cs: seq<u5>, spec: bv30)
    requires |cs| == 6
    ensures Polymod(HrpExpand(hrp) + (data + cs)) == spec <==> cs == CreateChecksum(hrp, data, spec)
  {
    var head := HrpExpand(hrp) + data;
    var made := CreateChecksum(hrp, data, spec);
    assert HrpExpand(hrp) + (data + cs) == head + cs;
    FoldAppend(1, head, cs);
    FoldAppend(1, head, Zeros(6));
    var base := Polymod(head + Zeros(6));
    SymbolsEnter(Polymod(head), cs);
    ChecksumPacks(hrp, data, spec);
    XorCancel(base, spec, 0);
    if Xor(base, Pack(cs)) == spec {
      XorCancel(base, Pack(cs), Pack(made));
      PackInjective(cs, made);
    }
  }

  // ------------------------------------------------------------------ addresses

  const CHARSET: string := "qpzry9x8gf2tvdw0s3jn54khce6mua7l"

  /** The case mapping of the host language, of which only the ASCII part is fixed here. */
  datatype CaseMap = CaseMap(lower: string -> string, upper: string -> string)

  predicate IsAscii(s: string) {
    forall i | 0 <= i < |s| :: s[i] < 128 as char
  }

  predicate NoUpper(s: string) {
    forall i | 0 <= i < |s| :: !('A' <= s[i] <= 'Z')
  }

  function AsciiLower(s: string): (r: string)
    requires IsAscii(s)
    ensures |r| == |s| && NoUpper(r)
    ensures NoUpper(s) ==> r == s
    ensures forall i | 0 <= i < |s| && 'A' <= s[i] <= 'Z' :: r[i] as int - 'a' as int == s[i] as int - 'A' as int
  {
    seq(|s|, i requires 0 <= i < |s| => if 'A' <= s[i] <= 'Z' then s[i] + 32 as char else s[i])
  }

  function AsciiUpper(s: string): (r: string)
    requires IsAscii(s)
    ensures |r| == |s|
    ensures forall i | 0 <= i < |s| && 'a' <= s[i] <= 'z' :: r[i] as int - 'A' as int == s[i] as int - 'a' as int
  {
    seq(|s|, i requires 0 <= i < |s| => if 'a' <= s[i] <= 'z' then s[i] - 32 as char else s[i])
  }

  ghost predicate RaisesAscii(m: CaseMap) {
    forall s | IsAscii(s) :: m.upper(s) == AsciiUpper(s)
  }

  ghost predicate LowersAscii(m: CaseMap) {
    forall s | IsAscii(s) :: m.lower(s) == AsciiLower(s)
  }

  /** Whatever stands before it, an ASCII tail is lowered letter by letter. */
  ghost predicate LowersTail(m: CaseMap) {
    forall x, y | IsAscii(y) ::
      |m.lower(x + y)| >= |y| && m.lower(x + y)[|m.lower(x + y)| - |y|..] == AsciiLower(y)
  }

  /** The position of the last '1', or -1. */
  function LastOne(s: string): (r: int)
    ensures -1 <= r < |s|
    ensures r >= 0 ==> s[r] == '1'
    ensures forall i | r < i < |s| :: s[i] != '1'
  {
    if |s| == 0 then -1
    else if s[|s| - 1] == '1' then |s| - 1
    else LastOne(s[..|s| - 1])
  }

  /** Symbols as characters of the set, and back. */
  function Chars(data: seq<u5>): (s: string)
    ensures |s| == |data|
  {
    CharPlace(0);
    Text(CHARSET, data)
  }

  function Symbols(s: string): (r: Result<seq<u5>>)
    ensures r.Ok? ==> |r.value| == |s|
  {
    CharPlace(0);
    Indices(CHARSET, s)
  }

  /** Where a character of the set stands, letter by letter. */
  function Place(c: char): nat {
    match c
    case 'q' => 0
    case 'p' => 1
    case 'z' => 2
    case 'r' => 3
    case 'y' => 4
    case '9' => 5
    case 'x' => 6
    case '8' => 7
    case 'g' => 8
    case 'f' => 9
    case '2' => 10
    case 't' => 11
    case 'v' => 12
    case 'd' => 13
    case 'w' => 14
    case '0' => 15
    case 's' => 16
    case '3' => 17
    case 'j' => 18
    case 'n' => 19
    case '5' => 20
    case '4' => 21
    case 'k' => 22
    case 'h' => 23
    case 'c' => 24
    case 'e' => 25
    case '6' => 26
    case 'm' => 27
    case 'u' => 28
    case 'a' => 29
    case '7' => 30
    case 'l' => 31
    case _ => 32
  }

  lemma CharPlace(i: u5)
    ensures |CHARSET| == 32 && Place(CHARSET[i]) == i
  {
  }

  lemma CharsetDistinct()
    ensures |CHARSET| == 32 && Distinct(CHARSET)
  {
    CharPlace(0);
    forall i, j | 0 <= i < j < |CHARSET|
      ensures CHARSET[i] != CHARSET[j]
    {
      CharPlace(i);
      CharPlace(j);
    }
  }

  lemma CharsetLowercase(i: u5)
    ensures CHARSET[i] != '1' && CHARSET[i] < 128 as char && !('A' <= CHARSET[i] <= 'Z')
  {
  }

  lemma CharsLowercase(data: seq<u5>)
    ensures IsAscii(Chars(data)) && NoUpper(Chars(data))
    ensures forall i | 0 <= i < |data| :: Chars(data)[i] != '1'
  {
    forall i | 0 <= i < |data|
      ensures Chars(data)[i] != '1' && Chars(data)[i] < 128 as char && !('A' <= Chars(data)[i] <= 'Z')
    {
      CharsetLowercase(data[i]);
    }
  }

  lemma SymbolsChars(data: seq<u5>)
    ensures Symbols(Chars(data)) == Ok(data)
  {
    CharsetDistinct();
    IndicesText(CHARSET, data);
  }

  lemma CharsSymbols(s: string)
    requires Symbols(s).Ok?
    ensures Chars(Symbols(s).value) == s
  {
    TextIndices(CHARSET, s);
  }

  function Spec(version: nat): bv30 {
    if version == 0 then BECH32_CONST else BECH32M_CONST
  }

  function Encode(hrp: string, version: int, program: bytes): Result<string> {
    if version < 0 || version > 16 then Err
    else
      match Regroup(program, 8, 5, true)
      case None => Err
      case Some(converted) =>
        assert Pow2(5) == 32;
        var data: seq<u5> := [version] + converted;
        Ok(hrp + "1" + Chars(data + CreateChecksum(hrp, data, Spec(version))))
  }

  /** What `bech32_decode` does once the symbols are read. */
  function DecodeData(hrp: string, data: seq<u5>): Result<(string, u5, bytes)>
    requires |data| >= 6
  {
    match VerifyChecksum(hrp, data)
    case None => Err
    case Some(spec) =>
      var version := data[0];
      match Regroup(if |data| == 6 then [] else data[1..|data| - 6], 5, 8, false)
      case None => Err
      case Some(program) =>
        if version == 0 && spec != BECH32_CONST then Err
        else if version != 0 && spec != BECH32M_CONST then Err
        else if version == 0 && |program| != 20 && |program| != 32 then Err
        else
          assert Pow2(8) == 256;
          Ok((hrp, version, program))
  }

  /** The prefix and the symbols of an address, its case and its separator checked. */
  function ReadAddress(m: CaseMap, addr: string): (r: Result<(string, seq<u5>)>)
    ensures r.Ok? ==> |r.value.1| >= 6
  {
    if |addr| == 0 || |addr| > 90 then Err
    else if m.lower(addr) != addr && m.upper(addr) != addr then Err
    else
      var a := m.lower(addr);
      var sep := LastOne(a);
      if sep < 1 || sep + 7 > |a| then Err
      else
        var data :- Symbols(a[sep + 1..]);
        Ok((a[..sep], data))
  }

  function Decode(m: CaseMap, addr: string): Result<(string, u5, bytes)> {
    var parts :- ReadAddress(m, addr);
    DecodeData(parts.0, parts.1)
  }

  /** The reading loop of the decoder. */
  method ReadSymbols(part: string) returns (r: Result<seq<u5>>)
    ensures r == Symbols(part)
  {
    var data: seq<u5> := [];
    CharPlace(0);
    for n := 0 to |part|
      invariant Symbols(part[..n]) == Ok(data)
    {
      assert part[..n + 1][..n] == part[..n];
      var idx := Find(CHARSET, part[n]);
      if idx.None? {
        IndicesStop(CHARSET, part, n);
        return Err;
      }
      data := data + [idx.value];
    }
    assert part[..|part|] == part;
    return Ok(data);
  }

  // ------------------------------------------------------------------ round trips

  /** The version and program symbols of an encoding. */
  function Payload(version: u5, program: bytes): (data: seq<u5>)
    ensures Regroup(program, 8, 5, true).Some? && data == [version] + Regroup(program, 8, 5, true).value
  {
    assert Pow2(8) == 256 && Pow2(5) == 32;
    PadThenCut(program, 8, 5);
    [version] + Regroup(program, 8, 5, true).value
  }

  function Sealed(hrp: string, version: u5, program: bytes): seq<u5> {
    Payload(version, program) + CreateChecksum(hrp, Payload(version, program), Spec(version))
  }

  lemma EncodeIs(hrp: string, version: u5, program: bytes)
    ensures Encode(hrp, version, program) ==
            if version <= 16 then Ok(hrp + "1" + Chars(Sealed(hrp, version, program))) else Err
  {
    var data := Payload(version, program);
  }

  lemma SpecsDiffer()
    ensures BECH32_CONST != BECH32M_CONST
  {
  }

  /** A checksum for the version's own constant leaves only the program to be judged. */
  lemma DecodeDataIs(hrp: string, data: seq<u5>)
    requires |data| >= 6
    ensures DecodeData(hrp, data).Ok? ==> Polymod(HrpExpand(hrp) + data) == Spec(data[0])
    ensures Polymod(HrpExpand(hrp) + data) == Spec(data[0]) ==>
              DecodeData(hrp, data) ==
              match Regroup(if |data| == 6 then [] else data[1..|data| - 6], 5, 8, false)
              case None => Err
              case Some(program) =>
                if data[0] == 0 && |program| != 20 && |program| != 32 then Err
                else (assert Pow2(8) == 256; Ok((hrp, data[0], program)))
  {
    SpecsDiffer();
  }

  /** The symbols an encoding carries are accepted, for the version's own constant, whenever the program's length is. */
  lemma EncodedData(hrp: string, version: u5, program: bytes)
    ensures DecodeData(hrp, Sealed(hrp, version, program)) ==
            if version == 0 && |program| != 20 && |program| != 32 then Err else Ok((hrp, version, program))
  {
    var data := Payload(version, program);
    assert Pow2(8) == 256;
    PadThenCut(program, 8, 5);
    var cs := CreateChecksum(hrp, data, Spec(version));
    ChecksumExactly(hrp, data, cs, Spec(version));
    var all := data + cs;
    assert all[1..|all| - 6] == data[1..];
    DecodeDataIs(hrp, all);
  }

  lemma {:induction false} LastOneJoin(h: string, t: string)
    requires forall i | 0 <= i < |t| :: t[i] != '1'
    ensures LastOne(h + "1" + t) == |h|
  {
    var a := h + "1" + t;
    assert a[|h|] == '1';
    assert forall i | |h| < i < |a| :: a[i] == t[i - |h| - 1];
  }

  lemma AddressParts(hrp: string, data: seq<u5>)
    ensures var a := hrp + "1" + Chars(data);
            LastOne(a) == |hrp| && a[..|hrp|] == hrp && a[|hrp| + 1..] == Chars(data)
  {
    CharsLowercase(data);
    LastOneJoin(hrp, Chars(data));
  }

  /** Reading an address that is its own lower case, when the separator is where the symbols begin. */
  lemma ReadLower(m: CaseMap, hrp: string, data: seq<u5>)
    requires |data| >= 6 && m.lower(hrp + "1" + Chars(data)) == hrp + "1" + Chars(data)
    ensures ReadAddress(m, hrp + "1" + Chars(data)) ==
            if hrp == "" || |hrp| + 1 + |data| > 90 then Err else Ok((hrp, data))
  {
    hide Chars, Symbols, LastOne;
    AddressParts(hrp, data);
    SymbolsChars(data);
  }

  /** Reading any address finds the symbols it was written with, behind the lower case of the rest. */
  lemma ReadAny(m: CaseMap, hrp: string, data: seq<u5>)
    requires LowersTail(m) && ReadAddress(m, hrp + "1" + Chars(data)).Ok?
    ensures var (h, read) := ReadAddress(m, hrp + "1" + Chars(data)).value;
            read == data && m.lower(hrp + "1" + Chars(data)) == h + "1" + Chars(data)
  {
    hide Chars, Symbols, LastOne;
    var tail := "1" + Chars(data);
    assert hrp + "1" + Chars(data) == hrp + tail;
    TailLowered(m, hrp, data);
    var a := m.lower(hrp + tail);
    var h := a[..|a| - |tail|];
    assert a == h + tail == h + "1" + Chars(data);
    AddressParts(h, data);
    SymbolsChars(data);
  }

  lemma TailLowered(m: CaseMap, hrp: string, data: seq<u5>)
    requires LowersTail(m)
    ensures var tail := "1" + Chars(data);
            var a := m.lower(hrp + tail);
            |a| >= |tail| && a[|a| - |tail|..] == tail
  {
    CharsLowercase(data);
    assert IsAscii("1" + Chars(data)) && NoUpper("1" + Chars(data));
  }

  /** The round trip holds for exactly the addresses that have a prefix, are their own lower case, and are no longer
      than 90 characters, and for programs of 20 or 32 bytes under version 0. */
  lemma RoundTripExactly(m: CaseMap, hrp: string, version: int, program: bytes)
    requires LowersTail(m)
    ensures Encode(hrp, version, program).Ok? <==> 0 <= version <= 16
    ensures Encode(hrp, version, program).Ok? ==>
              var addr := Encode(hrp, version, program).value;
              (Decode(m, addr) == Ok((hrp, version, program)) <==>
               hrp != "" && m.lower(addr) == addr && |addr| <= 90 &&
               (version == 0 ==> |program| == 20 || |program| == 32))
  {
    hide Chars, ReadAddress, LowersTail;
    if 0 <= version <= 16 {
      EncodeIs(hrp, version, program);
      var all := Sealed(hrp, version, program);
      var addr := hrp + "1" + Chars(all);
      EncodedData(hrp, version, program);
      if m.lower(addr) == addr {
        ReadLower(m, hrp, all);
      } else if ReadAddress(m, addr).Ok? {
        ReadAny(m, hrp, all);
        PrefixKept(ReadAddress(m, addr).value.0, all);
      }
    } else {
      hide Sealed, Payload, Regroup, CreateChecksum;
    }
  }

  lemma PrefixKept(hrp: string, data: seq<u5>)
    requires |data| >= 6
    ensures DecodeData(hrp, data).Ok? ==> DecodeData(hrp, data).value.0 == hrp
  {
  }

  /** An ASCII address is its own lower case exactly when its prefix has no capital. */
  lemma AsciiPrefix(m: CaseMap, hrp: string, data: seq<u5>)
    requires LowersAscii(m) && IsAscii(hrp)
    ensures m.lower(hrp + "1" + Chars(data)) == hrp + "1" + Chars(data) <==> NoUpper(hrp)
  {
    var a := hrp + "1" + Chars(data);
    CharsLowercase(data);
    assert IsAscii(a);
    assert forall i | 0 <= i < |hrp| :: a[i] == hrp[i];
    if NoUpper(hrp) {
      assert NoUpper(a);
    }
  }

  lemma DataReencodes(hrp: string, data: seq<u5>)
    requires |data| > 6 && data[0] <= 16 && DecodeData(hrp, data).Ok?
    ensures DecodeData(hrp, data).value.0 == hrp
    ensures Sealed(hrp, data[0], DecodeData(hrp, data).value.2) == data
  {
    var program := DecodeData(hrp, data).value.2;
    var syms, cs := data[1..|data| - 6], data[|data| - 6..];
    DecodeDataIs(hrp, data);
    CutThenPad(syms, 5, 8);
    var head := Payload(data[0], program);
    assert head == [data[0]] + syms && head + cs == data;
    ChecksumExactly(hrp, head, cs, Spec(data[0]));
  }

  /** Symbols of their own besides the checksum re-encode when the version is in range. */
  lemma DataReencodesExactly(hrp: string, data: seq<u5>)
    requires |data| >= 6 && DecodeData(hrp, data).Ok?
    ensures var (h, version, program) := DecodeData(hrp, data).value;
            h == hrp && (Encode(hrp, version, program) == Ok(hrp + "1" + Chars(data)) <==>
                         version <= 16 && |data| > 6)
  {
    DecodeDataIs(hrp, data);
    var (_, version, program) := DecodeData(hrp, data).value;
    EncodeIs(hrp, version, program);
    if |data| > 6 && version <= 16 {
      DataReencodes(hrp, data);
    } else {
      assert |hrp + "1" + Chars(Sealed(hrp, version, program))| > |hrp| + 7;
    }
  }

  /** What the decoder accepts re-encodes to its lower-case form exactly when the version is at most 16 and there is
      at least one data symbol besides the checksum. */
  lemma ReencodeExactly(m: CaseMap, addr: string)
    requires Decode(m, addr).Ok?
    ensures var (hrp, version, program) := Decode(m, addr).value;
            Encode(hrp, version, program) == Ok(m.lower(addr)) <==>
            version <= 16 && |m.lower(addr)| > |hrp| + 7
  {
    ReadParts(m, addr);
    var (hrp, data) := ReadAddress(m, addr).value;
    DataReencodesExactly(hrp, data);
  }

  lemma SplitAt(a: string, sep: nat)
    requires sep < |a| && a[sep] == '1'
    ensures a == a[..sep] + "1" + a[sep + 1..]
  {
  }

  /** The parts that are read, put together again, are the lower case of the address. */
  lemma ReadParts(m: CaseMap, addr: string)
    requires ReadAddress(m, addr).Ok?
    ensures var (hrp, data) := ReadAddress(m, addr).value; m.lower(addr) == hrp + "1" + Chars(data)
  {
    var a := m.lower(addr);
    var sep := LastOne(a);
    CharsSymbols(a[sep + 1..]);
    SplitAt(a, sep);
  }

  /** Exactly these addresses are read: one case, 1 to 90 characters, a prefix, the last '1', and at least six
      characters of the set behind it. */
  lemma ReadExactly(m: CaseMap, addr: string, hrp: string, data: seq<u5>)
    ensures ReadAddress(m, addr) == Ok((hrp, data)) <==>
            && 0 < |addr| <= 90 && (m.lower(addr) == addr || m.upper(addr) == addr)
            && hrp != "" && |data| >= 6 && m.lower(addr) == hrp + "1" + Chars(data)
  {
    hide Chars, Symbols, LastOne;
    if ReadAddress(m, addr) == Ok((hrp, data)) {
      ReadParts(m, addr);
    } else if |data| >= 6 && m.lower(addr) == hrp + "1" + Chars(data) {
      AddressParts(hrp, data);
      SymbolsChars(data);
    }
  }

  /** What is accepted, and as what: the symbols read start with the version, their register ends at the constant of
      that version, the ones between version and checksum regroup to the program, and a program of version 0 has 20 or
      32 bytes. */
  lemma DecodesExactly(m: CaseMap, addr: string, hrp: string, version: u5, program: bytes)
    ensures Decode(m, addr) == Ok((hrp, version, program)) <==>
            exists data: seq<u5> ::
              && ReadAddress(m, addr) == Ok((hrp, data)) && data[0] == version
              && Polymod(HrpExpand(hrp) + data) == (if version == 0 then 1 else 0x2BC830A3)
              && Regroup(if |data| == 6 then [] else data[1..|data| - 6], 5, 8, false) == Some(program)
              && (version == 0 ==> |program| == 20 || |program| == 32)
  {
    hide ReadAddress, Polymod, Regroup, HrpExpand;
    if ReadAddress(m, addr).Ok? {
      var (h, data) := ReadAddress(m, addr).value;
      DecodeDataIs(h, data);
    }
  }

  /** An ASCII address with letters of both cases is refused. */
  lemma MixedCaseRefused(m: CaseMap, addr: string, i: nat, j: nat)
    requires LowersAscii(m) && RaisesAscii(m) && IsAscii(addr) && i < |addr| && j < |addr|
    requires 'A' <= addr[i] <= 'Z' && 'a' <= addr[j] <= 'z'
    ensures Decode(m, addr).Err?
  {
    assert AsciiLower(addr)[i] != addr[i] && AsciiUpper(addr)[j] != addr[j];
  }

  lemma SixChars()
    ensures "d" + "1" + Chars([13, 28, 31, 0, 3, 21]) == "d1dulqr4"
  {
    CharPlace(0);
  }

  /** Six symbols and no version symbol of their own: accepted as version 13 with an empty program, and re-encoded to
      a longer address. */
  lemma SixSymbolsDoNotReencode(m: CaseMap)
    requires LowersAscii(m)
    ensures Decode(m, "d1dulqr4") == Ok(("d", 13, []))
    ensures Encode("d", 13, []) != Ok("d1dulqr4")
  {
    var data: seq<u5> := [13, 28, 31, 0, 3, 21];
    hide Chars;
    SixChars();
    SixSymbolsVerify();
    DecodeDataIs("d", data);
    ReadLower(m, "d", data);
    EncodeIs("d", 13, []);
  }

  lemma StepValue(chk: bv30, v: word, next: bv30)
    requires || (chk == 1 && v == 3 && next == 0x23)
             || (chk == 0x23 && v == 0 && next == 0x460)
             || (chk == 0x460 && v == 4 && next == 0x8c04)
             || (chk == 0x8c04 && v == 13 && next == 0x11808d)
             || (chk == 0x11808d && v == 28 && next == 0x23011bc)
             || (chk == 0x23011bc && v == 31 && next == 0x3d68602d)
             || (chk == 0x3d68602d && v == 0 && next == 0x2abc359)
             || (chk == 0x2abc359 && v == 3 && next == 0x2e123c91)
             || (chk == 0x2e123c91 && v == 21 && next == 0x2BC830A3)
    ensures Step(chk, Word(v)) == next
  {
  }

  lemma NextStep(v: seq<word>, n: nat, x: word, before: bv30, after: bv30)
    requires n < |v| && v[n] == x && Fold(1, v[..n]) == before
    requires Step(before, Word(x)) == after
    ensures Fold(1, v[..n + 1]) == after
  {
    assert v[..n + 1][..n] == v[..n];
  }

  lemma FirstThree(v: seq<word>)
    requires |v| >= 3 && v[0] == 3 && v[1] == 0 && v[2] == 4
    ensures Fold(1, v[..3]) == 0x8c04
  {
    StepValue(1, 3, 0x23);
    NextStep(v, 0, 3, 1, 0x23);
    StepValue(0x23, 0, 0x460);
    NextStep(v, 1, 0, 0x23, 0x460);
    StepValue(0x460, 4, 0x8c04);
    NextStep(v, 2, 4, 0x460, 0x8c04);
  }

  lemma FirstSix(v: seq<word>)
    requires |v| >= 6 && v[3] == 13 && v[4] == 28 && v[5] == 31 && Fold(1, v[..3]) == 0x8c04
    ensures Fold(1, v[..6]) == 0x3d68602d
  {
    StepValue(0x8c04, 13, 0x11808d);
    NextStep(v, 3, 13, 0x8c04, 0x11808d);
    StepValue(0x11808d, 28, 0x23011bc);
    NextStep(v, 4, 28, 0x11808d, 0x23011bc);
    StepValue(0x23011bc, 31, 0x3d68602d);
    NextStep(v, 5, 31, 0x23011bc, 0x3d68602d);
  }

  lemma AllNine(v: seq<word>)
    requires |v| == 9 && v[6] == 0 && v[7] == 3 && v[8] == 21 && Fold(1, v[..6]) == 0x3d68602d
    ensures Fold(1, v) == 0x2BC830A3
  {
    StepValue(0x3d68602d, 0, 0x2abc359);
    NextStep(v, 6, 0, 0x3d68602d, 0x2abc359);
    StepValue(0x2abc359, 3, 0x2e123c91);
    NextStep(v, 7, 3, 0x2abc359, 0x2e123c91);
    StepValue(0x2e123c91, 21, 0x2BC830A3);
    NextStep(v, 8, 21, 0x2e123c91, 0x2BC830A3);
    assert v[..9] == v;
  }

  lemma SixSymbolsVerify()
    ensures Polymod(HrpExpand("d") + [13, 28, 31, 0, 3, 21]) == BECH32M_CONST
  {
    assert HrpExpand("d") == [3, 0, 4];
    var v := HrpExpand("d") + [13, 28, 31, 0, 3, 21];
    FirstThree(v);
    FirstSix(v);
    AllNine(v);
  }

  /** An accepted address with any change confined to six neighbouring symbols is refused, unless the change turns a
      version 0 into another version or back and so moves to the other constant. */
  lemma BurstRefused(hrp: string, data: seq<u5>, wrong: seq<u5>, at: nat)
    requires |data| == |wrong| && at + 6 <= |data|
    requires data != wrong && data[..at] == wrong[..at] && data[at + 6..] == wrong[at + 6..]
    requires data[0] == 0 <==> wrong[0] == 0
    requires DecodeData(hrp, data).Ok?
    ensures DecodeData(hrp, wrong).Err?
  {
    BurstInAddress(hrp, data, wrong, at);
    DecodeDataIs(hrp, data);
    DecodeDataIs(hrp, wrong);
  }

  lemma BurstInAddress(hrp: string, data: seq<u5>, wrong: seq<u5>, at: nat)
    requires |data| == |wrong| && at + 6 <= |data|
    requires data != wrong && data[..at] == wrong[..at] && data[at + 6..] == wrong[at + 6..]
    ensures Polymod(HrpExpand(hrp) + data) != Polymod(HrpExpand(hrp) + wrong)
  {
    var a, b := data[at..at + 6], wrong[at..at + 6];
    var pre: seq<word>, post: seq<word> := HrpExpand(hrp) + data[..at], data[at + 6..];
    assert data == data[..at] + a + post && wrong == data[..at] + b + post;
    assert HrpExpand(hrp) + data == pre + a + post;
    assert HrpExpand(hrp) + wrong == pre + b + post;
    BurstChanges(pre, a, b, post);
  }
}
