/** Stellar StrKeys (SEP-0023): CRC16-XMODEM and the unpadded base32 of RFC 4648: recto/stellar.py:121-201. */
module StrKey {
  import opened Wrappers
  import opened Digits
  import opened Alphabets
  import opened BitGroups

  // ------------------------------------------------------------------ CRC16-XMODEM

  function Xor(a: bv16, b: bv16): bv16 {
    a ^ b
  }

  function Nibbles(high: bv4, low: bv4): bv16 {
    ((high as bv16) << 4) | (low as bv16)
  }

  /** A byte as sixteen bits. Numbers and bits meet four bits at a time. */
  function Wide(b: byte): bv16 {
    Nibbles((b / 16) as bv4, (b % 16) as bv4)
  }

  predicate TopSet(crc: bv16) {
    crc & 0x8000 != 0
  }

  function Twice(w: bv16): bv16 {
    w << 1
  }

  function Tapped(crc: bv16): bv16 {
    (crc << 1) ^ 0x1021
  }

  function BitStep(crc: bv16): bv16 {
    if TopSet(crc) then Tapped(crc) else Twice(crc)
  }

  function Bits(crc: bv16, n: nat): bv16 {
    if n == 0 then crc else BitStep(Bits(crc, n - 1))
  }

  function High(b: bv16): bv16 {
    b << 8
  }

  /** One byte enters at the top and is shifted through. */
  function ByteStep(crc: bv16, b: byte): bv16 {
    Bits(Xor(crc, High(Wide(b))), 8)
  }

  function Fold(crc: bv16, data: bytes): bv16 {
    if |data| == 0 then crc else ByteStep(Fold(crc, data[..|data| - 1]), data[|data| - 1])
  }

  function Crc(data: bytes): bv16 {
    Fold(0, data)
  }

  /** The two loops of the source meet the checksum's definition. */
  method Crc16Xmodem(data: bytes) returns (crc: bv16)
    ensures crc == Crc(data)
  {
    crc := 0;
    for n := 0 to |data|
      invariant crc == Fold(0, data[..n])
    {
      assert data[..n + 1][..n] == data[..n];
      crc := Xor(crc, High(Wide(data[n])));
      ghost var entered := crc;
      for i := 0 to 8
        invariant crc == Bits(entered, i)
      {
        crc := BitStep(crc);
      }
    }
    assert data[..|data|] == data;
  }

  lemma BitStepInjective(a: bv16, b: bv16)
    requires BitStep(a) == BitStep(b)
    ensures a == b
  {
    OddWhenTapped(a);
    OddWhenTapped(b);
    if TopSet(a) {
      TappedInjective(a, b);
    } else {
      TwiceInjective(a, b);
    }
  }

  /** The lowest bit after a step tells whether the highest one was set before it. */
  lemma OddWhenTapped(crc: bv16)
    ensures (BitStep(crc) & 1 != 0) == TopSet(crc)
  {
  }

  lemma TappedInjective(a: bv16, b: bv16)
    requires TopSet(a) && TopSet(b) && Tapped(a) == Tapped(b)
    ensures a == b
  {
  }

  lemma TwiceInjective(a: bv16, b: bv16)
    requires !TopSet(a) && !TopSet(b) && Twice(a) == Twice(b)
    ensures a == b
  {
  }

  lemma {:induction false} BitsInjective(a: bv16, b: bv16, n: nat)
    requires Bits(a, n) == Bits(b, n)
    ensures a == b
  {
    if n > 0 {
      BitStepInjective(Bits(a, n - 1), Bits(b, n - 1));
      BitsInjective(a, b, n - 1);
    }
  }

  lemma XorInjective(a: bv16, b: bv16, c: bv16)
    requires Xor(a, c) == Xor(b, c)
    ensures a == b
  {
  }

  lemma {:induction false} FoldInjective(a: bv16, b: bv16, data: bytes)
    requires Fold(a, data) == Fold(b, data)
    ensures a == b
  {
    if |data| > 0 {
      var n := |data| - 1;
      var x, y, top := Fold(a, data[..n]), Fold(b, data[..n]), High(Wide(data[n]));
      BitsInjective(Xor(x, top), Xor(y, top), 8);
      XorInjective(x, y, top);
      FoldInjective(a, b, data[..n]);
    }
  }

  lemma {:induction false} FoldAppend(crc: bv16, a: bytes, b: bytes)
    ensures Fold(crc, a + b) == Fold(Fold(crc, a), b)
  {
    if |b| == 0 {
      assert a + b == a;
    } else {
      assert (a + b)[..|a + b| - 1] == a + b[..|b| - 1];
      FoldAppend(crc, a, b[..|b| - 1]);
    }
  }

  // ------------------------------------------------------------------ two bytes at once

  function ShiftUp(w: bv16, n: nat): bv16 {
    if n == 0 then w else Twice(ShiftUp(w, n - 1))
  }

  lemma TwiceEight(w: bv16)
    ensures Twice(Twice(Twice(Twice(Twice(Twice(Twice(Twice(w)))))))) == High(w)
  {
  }

  lemma ShiftEight(w: bv16)
    ensures ShiftUp(w, 8) == High(w)
  {
    TwiceEight(w);
    assert ShiftUp(w, 1) == Twice(ShiftUp(w, 0));
    assert ShiftUp(w, 2) == Twice(Twice(w));
    assert ShiftUp(w, 4) == Twice(Twice(ShiftUp(w, 2)));
    assert ShiftUp(w, 6) == Twice(Twice(ShiftUp(w, 4)));
  }

  predicate Below(w: bv16, n: nat) {
    match n
    case 0 => w < 0x100
    case 1 => w < 0x200
    case 2 => w < 0x400
    case 3 => w < 0x800
    case 4 => w < 0x1000
    case 5 => w < 0x2000
    case 6 => w < 0x4000
    case 7 => w < 0x8000
    case _ => true
  }

  lemma BelowStep(w: bv16, n: nat)
    requires n < 8 && Below(w, n)
    ensures Below(Twice(w), n + 1) && w < 0x8000
  {
    match n
    case 0 =>
    case 1 =>
    case 2 =>
    case 3 =>
    case 4 =>
    case 5 =>
    case 6 =>
    case _ => assert n == 7;
  }

  lemma BitStepLow(z: bv16, w: bv16)
    requires w < 0x8000
    ensures BitStep(Xor(z, w)) == Xor(BitStep(z), Twice(w))
  {
    TopKept(z, w);
    if TopSet(z) {
      TappedLow(z, w);
    } else {
      TwiceLow(z, w);
    }
  }

  lemma TopKept(z: bv16, w: bv16)
    requires w < 0x8000
    ensures TopSet(Xor(z, w)) == TopSet(z)
  {
  }

  lemma TappedLow(z: bv16, w: bv16)
    ensures Tapped(Xor(z, w)) == Xor(Tapped(z), Twice(w))
  {
  }

  lemma TwiceLow(z: bv16, w: bv16)
    ensures Twice(Xor(z, w)) == Xor(Twice(z), Twice(w))
  {
  }

  /** A byte at the bottom of the register rises to the top untouched in eight steps. */
  lemma {:induction false} BitsLow(z: bv16, w: bv16, n: nat)
    requires n <= 8 && w < 0x100
    ensures Below(ShiftUp(w, n), n)
    ensures Bits(Xor(z, w), n) == Xor(Bits(z, n), ShiftUp(w, n))
  {
    if n > 0 {
      BitsLow(z, w, n - 1);
      BelowStep(ShiftUp(w, n - 1), n - 1);
      BitStepLow(Bits(z, n - 1), ShiftUp(w, n - 1));
    }
  }

  lemma WideSmall(b: byte)
    ensures Wide(b) < 0x100
  {
    NibblesSmall((b / 16) as bv4, (b % 16) as bv4);
  }

  lemma WideInjective(a: byte, b: byte)
    requires Wide(a) == Wide(b)
    ensures a == b
  {
    NibblesInjective((a / 16) as bv4, (a % 16) as bv4, (b / 16) as bv4, (b % 16) as bv4);
    NibbleNumber(a / 16);
    NibbleNumber(a % 16);
    NibbleNumber(b / 16);
    NibbleNumber(b % 16);
  }

  lemma NibblesInjective(h: bv4, l: bv4, h': bv4, l': bv4)
    requires Nibbles(h, l) == Nibbles(h', l')
    ensures h == h' && l == l'
  {
  }

  lemma NibblesSmall(h: bv4, l: bv4)
    ensures Nibbles(h, l) < 0x100
  {
  }

  lemma NibbleNumber(n: nat)
    requires n < 16
    ensures (n as bv4) as nat == n
  {
  }

  lemma {:induction false} BitsAdd(z: bv16, m: nat, n: nat)
    ensures Bits(Bits(z, m), n) == Bits(z, m + n)
  {
    if n > 0 {
      BitsAdd(z, m, n - 1);
    }
  }

  /** Two bytes enter as one sixteen-bit word. */
  lemma TwoBytes(crc: bv16, x: byte, y: byte)
    ensures ByteStep(ByteStep(crc, x), y) == Bits(Xor(Xor(crc, High(Wide(x))), Wide(y)), 16)
  {
    var z := Xor(crc, High(Wide(x)));
    WideSmall(y);
    BitsLow(z, Wide(y), 8);
    ShiftEight(Wide(y));
    BitsAdd(Xor(z, Wide(y)), 8, 8);
  }

  lemma WordInjective(crc: bv16, x: bv16, y: bv16, v: bv16, w: bv16)
    requires x < 0x100 && y < 0x100 && v < 0x100 && w < 0x100
    requires Xor(Xor(crc, High(x)), y) == Xor(Xor(crc, High(v)), w)
    ensures x == v && y == w
  {
    XorSwap(crc, High(x), y);
    XorSwap(crc, High(v), w);
    XorInjective(Xor(High(x), y), Xor(High(v), w), crc);
    HighXorInjective(x, y, v, w);
  }

  lemma XorSwap(a: bv16, b: bv16, c: bv16)
    ensures Xor(Xor(a, b), c) == Xor(Xor(b, c), a)
  {
  }

  lemma HighXorInjective(x: bv16, y: bv16, v: bv16, w: bv16)
    requires x < 0x100 && y < 0x100 && v < 0x100 && w < 0x100
    requires Xor(High(x), y) == Xor(High(v), w)
    ensures x == v && y == w
  {
  }

  /** Any change confined to two neighbouring bytes changes the checksum, at any length. */
  lemma PairChanges(pre: bytes, x: byte, y: byte, v: byte, w: byte, post: bytes)
    requires x != v || y != w
    ensures Crc(pre + [x, y] + post) != Crc(pre + [v, w] + post)
  {
    var c := Crc(pre);
    FoldAppend(0, pre + [x, y], post);
    FoldAppend(0, pre + [v, w], post);
    FoldAppend(0, pre, [x, y]);
    FoldAppend(0, pre, [v, w]);
    FoldTwo(c, x, y);
    FoldTwo(c, v, w);
    if Fold(Fold(c, [x, y]), post) == Fold(Fold(c, [v, w]), post) {
      FoldInjective(Fold(c, [x, y]), Fold(c, [v, w]), post);
      TwoBytes(c, x, y);
      TwoBytes(c, v, w);
      BitsInjective(Xor(Xor(c, High(Wide(x))), Wide(y)), Xor(Xor(c, High(Wide(v))), Wide(w)), 16);
      WideSmall(x);
      WideSmall(y);
      WideSmall(v);
      WideSmall(w);
      WordInjective(c, Wide(x), Wide(y), Wide(v), Wide(w));
      if x != v {
        WideInjective(x, v);
      } else {
        WideInjective(y, w);
      }
    }
  }

  lemma FoldTwo(c: bv16, x: byte, y: byte)
    ensures Fold(c, [x, y]) == ByteStep(ByteStep(c, x), y)
  {
    assert [x, y][..1] == [x] && [x][..0] == [];
    assert Fold(c, [x]) == ByteStep(c, x);
  }

  /** Changing one byte changes the checksum. */
  lemma ByteChanges(pre: bytes, x: byte, v: byte, post: bytes)
    requires x != v
    ensures Crc(pre + [x] + post) != Crc(pre + [v] + post)
  {
    var c := Crc(pre);
    FoldAppend(0, pre + [x], post);
    FoldAppend(0, pre + [v], post);
    FoldAppend(0, pre, [x]);
    FoldAppend(0, pre, [v]);
    assert [x][..0] == [] && [v][..0] == [];
    if Fold(Fold(c, [x]), post) == Fold(Fold(c, [v]), post) {
      FoldInjective(Fold(c, [x]), Fold(c, [v]), post);
      BitsInjective(Xor(c, High(Wide(x))), Xor(c, High(Wide(v))), 8);
      WideSmall(x);
      WideSmall(v);
      WordInjective(c, Wide(x), 0, Wide(v), 0);
      WideInjective(x, v);
    }
  }

  // ------------------------------------------------------------------ the bytes of a StrKey

  function ByteOf(x: bv8): byte {
    16 * (HighNibble(x) as nat) + (LowNibble(x) as nat)
  }

  function HighNibble(x: bv8): bv4 {
    (x >> 4) as bv4
  }

  function LowNibble(x: bv8): bv4 {
    (x & 15) as bv4
  }

  function Low8(crc: bv16): bv8 {
    (crc & 0xFF) as bv8
  }

  function Top8(crc: bv16): bv8 {
    (crc >> 8) as bv8
  }

  function Low(crc: bv16): byte {
    ByteOf(Low8(crc))
  }

  function Top(crc: bv16): byte {
    ByteOf(Top8(crc))
  }

  /** The checksum follows the head with its low byte first. */
  function Seal(head: bytes): bytes {
    head + [Low(Crc(head)), Top(Crc(head))]
  }

  function Joined(low: byte, high: byte): bv16 {
    Join(Wide(low), Wide(high))
  }

  /** The version byte and payload, once the checksum has been compared. */
  function Unseal(raw: bytes): Result<(byte, bytes)> {
    if |raw| < 3 then Err
    else
      var head := raw[..|raw| - 2];
      if Joined(raw[|raw| - 2], raw[|raw| - 1]) != Crc(head) then Err else Ok((head[0], head[1..]))
  }

  lemma JoinedHalves(crc: bv16)
    ensures Joined(Low(crc), Top(crc)) == crc
  {
    WideByte(Low8(crc));
    WideByte(Top8(crc));
    Halves(crc);
  }

  lemma WideByte(x: bv8)
    ensures Wide(ByteOf(x)) == x as bv16
  {
    var h, l := HighNibble(x), LowNibble(x);
    NibbleBits(h);
    NibbleBits(l);
    JoinNibbles(x);
    DivModUnique(16, h as nat, l as nat);
    hide Nibbles, HighNibble, LowNibble;
    assert ByteOf(x) == 16 * (h as nat) + (l as nat);
  }

  lemma JoinNibbles(x: bv8)
    ensures Nibbles(HighNibble(x), LowNibble(x)) == x as bv16
  {
  }

  lemma NibbleBits(x: bv4)
    ensures (x as nat) as bv4 == x
  {
  }

  function Join(low: bv16, high: bv16): bv16 {
    low | High(high)
  }

  lemma Halves(crc: bv16)
    ensures Join(Low8(crc) as bv16, Top8(crc) as bv16) == crc
  {
  }

  lemma JoinedInjective(a: byte, b: byte, c: byte, d: byte)
    requires Joined(a, b) == Joined(c, d)
    ensures a == c && b == d
  {
    WideSmall(a);
    WideSmall(b);
    WideSmall(c);
    WideSmall(d);
    JoinInjective(Wide(a), Wide(b), Wide(c), Wide(d));
    WideInjective(a, c);
    WideInjective(b, d);
  }

  lemma JoinInjective(a: bv16, b: bv16, c: bv16, d: bv16)
    requires a < 0x100 && b < 0x100 && c < 0x100 && d < 0x100
    requires Join(a, b) == Join(c, d)
    ensures a == c && b == d
  {
  }

  lemma UnsealSeal(head: bytes)
    requires |head| > 0
    ensures Unseal(Seal(head)) == Ok((head[0], head[1..]))
  {
    var raw := Seal(head);
    assert raw[..|raw| - 2] == head;
    JoinedHalves(Crc(head));
  }

  lemma SealUnseal(raw: bytes)
    requires Unseal(raw).Ok?
    ensures Seal([Unseal(raw).value.0] + Unseal(raw).value.1) == raw
  {
    var head := raw[..|raw| - 2];
    assert [head[0]] + head[1..] == head;
    JoinedHalves(Crc(head));
    JoinedInjective(raw[|raw| - 2], raw[|raw| - 1], Low(Crc(head)), Top(Crc(head)));
    assert raw == head + [raw[|raw| - 2], raw[|raw| - 1]];
  }

  /** The raw bytes `b` differ from `a` at `at` alone. */
  ghost predicate OneByteOff(a: bytes, b: bytes, at: nat) {
    |a| == |b| && at < |a| && a[at] != b[at] && a[..at] == b[..at] && a[at + 1..] == b[at + 1..]
  }

  lemma SplitByte(a: bytes, b: bytes, at: nat, n: nat)
    requires OneByteOff(a, b, at) && at < n <= |a|
    ensures a[..n] == a[..at] + [a[at]] + a[at + 1..n]
    ensures b[..n] == a[..at] + [b[at]] + a[at + 1..n]
    ensures a[n..] == b[n..]
  {
    assert b[at + 1..n] == b[at + 1..][..n - at - 1] == a[at + 1..][..n - at - 1] == a[at + 1..n];
    assert a[n..] == a[at + 1..][n - at - 1..] && b[n..] == b[at + 1..][n - at - 1..];
  }

  /** A StrKey with any single byte changed, version, payload or checksum, is refused. */
  lemma OneByteRefused(raw: bytes, wrong: bytes, at: nat)
    requires Unseal(raw).Ok? && OneByteOff(raw, wrong, at)
    ensures Unseal(wrong).Err?
  {
    hide Crc, Joined;
    var n := |raw| - 2;
    if at < n {
      SplitByte(raw, wrong, at, n);
      ByteChanges(raw[..at], raw[at], wrong[at], raw[at + 1..n]);
      assert raw[n..][0] == wrong[n..][0] && raw[n..][1] == wrong[n..][1];
    } else {
      assert raw[..n] == raw[..at][..n] == wrong[..at][..n] == wrong[..n];
      if Joined(wrong[n], wrong[n + 1]) == Joined(raw[n], raw[n + 1]) {
        JoinedInjective(wrong[n], wrong[n + 1], raw[n], raw[n + 1]);
      }
    }
  }

  // ------------------------------------------------------------------ two wrong bytes

  lemma BitStepLinear(a: bv16, b: bv16)
    ensures BitStep(Xor(a, b)) == Xor(BitStep(a), BitStep(b))
  {
    hide TopSet, Tapped, Twice, Xor;
    TopXor(a, b);
    XorComm(a, b);
    if TopSet(a) && TopSet(b) {
      TappedBoth(a, b);
    } else if TopSet(a) {
      TappedLow(a, b);
    } else if TopSet(b) {
      TappedLow(b, a);
      XorComm(Tapped(b), Twice(a));
    } else {
      TwiceLow(a, b);
    }
  }

  lemma TopXor(a: bv16, b: bv16)
    ensures TopSet(Xor(a, b)) <==> TopSet(a) != TopSet(b)
  {
  }

  lemma XorComm(a: bv16, b: bv16)
    ensures Xor(a, b) == Xor(b, a)
  {
  }

  lemma TappedBoth(a: bv16, b: bv16)
    ensures Twice(Xor(a, b)) == Xor(Tapped(a), Tapped(b))
  {
  }

  lemma {:induction false} BitsLinear(a: bv16, b: bv16, n: nat)
    ensures Bits(Xor(a, b), n) == Xor(Bits(a, n), Bits(b, n))
  {
    hide BitStep, Xor;
    if n > 0 {
      BitsLinear(a, b, n - 1);
      BitStepLinear(Bits(a, n - 1), Bits(b, n - 1));
    }
  }

  /** What a difference in a byte makes of the checksum once it is shifted through. */
  function Table(d: bv16): bv16 {
    Bits(High(d), 8)
  }

  /** The one difference that leaves the high byte of the checksum alone. */
  lemma LowDifference(d: bv16, x1: bv16, x2: bv16, x3: bv16, x4: bv16, x5: bv16, x6: bv16, x7: bv16, x8: bv16)
    requires d < 0x100
    requires x1 == BitStep(High(d)) && x2 == BitStep(x1) && x3 == BitStep(x2) && x4 == BitStep(x3)
    requires x5 == BitStep(x4) && x6 == BitStep(x5) && x7 == BitStep(x6) && x8 == BitStep(x7)
    ensures x8 < 0x100 <==> (d == 0 && x8 == 0) || (d == 0x89 && x8 == 0xA1)
  {
  }

  lemma TableLow(d: bv16)
    requires d < 0x100
    ensures Table(d) < 0x100 <==> (d == 0 && Table(d) == 0) || (d == 0x89 && Table(d) == 0xA1)
  {
    hide BitStep, High;
    var x0 := High(d);
    assert Bits(x0, 2) == BitStep(Bits(x0, 1)) && Bits(x0, 1) == BitStep(x0);
    assert Bits(x0, 4) == BitStep(Bits(x0, 3)) && Bits(x0, 3) == BitStep(Bits(x0, 2));
    assert Bits(x0, 6) == BitStep(Bits(x0, 5)) && Bits(x0, 5) == BitStep(Bits(x0, 4));
    assert Bits(x0, 8) == BitStep(Bits(x0, 7)) && Bits(x0, 7) == BitStep(Bits(x0, 6));
    LowDifference(d, Bits(x0, 1), Bits(x0, 2), Bits(x0, 3), Bits(x0, 4), Bits(x0, 5), Bits(x0, 6), Bits(x0, 7),
                  Bits(x0, 8));
  }

  lemma HighSmall(a: bv16, b: bv16)
    ensures Xor(High(a), High(b)) == High(Xor(a, b))
  {
  }

  /** The same register, two bytes: the checksums differ by what the table says of the bytes' difference. */
  lemma ByteStepDifference(c: bv16, x: byte, v: byte)
    ensures ByteStep(c, v) == Xor(ByteStep(c, x), Table(Xor(Wide(x), Wide(v))))
  {
    hide Xor, High, Wide, Bits;
    var a, b := High(Wide(x)), High(Wide(v));
    BitsLinear(Xor(c, a), Xor(a, b), 8);
    XorTwice(c, a, b);
    HighSmall(Wide(x), Wide(v));
  }

  lemma XorTwice(c: bv16, a: bv16, b: bv16)
    ensures Xor(Xor(c, a), Xor(a, b)) == Xor(c, b)
  {
  }

  /** Changing the low byte stored behind the head shifts what it has to match. */
  lemma JoinDifference(l: bv16, m: bv16, h: bv16, crc: bv16, t: bv16)
    requires l < 0x100 && m < 0x100 && Join(l, h) == crc
    ensures Join(m, h) == Xor(crc, t) <==> Xor(l, m) == t
  {
    hide Join, Xor;
    JoinXor(l, m, h);
    XorComm(crc, t);
    XorComm(crc, Xor(l, m));
    if Xor(crc, t) == Xor(crc, Xor(l, m)) {
      XorInjective(t, Xor(l, m), crc);
    }
  }

  lemma JoinXor(l: bv16, m: bv16, h: bv16)
    requires l < 0x100 && m < 0x100
    ensures Join(m, h) == Xor(Join(l, h), Xor(l, m))
  {
  }

  lemma WideDifference(x: byte, v: byte)
    ensures Xor(Wide(x), Wide(v)) < 0x100
    ensures Xor(Wide(x), Wide(v)) == 0 <==> x == v
  {
    WideSmall(x);
    WideSmall(v);
    XorSmall(Wide(x), Wide(v));
    if Wide(x) == Wide(v) {
      WideInjective(x, v);
    }
  }

  lemma XorSmall(a: bv16, b: bv16)
    requires a < 0x100 && b < 0x100
    ensures Xor(a, b) < 0x100 && (Xor(a, b) == 0 <==> a == b)
  {
  }

  /** The one pair of differences that the last byte before the checksum and the low byte of the checksum can hide. */
  predicate Masked(x: byte, v: byte, l: byte, m: byte) {
    Xor(Wide(x), Wide(v)) == 0x89 && Xor(Wide(l), Wide(m)) == 0xA1
  }

  lemma StraddleExactly(pre: bytes, x: byte, v: byte, l: byte, m: byte, h: byte)
    requires Joined(l, h) == Crc(pre + [x]) && (x != v || l != m)
    ensures Joined(m, h) == Crc(pre + [v]) <==> Masked(x, v, l, m)
  {
    hide Xor, Wide, Join, High;
    var c := Fold(0, pre);
    var d, e := Xor(Wide(x), Wide(v)), Xor(Wide(l), Wide(m));
    LastByte(pre, x);
    LastByte(pre, v);
    ByteStepDifference(c, x, v);
    WideSmall(l);
    WideSmall(m);
    JoinDifference(Wide(l), Wide(m), Wide(h), ByteStep(c, x), Table(d));
    WideDifference(x, v);
    WideDifference(l, m);
    TableLow(d);
    TableHidden(d);
  }

  lemma TableHidden(d: bv16)
    ensures d == 0x89 ==> Table(d) == 0xA1
    ensures d == 0 ==> Table(d) == 0
  {
    TableLow(0x89);
    TableLow(0);
  }

  lemma LastByte(pre: bytes, x: byte)
    ensures Crc(pre + [x]) == ByteStep(Fold(0, pre), x)
  {
    assert (pre + [x])[..|pre|] == pre;
  }

  /** The raw bytes `b` differ from `a`, and only at `at` and the byte after it. */
  ghost predicate TwoBytesOff(a: bytes, b: bytes, at: nat) {
    |a| == |b| && at + 1 < |a| && a != b && a[..at] == b[..at] && a[at + 2..] == b[at + 2..]
  }

  lemma SplitPair(a: bytes, b: bytes, at: nat, n: nat)
    requires TwoBytesOff(a, b, at) && at + 2 <= n <= |a|
    ensures a[..n] == a[..at] + [a[at], a[at + 1]] + a[at + 2..n]
    ensures b[..n] == a[..at] + [b[at], b[at + 1]] + a[at + 2..n]
    ensures a[n..] == b[n..]
    ensures a[at] != b[at] || a[at + 1] != b[at + 1]
  {
    assert b[at + 2..n] == b[at + 2..][..n - at - 2] == a[at + 2..][..n - at - 2] == a[at + 2..n];
    assert a[n..] == a[at + 2..][n - at - 2..] && b[n..] == b[at + 2..][n - at - 2..];
    assert a == a[..at] + [a[at], a[at + 1]] + a[at + 2..] && b == b[..at] + [b[at], b[at + 1]] + b[at + 2..];
  }

  /** A StrKey with two neighbouring bytes changed, wherever they stand, is refused, but for one pair of differences
      across the border between payload and checksum. */
  lemma PairRefusedExactly(raw: bytes, wrong: bytes, at: nat)
    requires Unseal(raw).Ok? && TwoBytesOff(raw, wrong, at)
    ensures Unseal(wrong).Ok? <==>
            at == |raw| - 3 && Masked(raw[at], wrong[at], raw[at + 1], wrong[at + 1])
  {
    hide Crc, Joined, Masked;
    var n := |raw| - 2;
    if at + 2 <= n {
      SplitPair(raw, wrong, at, n);
      PairChanges(raw[..at], raw[at], raw[at + 1], wrong[at], wrong[at + 1], raw[at + 2..n]);
      assert raw[n..][0] == wrong[n..][0] && raw[n..][1] == wrong[n..][1];
    } else if at == n {
      SplitPair(raw, wrong, at, |raw|);
      assert raw[..n] == wrong[..n];
      if Joined(wrong[n], wrong[n + 1]) == Joined(raw[n], raw[n + 1]) {
        JoinedInjective(wrong[n], wrong[n + 1], raw[n], raw[n + 1]);
      }
    } else {
      SplitPair(raw, wrong, at, n + 1);
      assert raw[n + 1..][0] == wrong[n + 1..][0];
      assert raw[..n] == raw[..at] + [raw[at]] && wrong[..n] == raw[..at] + [wrong[at]];
      StraddleExactly(raw[..at], raw[at], wrong[at], raw[n], wrong[n], raw[n + 1]);
    }
  }

  // ------------------------------------------------------------------ base32 text

  const ALPHABET: string := "ABCDEFGHIJKLMNOPQRSTUVWXYZ234567"

  function Letter(d: nat): char
    requires d < 32
  {
    if d < 26 then 'A' + d as char else '2' + (d - 26) as char
  }

  lemma AlphabetIs(d: nat)
    requires d < 32
    ensures |ALPHABET| == 32 && ALPHABET[d] == Letter(d)
  {
  }

  lemma LettersDistinct()
    ensures |ALPHABET| == 32 && Distinct(ALPHABET)
  {
    AlphabetIs(0);
    forall i, j | 0 <= i < j < |ALPHABET|
      ensures ALPHABET[i] != ALPHABET[j]
    {
      AlphabetIs(i);
      AlphabetIs(j);
    }
  }

  /** Symbols as base32 text, and back. */
  function Spell(syms: seq<nat>): (s: string)
    requires InRange(syms, 5)
    ensures |s| == |syms|
  {
    assert Pow2(5) == 32;
    AlphabetIs(0);
    Text(ALPHABET, syms)
  }

  function Symbols(s: string): (r: Result<seq<nat>>)
    ensures r.Ok? ==> |r.value| == |s| && InRange(r.value, 5)
  {
    assert Pow2(5) == 32;
    AlphabetIs(0);
    Indices(ALPHABET, s)
  }

  lemma SpellIs(syms: seq<nat>, i: nat)
    requires InRange(syms, 5) && i < |syms|
    ensures Pow2(5) == 32 && Spell(syms)[i] == Letter(syms[i])
  {
    assert Pow2(5) == 32;
    AlphabetIs(syms[i]);
  }

  lemma SymbolsSpell(syms: seq<nat>)
    requires InRange(syms, 5)
    ensures Symbols(Spell(syms)) == Ok(syms)
  {
    assert Pow2(5) == 32;
    LettersDistinct();
    IndicesText(ALPHABET, syms);
  }

  lemma SpellSymbols(s: string)
    requires Symbols(s).Ok?
    ensures Spell(Symbols(s).value) == s
  {
    TextIndices(ALPHABET, s);
  }

  function RStrip(s: string): (r: string)
    ensures |r| <= |s| && r == s[..|r|]
    ensures |r| > 0 ==> r[|r| - 1] != '='
  {
    if |s| > 0 && s[|s| - 1] == '=' then RStrip(s[..|s| - 1]) else s
  }

  function Equals(n: nat): (s: string)
    ensures |s| == n && forall i | 0 <= i < n :: s[i] == '='
  {
    seq(n, i => '=')
  }

  /** The bytes that whole symbols make up; up to four bits left over are dropped without being looked at. */
  function Cut(syms: seq<nat>): bytes
    requires InRange(syms, 5)
  {
    assert Pow2(8) == 256;
    DivMod(8, |syms| * 5);
    Fixed(256, |syms| * 5 / 8, Stream(syms, 5) / Pow2(|syms| * 5 % 8))
  }

  function Padding(n: nat): nat {
    (8 - n % 8) % 8
  }

  /** The library's base32 decoding of text padded with '=' to a multiple of eight characters. */
  function DecodeBase32(text: string): Result<bytes> {
    var padded := text + Equals(Padding(|text|));
    var body := RStrip(padded);
    var syms :- Symbols(body);
    var pads := |padded| - |body|;
    if pads == 0 || pads == 1 || pads == 3 || pads == 4 || pads == 6 then Ok(Cut(syms)) else Err
  }

  function Encode(version: int, payload: bytes): (r: Result<string>)
    ensures r.Ok? <==> 0 <= version <= 255
  {
    if 0 <= version <= 255 then
      var raw := Seal([version] + payload);
      assert Pow2(8) == 256;
      PadThenCut(raw, 8, 5);
      Ok(Spell(Regroup(raw, 8, 5, true).value))
    else Err
  }

  /** `strip` is the host language's trimming of white space. */
  function Decode(strip: string -> string, text: string): Result<(byte, bytes)> {
    var raw :- DecodeBase32(strip(text));
    Unseal(raw)
  }

  /** Trimming leaves base32 text alone, padded or not. */
  ghost predicate KeepsBase32(strip: string -> string) {
    forall s | Symbols(RStrip(s)).Ok? :: strip(s) == s
  }

  lemma {:induction false} RStripEquals(s: string, n: nat)
    requires |s| > 0 ==> s[|s| - 1] != '='
    ensures RStrip(s + Equals(n)) == s
  {
    if n > 0 {
      assert (s + Equals(n))[..|s| + n - 1] == s + Equals(n - 1);
      RStripEquals(s, n - 1);
    } else {
      assert s + Equals(0) == s;
    }
  }

  lemma NoEquals(s: string)
    requires Symbols(s).Ok? && |s| > 0
    ensures s[|s| - 1] != '='
  {
    SpellSymbols(s);
    AlphabetIs(Symbols(s).value[|s| - 1]);
  }

  /** Base32 text decodes when its length leaves 0, 2, 4, 5 or 7 symbols over a multiple of eight. */
  lemma DecodeSymbols(s: string)
    requires Symbols(s).Ok?
    ensures var k := |s| % 8;
            DecodeBase32(s) ==
            if k == 0 || k == 2 || k == 4 || k == 5 || k == 7 then Ok(Cut(Symbols(s).value)) else Err
  {
    if |s| > 0 {
      NoEquals(s);
    }
    RStripEquals(s, Padding(|s|));
    PaddingAllowed(|s|);
  }

  lemma PaddingAllowed(n: nat)
    ensures var p, k := Padding(n), n % 8;
            p == 0 || p == 1 || p == 3 || p == 4 || p == 6 <==> k == 0 || k == 2 || k == 4 || k == 5 || k == 7
  {
  }

  /** Without stray bits, cutting is the strict regrouping. */
  lemma CutIsRegroup(syms: seq<nat>)
    requires InRange(syms, 5) && Regroup(syms, 5, 8, false).Some?
    ensures Regroup(syms, 5, 8, false) == Some(Cut(syms))
  {
    assert Pow2(8) == 256;
  }

  lemma EncodedLength(raw: bytes, out: nat, p: nat)
    requires p < 5 && out * 5 == |raw| * 8 + p
    ensures var k := out % 8; k == 0 || k == 2 || k == 4 || k == 5 || k == 7
  {
  }

  /** Every version byte and every payload comes back. */
  lemma RoundTrip(strip: string -> string, version: byte, payload: bytes)
    requires KeepsBase32(strip)
    ensures Decode(strip, Encode(version, payload).value) == Ok((version, payload))
  {
    var head := [version] + payload;
    var raw := Seal(head);
    assert Pow2(8) == 256;
    PadThenCut(raw, 8, 5);
    var syms, p := PadStream(raw, 8, 5);
    SymbolsSpell(syms);
    EncodedLength(raw, |syms|, p);
    DecodeSymbols(Spell(syms));
    CutIsRegroup(syms);
    UnsealSeal(head);
  }

  /** Accepted text without padding re-encodes to itself exactly when its left-over bits are zero. */
  lemma UnpaddedReencodes(s: string)
    requires Symbols(s).Ok? && DecodeBase32(s).Ok? && Unseal(DecodeBase32(s).value).Ok?
    ensures var syms := Symbols(s).value;
            var (version, payload) := Unseal(DecodeBase32(s).value).value;
            Encode(version, payload) == Ok(s) <==> Stream(syms, 5) % Pow2(|syms| * 5 % 8) == 0
  {
    var syms := Symbols(s).value;
    DecodeSymbols(s);
    SealUnseal(Cut(syms));
    SpellSymbols(s);
    Leftover(|syms|);
    assert Pow2(8) == 256;
    if Stream(syms, 5) % Pow2(|syms| * 5 % 8) == 0 {
      CutThenPad(syms, 5, 8);
      CutIsRegroup(syms);
    } else {
      PadThenCut(Cut(syms), 8, 5);
      SymbolsSpell(Regroup(Cut(syms), 8, 5, true).value);
    }
  }

  /** Whatever is encoded is letters of the alphabet only. */
  lemma EncodedIsUnpadded(version: byte, payload: bytes)
    ensures Symbols(Encode(version, payload).value).Ok?
  {
    var raw := Seal([version] + payload);
    assert Pow2(8) == 256;
    PadThenCut(raw, 8, 5);
    SymbolsSpell(Regroup(raw, 8, 5, true).value);
  }

  /** Accepted text re-encodes to itself, white space at the ends aside, exactly when it carries no '=' of its own and
      its left-over bits are zero. */
  lemma ReencodeExactly(strip: string -> string, text: string)
    requires Decode(strip, text).Ok?
    ensures var (version, payload) := Decode(strip, text).value;
            Encode(version, payload) == Ok(strip(text)) <==>
            Symbols(strip(text)).Ok? &&
            var syms := Symbols(strip(text)).value;
            Stream(syms, 5) % Pow2(|syms| * 5 % 8) == 0
  {
    hide Encode, Symbols, DecodeBase32, Unseal;
    var (version, payload) := Decode(strip, text).value;
    EncodedIsUnpadded(version, payload);
    if Symbols(strip(text)).Ok? {
      UnpaddedReencodes(strip(text));
    }
  }

  lemma Leftover(n: nat)
    requires var k := n % 8; k == 0 || k == 2 || k == 4 || k == 5 || k == 7
    ensures n * 5 % 8 < 5
  {
  }

  lemma {:induction false} FixedZero(base: nat, zeros: seq<nat>)
    requires base >= 2 && forall i | 0 <= i < |zeros| :: zeros[i] == 0
    ensures Fixed(base, |zeros|, 0) == zeros && Value(base, zeros) == 0
  {
    if |zeros| > 0 {
      FixedZero(base, zeros[..|zeros| - 1]);
      assert zeros == zeros[..|zeros| - 1] + [0];
    }
  }

  /** Stray bits in the last symbol go unnoticed: this text is accepted and re-encodes to another one. */
  lemma StrayBitAccepted(strip: string -> string)
    requires KeepsBase32(strip)
    ensures Decode(strip, "AAAAB") == Ok((0, [])) && Encode(0, []) == Ok("AAAAA")
  {
    StrayBitDecodes();
    assert DecodeBase32("AAAAB") == Ok([0, 0, 0]);
    ZeroSealed();
    UnsealSeal([0]);
    ZeroEncoded();
  }

  /** So does padding: this text has no stray bit, is accepted, and re-encodes without its padding. */
  lemma PaddingAccepted(strip: string -> string)
    requires KeepsBase32(strip)
    ensures Decode(strip, "AAAAA===") == Ok((0, [])) && Encode(0, []) == Ok("AAAAA")
  {
    PaddedDecodes();
    ZeroSealed();
    UnsealSeal([0]);
    ZeroEncoded();
  }

  lemma PaddedDecodes()
    ensures Symbols(RStrip("AAAAA===")).Ok? && DecodeBase32("AAAAA===") == Ok([0, 0, 0])
  {
    var syms: seq<nat>, text := [0, 0, 0, 0, 0], "AAAAA===";
    ZeroSpelled();
    SymbolsSpell(syms);
    assert Equals(3) == "===" && "AAAAA" + Equals(3) == text;
    RStripEquals("AAAAA", 3);
    assert text + Equals(0) == text;
    FixedZero(32, syms);
    assert Pow2(5) == 32 && Stream(syms, 5) == 0;
    CutZero(syms);
  }

  lemma CutZero(syms: seq<nat>)
    requires |syms| == 5 && InRange(syms, 5) && Stream(syms, 5) == 0
    ensures Cut(syms) == [0, 0, 0]
  {
    assert Pow2(1) == 2;
    assert |syms| * 5 / 8 == 3 && |syms| * 5 % 8 == 1;
    FixedZero(256, [0, 0, 0]);
  }

  lemma ZeroSpelled()
    ensures Pow2(5) == 32 && Spell([0, 0, 0, 0, 0]) == "AAAAA"
  {
    var syms: seq<nat> := [0, 0, 0, 0, 0];
    assert Pow2(5) == 32;
    forall i | 0 <= i < 5
      ensures Spell(syms)[i] == 'A'
    {
      SpellIs(syms, i);
    }
  }

  lemma StraySpelled(syms: seq<nat>)
    requires syms == [0, 0, 0, 0, 1]
    ensures Pow2(5) == 32 && Spell(syms) == "AAAAB"
  {
    assert Pow2(5) == 32;
    SpellIs(syms, 4);
    forall i | 0 <= i < 4
      ensures Spell(syms)[i] == 'A'
    {
      SpellIs(syms, i);
    }
  }

  lemma StrayBitDecodes()
    ensures Symbols("AAAAB").Ok? && DecodeBase32("AAAAB") == Ok([0, 0, 0])
    ensures RStrip("AAAAB") == "AAAAB"
  {
    hide Spell, Symbols, DecodeBase32, Cut;
    var syms: seq<nat> := [0, 0, 0, 0, 1];
    StraySpelled(syms);
    SymbolsSpell(syms);
    DecodeSymbols("AAAAB");
    StrayStream(syms);
    CutSmall(syms);
  }

  lemma StrayStream(syms: seq<nat>)
    requires |syms| == 5 && syms[4] == 1 && forall i | 0 <= i < 4 :: syms[i] == 0
    ensures InRange(syms, 5) && Stream(syms, 5) == 1
  {
    assert Pow2(5) == 32;
    FixedZero(32, syms[..4]);
  }

  lemma CutSmall(syms: seq<nat>)
    requires |syms| == 5 && InRange(syms, 5) && Stream(syms, 5) == 1
    ensures Cut(syms) == [0, 0, 0]
  {
    assert Pow2(1) == 2;
    assert |syms| * 5 / 8 == 3 && |syms| * 5 % 8 == 1;
    FixedZero(256, [0, 0, 0]);
  }

  lemma ZeroEncoded()
    ensures Encode(0, []) == Ok("AAAAA")
  {
    ZeroSealed();
    assert [0] + [] == [0];
    ZeroText();
    ZeroSpelled();
  }

  lemma ZeroText()
    ensures Regroup([0, 0, 0], 8, 5, true) == Some([0, 0, 0, 0, 0])
  {
    var raw: bytes := [0, 0, 0];
    assert Pow2(8) == 256;
    FixedZero(256, raw);
    var syms, p := PadStream(raw, 8, 5);
    assert Stream(syms, 5) == 0;
    ZeroDigits(syms);
  }

  lemma ZeroDigits(syms: seq<nat>)
    requires |syms| == 5 && InRange(syms, 5) && Stream(syms, 5) == 0
    ensures syms == [0, 0, 0, 0, 0]
  {
    assert Pow2(5) == 32;
    FixedZero(32, [0, 0, 0, 0, 0]);
    ValueInjective(32, syms, [0, 0, 0, 0, 0]);
  }

  lemma ZeroSealed()
    ensures Seal([0]) == [0, 0, 0]
  {
    assert [0][..0] == [];
    assert Wide(0) == 0 && High(0) == 0 && Xor(0, 0) == 0 && BitStep(0) == 0;
    assert Bits(0, 4) == 0 by {
      assert Bits(0, 2) == 0;
    }
    assert Bits(0, 8) == 0 by {
      assert Bits(0, 6) == 0;
    }
  }

  /** An account key, under version byte 0x30, always spells 56 characters and starts with G. */
  lemma AccountShape(key: bytes)
    requires |key| == 32
    ensures var s := Encode(0x30, key).value; |s| == 56 && s[0] == 'G'
  {
    var raw := Seal([0x30] + key);
    assert Pow2(8) == 256 && Pow2(5) == 32;
    var syms, p := PadStream(raw, 8, 5);
    assert |syms| == 56 && p == 0;
    FirstSymbol(raw, syms);
    AlphabetIs(6);
  }

  /** The first symbol is the five high bits of the first byte. */
  lemma FirstSymbol(raw: bytes, syms: seq<nat>)
    requires InRange(syms, 5) && |raw| > 0 && |syms| > 0 && |syms| * 5 == |raw| * 8
    requires Stream(syms, 5) == Value(256, raw)
    ensures syms[0] == raw[0] / 8
  {
    assert Pow2(5) == 32 && Pow2(8) == 256 && Pow2(3) == 8;
    var n, m := |raw| - 1, |syms| - 1;
    LeadingDigit(256, raw);
    LeadingDigit(32, syms);
    PowerPower(8, n);
    PowerPower(5, m);
    assert m * 5 == n * 8 + 3;
    PowerAdd(2, n * 8, 3);
    SameLeading(raw[0], syms[0], Pow2(n * 8), Value(256, raw[1..]), Value(32, syms[1..]));
  }

  lemma SameLeading(a: nat, b: nat, unit: nat, x: nat, y: nat)
    requires unit >= 1 && x < unit && y < unit * 8
    requires a * unit + x == b * (unit * 8) + y
    ensures b == a / 8
  {
    var q, r := a / 8, a % 8;
    MulMono(r + 1, 8, unit);
    MulDistr(r, 1, unit);
    MulDistr(q * 8, r, unit);
    MulAssoc(q, 8, unit);
    DivModUnique(unit * 8, b, y);
    DivModUnique(unit * 8, q, r * unit + x);
  }

  /** The hidden pair does occur: a first byte of 0 read as 0x89 passes with its checksum's low byte off by 0xA1. */
  lemma MaskedPairAccepted()
    ensures Unseal([0, 0, 0]) == Ok((0, [])) && Unseal([0x89, 0xA1, 0]).Ok?
  {
    hide Unseal, Wide;
    var raw: bytes, wrong: bytes := [0, 0, 0], [0x89, 0xA1, 0];
    ZeroSealed();
    UnsealSeal([0]);
    WideValues();
    assert [0][1..] == [];
    assert raw[..0] == wrong[..0] && raw[2..] == [0] && wrong[2..] == [0];
    PairRefusedExactly(raw, wrong, 0);
  }

  lemma WideValues()
    ensures Wide(0) == 0 && Wide(0x89) == 0x89 && Wide(0xA1) == 0xA1
  {
    assert 0x89 / 16 == 8 && 0x89 % 16 == 9 && 0xA1 / 16 == 10 && 0xA1 % 16 == 1;
  }
}
