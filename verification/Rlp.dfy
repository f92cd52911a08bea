/** Recursive Length Prefix (Ethereum Yellow Paper, Appendix B): recto/ethereum.py:648-758. */
module Rlp {
  import opened Wrappers
  import opened Digits

  /** What `rlp_encode` accepts; the decoder yields only `Str` and `List`. A text stands for its UTF-8 bytes. */
  datatype Item =
    | Str(data: bytes)
    | Num(n: int)
    | Text(utf8: bytes)
    | List(items: seq<Item>)
    | Unsupported

  const TWO_64: nat := 0x1_0000_0000_0000_0000

  // ------------------------------------------------------------------ encoding

  function BigEndian(n: nat): (r: bytes)
    ensures r == Minimal(256, n)
  {
    Minimal(256, n)
  }

  function EncodeLength(length: nat, offset: byte): (r: Result<bytes>)
    requires offset == 0x80 || offset == 0xC0
  {
    if length < 56 then Ok([offset + length])
    else
      var be := BigEndian(length);
      if offset + 55 + |be| > 255 then Err else Ok([offset + 55 + |be|] + be)
  }

  function EncodeString(data: bytes): Result<bytes> {
    if |data| == 1 && data[0] < 0x80 then Ok(data)
    else
      var head :- EncodeLength(|data|, 0x80);
      Ok(head + data)
  }

  function Encode(x: Item): Result<bytes>
    decreases x
  {
    match x
    case Str(data) => EncodeString(data)
    case Num(n) => if n < 0 then Err else EncodeString(BigEndian(n))
    case Text(utf8) => EncodeString(utf8)
    case List(items) =>
      var body :- EncodeAll(items);
      var head :- EncodeLength(|body|, 0xC0);
      Ok(head + body)
    case Unsupported => Err
  }

  function EncodeAll(xs: seq<Item>): Result<bytes>
    decreases xs
  {
    if |xs| == 0 then Ok([])
    else
      var first :- Encode(xs[0]);
      var rest :- EncodeAll(xs[1..]);
      Ok(first + rest)
  }

  // ------------------------------------------------------------------ decoding

  /** Where an item's payload lies and whether it is a list's. */
  datatype Head = Head(list: bool, start: nat, end: nat)

  function ReadHead(d: bytes, o: nat): (r: Result<Head>)
    ensures r.Ok? ==> o <= r.value.start <= r.value.end <= |d| && o < r.value.end
    ensures r.Ok? && r.value.list ==> o < r.value.start
  {
    if o >= |d| then Err
    else
      var first := d[o];
      if first < 0x80 then Ok(Head(false, o, o + 1))
      else if first < 0xB8 then Bounded(d, Head(false, o + 1, o + 1 + (first - 0x80)))
      else if first < 0xC0 then LongHead(d, o, false, first - 0xB7)
      else if first < 0xF8 then Bounded(d, Head(true, o + 1, o + 1 + (first - 0xC0)))
      else LongHead(d, o, true, first - 0xF7)
  }

  /** A payload that would run past the input is truncated. */
  function Bounded(d: bytes, h: Head): Result<Head> {
    if h.end > |d| then Err else Ok(h)
  }

  function LongHead(d: bytes, o: nat, list: bool, nlen: nat): Result<Head> {
    var start := o + 1 + nlen;
    if start > |d| then Err else Bounded(d, Head(list, start, start + Value(256, d[o + 1..start])))
  }

  /** One item at `o`, with the offset just past it. An inner list is read from the whole input, not from its own
      payload; an item that runs past the payload is found out when the cursor overshoots `end`. */
  function DecodeOne(d: bytes, o: nat): (r: Result<(Item, nat)>)
    ensures r.Ok? ==> o < r.value.1 <= |d|
    decreases |d| - o, 0
  {
    var h :- ReadHead(d, o);
    if h.list then
      var xs :- DecodeList(d, h.start, h.end);
      Ok((List(xs), h.end))
    else Ok((Str(d[h.start..h.end]), h.end))
  }

  function DecodeList(d: bytes, cursor: nat, end: nat): Result<seq<Item>>
    requires end <= |d|
    decreases |d| - cursor, 1
  {
    if cursor < end then
      var one :- DecodeOne(d, cursor);
      var rest :- DecodeList(d, one.1, end);
      Ok([one.0] + rest)
    else if cursor != end then Err
    else Ok([])
  }

  function Decode(d: bytes): Result<Item> {
    var one :- DecodeOne(d, 0);
    if one.1 != |d| then Err else Ok(one.0)
  }

  /** The cursor loop of the list decoder meets its recursive reading. */
  method RlpDecodeList(d: bytes, start: nat, end: nat) returns (r: Result<seq<Item>>)
    requires end <= |d|
    ensures r == DecodeList(d, start, end)
    decreases |d| - start, 1
  {
    var out: seq<Item> := [];
    var cursor := start;
    assert DecodeList(d, start, end).Ok? ==> out + DecodeList(d, start, end).value == DecodeList(d, start, end).value;
    while cursor < end
      invariant start <= cursor
      invariant DecodeList(d, start, end) ==
                match DecodeList(d, cursor, end) { case Ok(rest) => Ok(out + rest) case Err => Err }
      decreases |d| - cursor
    {
      var one := RlpDecodeOne(d, cursor);
      if one.Err? {
        return Err;
      }
      var rest := DecodeList(d, one.value.1, end);
      assert rest.Ok? ==> (out + [one.value.0]) + rest.value == out + ([one.value.0] + rest.value);
      out, cursor := out + [one.value.0], one.value.1;
    }
    if cursor != end {
      return Err;
    }
    assert out + [] == out;
    return Ok(out);
  }

  method RlpDecodeOne(d: bytes, o: nat) returns (r: Result<(Item, nat)>)
    ensures r == DecodeOne(d, o)
    decreases |d| - o, 0
  {
    var head := ReadHead(d, o);
    if head.Err? {
      return Err;
    }
    var h := head.value;
    if !h.list {
      return Ok((Str(d[h.start..h.end]), h.end));
    }
    var xs := RlpDecodeList(d, h.start, h.end);
    return if xs.Ok? then Ok((List(xs.value), h.end)) else Err;
  }

  // ------------------------------------------------------------------ round trip

  /** What decoding gives back: numbers and texts return as their bytes. */
  function Norm(x: Item): Item
    decreases x
  {
    match x
    case Num(n) => if n < 0 then x else Str(BigEndian(n))
    case Text(utf8) => Str(utf8)
    case List(items) => List(NormAll(items))
    case _ => x
  }

  function NormAll(xs: seq<Item>): seq<Item>
    decreases xs
  {
    if |xs| == 0 then [] else [Norm(xs[0])] + NormAll(xs[1..])
  }

  /** Everything in `x` can be encoded and every payload, its own included, is shorter than 2^64 bytes. */
  predicate Fits(x: Item)
    decreases x
  {
    match x
    case Str(data) => |data| < TWO_64
    case Num(n) => n >= 0 && |BigEndian(n)| < TWO_64
    case Text(utf8) => |utf8| < TWO_64
    case List(items) => FitAll(items) && EncodeAll(items).Ok? && |EncodeAll(items).value| < TWO_64
    case Unsupported => false
  }

  predicate FitAll(xs: seq<Item>)
    decreases xs
  {
    |xs| == 0 || (Fits(xs[0]) && FitAll(xs[1..]))
  }

  lemma EightBytes(n: nat)
    ensures |BigEndian(n)| <= 8 <==> n < TWO_64
  {
    MinimalLength(256, n, 8);
    assert Power(256, 8) == TWO_64 by {
      assert Power(256, 4) == 0x1_0000_0000;
      PowerAdd(256, 4, 4);
    }
  }

  /** `e` stands in `d` at offset `o`. */
  ghost predicate At(d: bytes, o: nat, e: bytes) {
    o + |e| <= |d| && d[o..o + |e|] == e
  }

  lemma AtParts(d: bytes, o: nat, a: bytes, b: bytes)
    requires At(d, o, a + b)
    ensures At(d, o, a) && At(d, o + |a|, b)
  {
    var s := d[o..o + |a + b|];
    assert s[..|a|] == a && s[|a|..] == b;
    assert d[o..o + |a|] == s[..|a|];
    assert d[o + |a|..o + |a| + |b|] == s[|a|..];
  }

  lemma LongHeadAt(d: bytes, o: nat, n: nat, list: bool, be: bytes)
    requires be == BigEndian(n) && 1 <= |be| <= 8
    requires At(d, o, [(if list then 0xC0 else 0x80) + 55 + |be|] + be) && o + 1 + |be| + n <= |d|
    ensures ReadHead(d, o) == Ok(Head(list, o + 1 + |be|, o + 1 + |be| + n))
  {
    var lead: bytes := [(if list then 0xC0 else 0x80) + 55 + |be|];
    AtParts(d, o, lead, be);
    assert d[o] == d[o..o + 1][0] == lead[0];
    LongHeadIs(d, o, n, list, be);
  }

  lemma LongHeadIs(d: bytes, o: nat, n: nat, list: bool, be: bytes)
    requires be == BigEndian(n) && At(d, o + 1, be) && o + 1 + |be| + n <= |d|
    ensures LongHead(d, o, list, |be|) == Ok(Head(list, o + 1 + |be|, o + 1 + |be| + n))
  {
    MinimalValue(256, n);
  }

  /** A length prefix within 2^64 reads back: it says where the payload starts and ends. */
  lemma HeadAt(d: bytes, o: nat, n: nat, list: bool, head: bytes)
    requires n < TWO_64 && EncodeLength(n, if list then 0xC0 else 0x80) == Ok(head)
    requires At(d, o, head) && o + |head| + n <= |d|
    ensures |head| > 0
    ensures ReadHead(d, o) == Ok(Head(list, o + |head|, o + |head| + n))
  {
    EightBytes(n);
    if n < 56 {
      assert d[o] == d[o..o + 1][0];
    } else {
      LongHeadAt(d, o, n, list, BigEndian(n));
    }
  }

  lemma StringAt(d: bytes, o: nat, data: bytes)
    requires |data| < TWO_64
    requires EncodeString(data).Ok? ==> At(d, o, EncodeString(data).value)
    ensures EncodeString(data).Ok?
    ensures DecodeOne(d, o) == Ok((Str(data), o + |EncodeString(data).value|))
  {
    if |data| == 1 && data[0] < 0x80 {
      assert d[o] == d[o..o + 1][0];
    } else {
      EightBytes(|data|);
      var head := EncodeLength(|data|, 0x80).value;
      AtParts(d, o, head, data);
      HeadAt(d, o, |data|, false, head);
    }
  }

  /** Decoding at the place an encoding stands gives the item back and stops right behind it. */
  lemma DecodeAt(d: bytes, o: nat, x: Item)
    requires Fits(x)
    requires Encode(x).Ok? ==> At(d, o, Encode(x).value)
    ensures Encode(x).Ok?
    ensures DecodeOne(d, o) == Ok((Norm(x), o + |Encode(x).value|))
    decreases x
  {
    match x
    case Str(data) => StringAt(d, o, data);
    case Num(n) => StringAt(d, o, BigEndian(n));
    case Text(utf8) => StringAt(d, o, utf8);
    case List(items) => ListItemAt(d, o, items);
  }

  lemma {:induction false} ListItemAt(d: bytes, o: nat, items: seq<Item>)
    requires FitAll(items) && EncodeAll(items).Ok? && |EncodeAll(items).value| < TWO_64
    requires Encode(List(items)).Ok? ==> At(d, o, Encode(List(items)).value)
    ensures Encode(List(items)).Ok?
    ensures DecodeOne(d, o) == Ok((List(NormAll(items)), o + |Encode(List(items)).value|))
    decreases items, 1
  {
    var n := |EncodeAll(items).value|;
    var head := EncodeList(items, n);
    AtParts(d, o, head, EncodeAll(items).value);
    DecodeAllAt(d, o + |head|, items);
    ListAt(d, o, n, head, NormAll(items));
  }

  lemma {:induction false} ListAt(d: bytes, o: nat, n: nat, head: bytes, xs: seq<Item>)
    requires n < TWO_64 && EncodeLength(n, 0xC0) == Ok(head)
    requires At(d, o, head) && o + |head| + n <= |d|
    requires DecodeList(d, o + |head|, o + |head| + n) == Ok(xs)
    ensures DecodeOne(d, o) == Ok((List(xs), o + |head| + n))
  {
    HeadAt(d, o, n, true, head);
  }

  lemma EncodeList(items: seq<Item>, n: nat) returns (head: bytes)
    requires EncodeAll(items).Ok? && n == |EncodeAll(items).value| < TWO_64
    ensures EncodeLength(n, 0xC0) == Ok(head)
    ensures Encode(List(items)) == Ok(head + EncodeAll(items).value)
  {
    EightBytes(n);
    head := EncodeLength(n, 0xC0).value;
  }

  lemma {:induction false} DecodeAllAt(d: bytes, o: nat, xs: seq<Item>)
    requires FitAll(xs)
    requires EncodeAll(xs).Ok? ==> At(d, o, EncodeAll(xs).value)
    ensures EncodeAll(xs).Ok?
    ensures o + |EncodeAll(xs).value| <= |d|
    ensures DecodeList(d, o, o + |EncodeAll(xs).value|) == Ok(NormAll(xs))
    decreases xs, 0
  {
    if |xs| > 0 {
      FitsEncodes(xs[0]);
      FitAllEncodes(xs[1..]);
      var first, rest := Encode(xs[0]).value, EncodeAll(xs[1..]).value;
      AtParts(d, o, first, rest);
      DecodeAt(d, o, xs[0]);
      DecodeAllAt(d, o + |first|, xs[1..]);
    }
  }

  lemma FitsEncodes(x: Item)
    requires Fits(x)
    ensures Encode(x).Ok?
    decreases x
  {
    match x
    case Str(data) => EightBytes(|data|);
    case Num(n) => EightBytes(|BigEndian(n)|);
    case Text(utf8) => EightBytes(|utf8|);
    case List(items) => EightBytes(|EncodeAll(items).value|);
  }

  lemma {:induction false} FitAllEncodes(xs: seq<Item>)
    requires FitAll(xs)
    ensures EncodeAll(xs).Ok?
  {
    if |xs| > 0 {
      FitsEncodes(xs[0]);
      FitAllEncodes(xs[1..]);
    }
  }

  /** The promise of the codec, in any surroundings: bytes before and after the encoding change nothing. */
  lemma RoundTripInContext(p: bytes, x: Item, s: bytes)
    requires Fits(x)
    ensures Encode(x).Ok?
    ensures DecodeOne(p + Encode(x).value + s, |p|) == Ok((Norm(x), |p| + |Encode(x).value|))
  {
    FitsEncodes(x);
    var e := Encode(x).value;
    var d := p + e + s;
    assert d[|p|..|p| + |e|] == e;
    DecodeAt(d, |p|, x);
  }

  lemma DecodeBefore(x: Item, tail: bytes)
    requires Fits(x) && Encode(x).Ok?
    ensures DecodeOne(Encode(x).value + tail, 0) == Ok((Norm(x), |Encode(x).value|))
  {
    var e := Encode(x).value;
    assert (e + tail)[0..|e|] == e;
    DecodeAt(e + tail, 0, x);
  }

  // ------------------------------------------------------------------ exactly when the round trip holds

  lemma {:induction false} OverlongNested(xs: seq<Item>)
    requires EncodeAll(xs).Ok? && |EncodeAll(xs).value| < TWO_64
    ensures FitAll(xs)
    decreases xs
  {
    if |xs| > 0 {
      OverlongItem(xs[0]);
      OverlongNested(xs[1..]);
    }
  }

  /** An accepted item that does not fit is longer than 2^64 bytes once encoded, so no list can hold it. */
  lemma OverlongItem(x: Item)
    requires Encode(x).Ok? && |Encode(x).value| < TWO_64
    ensures Fits(x)
    decreases x
  {
    match x
    case List(items) =>
      OverlongNested(items);
    case _ =>
  }

  /** A list encodes only when its payload is below 2^64 bytes, and then everything in it fits. */
  lemma ListFits(items: seq<Item>)
    requires Encode(List(items)).Ok?
    ensures Fits(List(items))
  {
    var body := EncodeAll(items).value;
    EightBytes(|body|);
    OverlongNested(items);
  }

  /** A string of 2^64 bytes or more is given a list's first byte, so it never comes back as a string. */
  lemma OverlongString(data: bytes)
    requires |data| >= TWO_64
    requires EncodeString(data).Ok?
    ensures var r := Decode(EncodeString(data).value); r.Ok? ==> r.value.List?
  {
    EightBytes(|data|);
    var be := BigEndian(|data|);
    var e := EncodeString(data).value;
    assert e[0] == 0x80 + 55 + |be| >= 0xC0;
  }

  /** The round trip holds for exactly the items whose parts can be encoded with payloads below 2^64 bytes. */
  lemma RoundTripExactly(x: Item)
    ensures (Encode(x).Ok? && Decode(Encode(x).value) == Ok(Norm(x))) <==> Fits(x)
  {
    if Fits(x) {
      RoundTripInContext([], x, []);
      assert [] + Encode(x).value + [] == Encode(x).value;
    } else if Encode(x).Ok? {
      match x
      case List(items) => ListFits(items);
      case Str(data) => OverlongString(data);
      case Num(n) => OverlongString(BigEndian(n));
      case Text(utf8) => OverlongString(utf8);
    }
  }

  /** No encoding is a proper prefix of another one, and equal encodings come from items that decode alike. */
  lemma PrefixFree(x: Item, y: Item, tail: bytes)
    requires Fits(x) && Fits(y)
    requires Encode(x).Ok? && Encode(y).Ok? && Encode(x).value == Encode(y).value + tail
    ensures tail == [] && Norm(x) == Norm(y)
  {
    DecodeBefore(x, []);
    DecodeBefore(y, tail);
    assert Encode(x).value + [] == Encode(y).value + tail;
  }

  // ------------------------------------------------------------------ re-encoding what was accepted

  /** The bytes `d[o..e]` re-encode to `r`: never longer, and as long only when they were `r` already. */
  ghost predicate Canonises(d: bytes, o: nat, e: nat, r: bytes) {
    o <= e <= |d| && |r| <= e - o && (|r| == e - o ==> d[o..e] == r)
  }

  lemma CanonisesJoin(d: bytes, o: nat, m: nat, e: nat, a: bytes, b: bytes)
    requires Canonises(d, o, m, a) && Canonises(d, m, e, b)
    ensures Canonises(d, o, e, a + b)
  {
    if |a + b| == e - o {
      assert d[o..e] == d[o..m] + d[m..e];
    }
  }

  lemma ShortValue(ds: bytes)
    requires |ds| <= 8
    ensures Value(256, ds) < TWO_64
  {
    MinimalShortest(256, ds);
    EightBytes(Value(256, ds));
  }

  /** A length prefix is as long as its length digits: shorter digits, shorter prefix. */
  lemma LongPrefix(m: nat, len: nat, offset: byte)
    requires offset == 0x80 || offset == 0xC0
    requires 1 <= len <= 8 && |BigEndian(m)| <= len
    ensures var r := EncodeLength(m, offset);
            r.Ok? && |r.value| <= 1 + len &&
            (|r.value| == 1 + len ==> r.value == [offset + 55 + len] + BigEndian(m))
  {
  }

  /** The length digits `be` re-spell no longer for a payload no longer than they say. */
  lemma DigitsCanonise(be: bytes, m: nat)
    requires m <= Value(256, be)
    ensures |BigEndian(m)| <= |be|
    ensures m == Value(256, be) && |BigEndian(m)| == |be| ==> BigEndian(m) == be
  {
    MinimalShortest(256, be);
    MinimalMono(256, m, Value(256, be));
  }

  lemma SliceFirst(d: bytes, o: nat, e: nat)
    requires o < e <= |d|
    ensures d[o..e] == [d[o]] + d[o + 1..e]
  {
  }

  /** The prefix of an accepted item, other than a byte that stands for itself, re-encodes for a payload of `m` bytes,
      no longer than the one read. */
  lemma HeadCanonises(d: bytes, o: nat, m: nat)
    requires ReadHead(d, o).Ok? && d[o] >= 0x80
    requires m <= ReadHead(d, o).value.end - ReadHead(d, o).value.start
    ensures var h := ReadHead(d, o).value;
            var r := EncodeLength(m, if h.list then 0xC0 else 0x80);
            m < TWO_64 && r.Ok? && |r.value| <= h.start - o &&
            (m == h.end - h.start ==> Canonises(d, o, h.start, r.value))
  {
    var h := ReadHead(d, o).value;
    var offset: byte := if h.list then 0xC0 else 0x80;
    var first := d[o];
    assert o + 1 <= h.start;
    var be := d[o + 1..h.start];
    SliceFirst(d, o, h.start);
    if 0xB8 <= first < 0xC0 || 0xF8 <= first {
      assert 1 <= |be| <= 8 && first == offset + 55 + |be|;
      ShortValue(be);
      DigitsCanonise(be, m);
      LongPrefix(m, |be|, offset);
    } else {
      assert be == [];
    }
  }

  lemma StringCanonises(d: bytes, o: nat)
    requires ReadHead(d, o).Ok? && !ReadHead(d, o).value.list
    ensures var h := ReadHead(d, o).value;
            var data := d[h.start..h.end];
            |data| < TWO_64 && EncodeString(data).Ok? && Canonises(d, o, h.end, EncodeString(data).value)
  {
    var h := ReadHead(d, o).value;
    var data := d[h.start..h.end];
    if d[o] >= 0x80 {
      HeadCanonises(d, o, |data|);
      CanonisesJoin(d, o, h.start, h.end, EncodeLength(|data|, 0x80).value, data);
    }
  }

  /** Whatever the decoder accepts re-encodes, to no more bytes than were read, and to as many only when the input
      was that encoding: the encoder's output is the one shortest spelling of its item. */
  lemma ReencodeOne(d: bytes, o: nat)
    requires DecodeOne(d, o).Ok?
    ensures var (x, e) := DecodeOne(d, o).value;
            Fits(x) && Norm(x) == x && Encode(x).Ok? && Canonises(d, o, e, Encode(x).value)
    decreases |d| - o, 0
  {
    var h := ReadHead(d, o).value;
    if !h.list {
      StringCanonises(d, o);
    } else {
      ReencodeList(d, h.start, h.end);
      var xs := DecodeList(d, h.start, h.end).value;
      ListCanonises(d, o, xs);
    }
  }

  lemma ListCanonises(d: bytes, o: nat, xs: seq<Item>)
    requires ReadHead(d, o).Ok? && ReadHead(d, o).value.list
    requires var h := ReadHead(d, o).value;
             EncodeAll(xs).Ok? && Canonises(d, h.start, h.end, EncodeAll(xs).value)
    ensures |EncodeAll(xs).value| < TWO_64 && Encode(List(xs)).Ok?
    ensures Canonises(d, o, ReadHead(d, o).value.end, Encode(List(xs)).value)
  {
    var h := ReadHead(d, o).value;
    var body := EncodeAll(xs).value;
    HeadCanonises(d, o, |body|);
    var head := EncodeList(xs, |body|);
    if |head + body| == h.end - o {
      CanonisesJoin(d, o, h.start, h.end, head, body);
    }
  }

  lemma {:induction false} ReencodeList(d: bytes, c: nat, end: nat)
    requires c <= end <= |d|
    requires DecodeList(d, c, end).Ok?
    ensures var xs := DecodeList(d, c, end).value;
            FitAll(xs) && NormAll(xs) == xs && EncodeAll(xs).Ok? && Canonises(d, c, end, EncodeAll(xs).value)
    decreases |d| - c, 1
  {
    if c < end {
      var (x, m) := DecodeOne(d, c).value;
      ReencodeOne(d, c);
      ReencodeList(d, m, end);
      var xs := DecodeList(d, c, end).value;
      assert xs[1..] == DecodeList(d, m, end).value;
      CanonisesJoin(d, c, m, end, Encode(x).value, EncodeAll(xs[1..]).value);
    }
  }

  /** A non-canonical input is shortened by re-encoding, without changing what it says. */
  lemma Reencode(d: bytes)
    requires Decode(d).Ok?
    ensures var x := Decode(d).value;
            Encode(x).Ok? && Decode(Encode(x).value) == Ok(x) &&
            |Encode(x).value| <= |d| && (|Encode(x).value| == |d| <==> Encode(x).value == d)
  {
    ReencodeOne(d, 0);
    RoundTripExactly(Decode(d).value);
    assert d[0..|d|] == d;
  }

  // ------------------------------------------------------------------ which bytes are accepted, and as what

  /** A length prefix: one byte up to 55, or up to eight length digits, leading zeros allowed, behind their number. */
  predicate Prefix(head: bytes, offset: nat, n: nat) {
    (|head| == 1 && n < 56 && head[0] == offset + n) ||
    (2 <= |head| <= 9 && head[0] == offset + 54 + |head| && Value(256, head[1..]) == n)
  }

  /** The grammar of RLP, canonical or not: `d` is a spelling of `x`, the whole of it and nothing else. */
  ghost predicate Spells(d: bytes, x: Item)
    decreases x
  {
    match x
    case Str(data) =>
      (|d| == 1 && d[0] < 0x80 && d == data) ||
      (|data| < |d| && d[|d| - |data|..] == data && Prefix(d[..|d| - |data|], 0x80, |data|))
    case List(items) => exists k :: 0 < k <= |d| && Prefix(d[..k], 0xC0, |d| - k) && SpellsAll(d[k..], items)
    case _ => false
  }

  ghost predicate SpellsAll(d: bytes, xs: seq<Item>)
    decreases xs
  {
    if |xs| == 0 then d == []
    else exists k :: 0 < k <= |d| && Spells(d[..k], xs[0]) && SpellsAll(d[k..], xs[1..])
  }

  /** The prefix at `o` is read exactly as the grammar has it. */
  lemma HeadExactly(d: bytes, o: nat, h: Head)
    requires h.start <= h.end && o < h.start
    ensures ReadHead(d, o) == Ok(h) <==>
            h.end <= |d| && Prefix(d[o..h.start], if h.list then 0xC0 else 0x80, h.end - h.start)
  {
    if o < h.start <= |d| {
      var head := d[o..h.start];
      assert head[0] == d[o] && head[1..] == d[o + 1..h.start];
    }
    if o < |d| && 0xB7 < d[o] < 0xC0 {
      LongExactly(d, o, false, d[o] - 0xB7, h);
    }
    if o < |d| && 0xF7 < d[o] {
      LongExactly(d, o, true, d[o] - 0xF7, h);
    }
  }

  lemma LongExactly(d: bytes, o: nat, list: bool, nlen: nat, h: Head)
    ensures LongHead(d, o, list, nlen) == Ok(h) <==>
            h.list == list && h.start == o + 1 + nlen <= |d| && h.end <= |d| &&
            h.end == h.start + Value(256, d[o + 1..h.start])
  {
  }

  lemma SelfHead(d: bytes, o: nat)
    requires o < |d|
    ensures d[o] < 0x80 ==> ReadHead(d, o) == Ok(Head(false, o, o + 1))
    ensures ReadHead(d, o).Ok? && d[o] >= 0x80 ==> o < ReadHead(d, o).value.start
  {
  }

  /** What is decoded is spelt by the bytes it was decoded from. */
  lemma {:induction false} DecodedIsSpelt(d: bytes, o: nat)
    requires DecodeOne(d, o).Ok?
    ensures var (x, e) := DecodeOne(d, o).value; o < e <= |d| && Spells(d[o..e], x)
    decreases |d| - o, 0
  {
    hide ReadHead, Prefix;
    var h := ReadHead(d, o).value;
    var s := d[o..h.end];
    SelfHead(d, o);
    if o < h.start {
      HeadExactly(d, o, h);
      assert s[..h.start - o] == d[o..h.start] && s[h.start - o..] == d[h.start..h.end];
      if h.list {
        DecodedAllAreSpelt(d, h.start, h.end);
      }
    } else {
      assert s == [d[o]];
    }
  }

  lemma {:induction false} DecodedAllAreSpelt(d: bytes, c: nat, end: nat)
    requires end <= |d| && DecodeList(d, c, end).Ok?
    ensures c <= end && SpellsAll(d[c..end], DecodeList(d, c, end).value)
    decreases |d| - c, 1
  {
    hide Spells, SpellsAll, DecodeOne;
    if c < end {
      var (x, m) := DecodeOne(d, c).value;
      DecodedIsSpelt(d, c);
      DecodedAllAreSpelt(d, m, end);
      SpellsJoin(d, c, m, end, x, DecodeList(d, m, end).value);
    } else {
      NothingSpelt();
      assert d[c..end] == [];
    }
  }

  lemma NothingSpelt()
    ensures SpellsAll([], [])
  {
  }

  lemma SpellsJoin(d: bytes, c: nat, m: nat, end: nat, x: Item, rest: seq<Item>)
    requires c < m <= end <= |d| && Spells(d[c..m], x) && SpellsAll(d[m..end], rest)
    ensures SpellsAll(d[c..end], [x] + rest)
  {
    hide Spells;
    var s, xs := d[c..end], [x] + rest;
    assert s[..m - c] == d[c..m] && s[m - c..] == d[m..end] && xs[1..] == rest;
  }

  lemma ListEnds(d: bytes, c: nat)
    requires c <= |d|
    ensures DecodeList(d, c, c) == Ok([])
  {
  }

  lemma ListStep(d: bytes, c: nat, m: nat, end: nat, x: Item, rest: seq<Item>)
    requires c < end <= |d| && DecodeOne(d, c) == Ok((x, m)) && DecodeList(d, m, end) == Ok(rest)
    ensures DecodeList(d, c, end) == Ok([x] + rest)
  {
    hide DecodeOne;
  }

  lemma StringIsDecoded(d: bytes, o: nat, e: nat, data: bytes)
    requires o <= e <= |d| && Spells(d[o..e], Str(data))
    ensures o < e && DecodeOne(d, o) == Ok((Str(data), e))
  {
    hide ReadHead, Prefix, DecodeList;
    var s := d[o..e];
    if |s| == 1 && s[0] < 0x80 && s == data {
      SelfHead(d, o);
      assert d[o] == s[0] && d[o..o + 1] == data;
    } else {
      var k := |s| - |data|;
      assert s[..k] == d[o..o + k] && s[k..] == d[o + k..e];
      HeadExactly(d, o, Head(false, o + k, e));
    }
  }

  /** Where a spelt list's prefix ends. */
  lemma ListSplits(d: bytes, o: nat, e: nat, items: seq<Item>) returns (k: nat)
    requires o <= e <= |d| && Spells(d[o..e], List(items))
    ensures o < k <= e && ReadHead(d, o) == Ok(Head(true, k, e)) && SpellsAll(d[k..e], items)
  {
    hide ReadHead, Prefix, SpellsAll;
    var s := d[o..e];
    var n :| 0 < n <= |s| && Prefix(s[..n], 0xC0, |s| - n) && SpellsAll(s[n..], items);
    assert s[..n] == d[o..o + n] && s[n..] == d[o + n..e];
    HeadExactly(d, o, Head(true, o + n, e));
    k := o + n;
  }

  lemma ListDecodes(d: bytes, o: nat, k: nat, e: nat, items: seq<Item>)
    requires ReadHead(d, o) == Ok(Head(true, k, e)) && DecodeList(d, k, e) == Ok(items)
    ensures DecodeOne(d, o) == Ok((List(items), e))
  {
    hide ReadHead, DecodeList;
  }

  /** What is spelt somewhere in the input is decoded there. */
  lemma {:induction false} SpeltIsDecoded(d: bytes, o: nat, e: nat, x: Item)
    requires o <= e <= |d| && Spells(d[o..e], x)
    ensures o < e && DecodeOne(d, o) == Ok((x, e))
    decreases x, 0
  {
    hide ReadHead, SpellsAll, DecodeOne, DecodeList;
    match x {
      case Str(data) =>
        StringIsDecoded(d, o, e, data);
      case List(items) =>
        var k := ListSplits(d, o, e, items);
        SpeltAllAreDecoded(d, k, e, items);
        ListDecodes(d, o, k, e, items);
      case _ =>
    }
  }

  lemma {:induction false} SpeltAllAreDecoded(d: bytes, c: nat, end: nat, xs: seq<Item>)
    requires c <= end <= |d| && SpellsAll(d[c..end], xs)
    ensures DecodeList(d, c, end) == Ok(xs)
    decreases xs, 1
  {
    hide Spells, DecodeOne, DecodeList;
    var s := d[c..end];
    if |xs| == 0 {
      ListEnds(d, c);
    } else {
      var k :| 0 < k <= |s| && Spells(s[..k], xs[0]) && SpellsAll(s[k..], xs[1..]);
      assert s[..k] == d[c..c + k] && s[k..] == d[c + k..end];
      SpeltIsDecoded(d, c, c + k, xs[0]);
      SpeltAllAreDecoded(d, c + k, end, xs[1..]);
      ListStep(d, c, c + k, end, xs[0], xs[1..]);
      assert xs == [xs[0]] + xs[1..];
    }
  }

  /** The decoder accepts exactly the spellings of the grammar, each as what it spells. */
  lemma DecodesExactly(d: bytes, x: Item)
    ensures Decode(d) == Ok(x) <==> Spells(d, x)
  {
    assert d[0..|d|] == d;
    if Decode(d) == Ok(x) {
      DecodedIsSpelt(d, 0);
    }
    if Spells(d, x) {
      SpeltIsDecoded(d, 0, |d|, x);
    }
  }

  /** Nothing may follow an accepted input, canonical or not: the accepted inputs are prefix-free. */
  lemma TrailingRefused(d: bytes, tail: bytes)
    requires Decode(d).Ok? && |tail| > 0
    ensures Decode(d + tail).Err?
  {
    var x := Decode(d).value;
    DecodesExactly(d, x);
    assert (d + tail)[0..|d|] == d;
    SpeltIsDecoded(d + tail, 0, |d|, x);
  }

  /** Among all spellings of an item the encoder writes the one shortest. */
  lemma ShortestSpelling(d: bytes, x: Item)
    requires Spells(d, x)
    ensures Encode(x).Ok? && Spells(Encode(x).value, x)
    ensures |Encode(x).value| <= |d| && (|Encode(x).value| == |d| ==> Encode(x).value == d)
  {
    hide Spells, Encode, Decode;
    DecodesExactly(d, x);
    Reencode(d);
    DecodesExactly(Encode(x).value, x);
  }
}
