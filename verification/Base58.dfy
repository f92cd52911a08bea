/** Base58 and base58check: recto/solana.py:115-208 and recto/tron.py:135-269. */
module Base58 {
  import opened Wrappers
  import opened Digits
  import opened Alphabets

  // ------------------------------------------------------------------ one numeral into another base

  function LeadingZeros(ds: seq<nat>): (k: nat)
    ensures k <= |ds|
    ensures forall i | 0 <= i < k :: ds[i] == 0
    ensures k < |ds| ==> ds[k] != 0
  {
    if |ds| > 0 && ds[0] == 0 then 1 + LeadingZeros(ds[1..]) else 0
  }

  function Zeros(n: nat): (z: seq<nat>)
    ensures |z| == n && forall i | 0 <= i < n :: z[i] == 0
  {
    seq(n, i => 0)
  }

  /** The same number in another base, with one leading zero digit for every leading zero digit. */
  function Transcode(from: nat, to: nat, ds: seq<nat>): (r: seq<nat>)
    requires from >= 2 && to >= 2
    ensures InBase(to, r)
  {
    Zeros(LeadingZeros(ds)) + Minimal(to, Value(from, ds))
  }

  lemma ValueZeros(base: nat, n: nat, ds: seq<nat>)
    ensures Value(base, Zeros(n) + ds) == Value(base, ds)
  {
    ValueAppend(base, Zeros(n), ds);
    AllZeros(base, n);
  }

  lemma {:induction false} AllZeros(base: nat, n: nat)
    ensures Value(base, Zeros(n)) == 0
  {
    if n > 0 {
      AllZeros(base, n - 1);
      assert Zeros(n)[..n - 1] == Zeros(n - 1);
    }
  }

  lemma LeadingZerosOf(n: nat, ds: seq<nat>)
    requires |ds| > 0 ==> ds[0] != 0
    ensures LeadingZeros(Zeros(n) + ds) == n
  {
    var all := Zeros(n) + ds;
    assert forall i | 0 <= i < n :: all[i] == 0;
    assert |ds| > 0 ==> all[n] == ds[0];
  }

  /** A numeral is its leading zeros followed by the minimal numeral of its number. */
  lemma SplitZeros(base: nat, ds: seq<nat>)
    requires base >= 2 && InBase(base, ds)
    ensures ds == Zeros(LeadingZeros(ds)) + Minimal(base, Value(base, ds))
  {
    var k := LeadingZeros(ds);
    var rest := ds[k..];
    assert ds == Zeros(k) + rest;
    ValueZeros(base, k, rest);
    ValueMinimal(base, rest);
  }

  /** Two bases, there and back: nothing is lost, leading zeros included. */
  lemma TranscodeInverse(from: nat, to: nat, ds: seq<nat>)
    requires from >= 2 && to >= 2 && InBase(from, ds)
    ensures Transcode(to, from, Transcode(from, to, ds)) == ds
  {
    var n := Value(from, ds);
    var k := LeadingZeros(ds);
    LeadingZerosOf(k, Minimal(to, n));
    ValueZeros(to, k, Minimal(to, n));
    MinimalValue(to, n);
    SplitZeros(from, ds);
  }

  // ------------------------------------------------------------------ the divmod loops

  function Reverse(s: seq<nat>): (r: seq<nat>)
    ensures |r| == |s|
  {
    if |s| == 0 then [] else [s[|s| - 1]] + Reverse(s[..|s| - 1])
  }

  lemma ReverseAppend(s: seq<nat>, x: nat)
    ensures Reverse(s + [x]) == [x] + Reverse(s)
  {
    assert (s + [x])[..|s|] == s;
  }

  lemma AppendAssoc(a: seq<nat>, x: nat, b: seq<nat>)
    ensures (a + [x]) + b == a + ([x] + b)
  {
  }

  /** The two divmod loops of the source, least significant digit first and reversed at the end. */
  method DivmodDigits(base: nat, number: nat) returns (digits: seq<nat>)
    requires base >= 2
    ensures digits == Minimal(base, number)
  {
    var n: nat := number;
    var out: seq<nat> := [];
    while n > 0
      invariant Minimal(base, number) == Minimal(base, n) + Reverse(out)
      decreases n
    {
      Shrinks(base, n);
      ReverseAppend(out, n % base);
      AppendAssoc(Minimal(base, n / base), n % base, Reverse(out));
      n, out := n / base, out + [n % base];
    }
    return Reverse(out);
  }

  /** The counting loop of the source. */
  method CountLeading(ds: seq<nat>) returns (k: nat)
    ensures k == LeadingZeros(ds)
  {
    k := 0;
    while k < |ds| && ds[k] == 0
      invariant k <= |ds| && forall i | 0 <= i < k :: ds[i] == 0
    {
      k := k + 1;
    }
    CountIs(ds, k);
  }

  lemma CountIs(ds: seq<nat>, k: nat)
    requires k <= |ds| && forall i | 0 <= i < k :: ds[i] == 0
    requires k < |ds| ==> ds[k] != 0
    ensures LeadingZeros(ds) == k
  {
    var l := LeadingZeros(ds);
    assert !(l < k) by {
      assert forall i | 0 <= i < k :: ds[i] == 0;
    }
  }

  // ------------------------------------------------------------------ the alphabet

  const ALPHABET: string := "123456789ABCDEFGH" + "JKLMNPQRSTUVWXYZ" + "abcdefghijkmnopqrstuvwxyz"

  /** The alphabet by its runs of neighbouring letters. */
  function Letter(d: nat): char
    requires d < 58
  {
    if d < 9 then '1' + d as char
    else if d < 17 then 'A' + (d - 9) as char
    else if d < 22 then 'J' + (d - 17) as char
    else if d < 33 then 'P' + (d - 22) as char
    else if d < 44 then 'a' + (d - 33) as char
    else 'm' + (d - 44) as char
  }

  lemma AlphabetIs(d: nat)
    requires d < 58
    ensures |ALPHABET| == 58 && ALPHABET[d] == Letter(d)
  {
  }

  lemma LetterInjective(i: nat, j: nat)
    requires i < j < 58
    ensures Letter(i) != Letter(j)
  {
  }

  lemma LettersDistinct()
    ensures |ALPHABET| == 58 && Distinct(ALPHABET)
  {
    AlphabetIs(0);
    forall i, j | 0 <= i < j < |ALPHABET|
      ensures ALPHABET[i] != ALPHABET[j]
    {
      AlphabetIs(i);
      AlphabetIs(j);
      LetterInjective(i, j);
    }
  }

  // ------------------------------------------------------------------ base58

  function Encode(data: bytes): string {
    AlphabetIs(0);
    Text(ALPHABET, Transcode(256, 58, data))
  }

  function Decode(text: string): Result<bytes> {
    var ds :- Indices(ALPHABET, text);
    AlphabetIs(0);
    Ok(Transcode(58, 256, ds))
  }

  method Base58Encode(data: bytes) returns (text: string)
    ensures text == Encode(data)
  {
    var zeros := CountLeading(data);
    var digits := DivmodDigits(58, Value(256, data));
    AlphabetIs(0);
    text := Text(ALPHABET, Zeros(zeros) + digits);
  }

  /** The decoding loop: digits are accumulated one character at a time. */
  method Base58Decode(text: string) returns (r: Result<bytes>)
    ensures r == Decode(text)
  {
    var n: nat := 0;
    var ds: seq<nat> := [];
    for i := 0 to |text|
      invariant Indices(ALPHABET, text[..i]) == Ok(ds)
      invariant n == Value(58, ds)
    {
      assert text[..i + 1][..i] == text[..i];
      var idx := Find(ALPHABET, text[i]);
      if idx.None? {
        IndicesStop(ALPHABET, text, i);
        return Err;
      }
      assert (ds + [idx.value])[..|ds|] == ds;
      n, ds := n * 58 + idx.value, ds + [idx.value];
    }
    assert text[..|text|] == text;
    var zeros := CountLeading(ds);
    var body := DivmodDigits(256, n);
    return Ok(Zeros(zeros) + body);
  }

  lemma DecodeEncode(data: bytes)
    ensures Decode(Encode(data)) == Ok(data)
  {
    LettersDistinct();
    IndicesText(ALPHABET, Transcode(256, 58, data));
    TranscodeInverse(256, 58, data);
  }

  /** Exactly the strings over the alphabet decode, and each is the encoding of what it decodes to. */
  lemma EncodeDecode(text: string)
    ensures Decode(text).Ok? <==> forall i | 0 <= i < |text| :: Find(ALPHABET, text[i]).Some?
    ensures Decode(text).Ok? ==> Encode(Decode(text).value) == text
  {
    AlphabetIs(0);
    OverAlphabet(ALPHABET, text);
    if Decode(text).Ok? {
      TextIndices(ALPHABET, text);
      TranscodeInverse(58, 256, Indices(ALPHABET, text).value);
    }
  }

  // ------------------------------------------------------------------ Solana addresses

  lemma {:induction false} PowerBaseMono(a: nat, b: nat, e: nat)
    requires 1 <= a <= b
    ensures Power(a, e) <= Power(b, e)
  {
    if e > 0 {
      PowerBaseMono(a, b, e - 1);
      MulMono(a, b, Power(a, e - 1));
      MulMono(Power(a, e - 1), Power(b, e - 1), b);
    }
  }

  lemma EncodedLength(data: bytes)
    ensures |Encode(data)| == LeadingZeros(data) + |Minimal(58, Value(256, data))|
  {
  }

  /** No encoding is shorter than its input. */
  lemma NotShorter(data: bytes)
    ensures |Encode(data)| >= |data|
  {
    hide Encode;
    EncodedLength(data);
    var k := LeadingZeros(data);
    var rest := data[k..];
    assert data == Zeros(k) + rest;
    ValueZeros(256, k, rest);
    var v := Value(256, rest);
    if |rest| > 0 {
      ValueLower(256, rest);
      MulMono(1, rest[0], Power(256, |rest| - 1));
      PowerBaseMono(58, 256, |rest| - 1);
      MinimalLength(58, v, |rest| - 1);
    }
  }

  lemma EightInEleven()
    ensures Power(256, 8) <= Power(58, 11)
  {
    assert Power(256, 4) == 0x1_0000_0000;
    PowerAdd(256, 4, 4);
    assert Power(58, 4) == 11316496;
    PowerAdd(58, 4, 4);
    PowerAdd(58, 8, 3);
    assert Power(58, 3) == 195112;
  }

  lemma ThirtyTwoInFortyFour()
    ensures Power(256, 32) <= Power(58, 44)
  {
    EightInEleven();
    var a, b := Power(256, 8), Power(58, 11);
    PowerAdd(256, 8, 8);
    PowerAdd(58, 11, 11);
    MulMono(a, b, a);
    MulMono(a, b, b);
    PowerAdd(256, 16, 16);
    PowerAdd(58, 22, 22);
    var c, d := Power(256, 16), Power(58, 22);
    MulMono(c, d, c);
    MulMono(c, d, d);
  }

  /** With `k` bytes and `k` digits fewer the digits still suffice. */
  lemma FewerBytes(k: nat)
    requires k <= 32
    ensures Power(256, 32 - k) <= Power(58, 44 - k)
  {
    ThirtyTwoInFortyFour();
    PowerAdd(256, 32 - k, k);
    PowerAdd(58, 44 - k, k);
    PowerBaseMono(58, 256, k);
    Cancel(Power(256, 32 - k), Power(58, 44 - k), Power(256, k), Power(58, k));
  }

  lemma Cancel(a: nat, b: nat, c: nat, d: nat)
    requires 1 <= d <= c && a * c <= b * d
    ensures a <= b
  {
    MulMono(d, c, b);
    MulDistr(b, 1, c);
    if a > b {
      MulMono(b + 1, a, c);
    }
  }

  /** A 32-byte key spells an address of 32 to 44 characters. */
  lemma SolanaLength(key: bytes)
    requires |key| == 32
    ensures 32 <= |Encode(key)| <= 44
  {
    hide Encode;
    EncodedLength(key);
    NotShorter(key);
    var k := LeadingZeros(key);
    var rest := key[k..];
    assert key == Zeros(k) + rest;
    ValueZeros(256, k, rest);
    ValueBound(256, rest);
    FewerBytes(k);
    MinimalLength(58, Value(256, rest), 44 - k);
  }

  function PublicKeyFromAddress(address: string): Result<bytes> {
    var raw :- Decode(address);
    if |raw| != 32 then Err else Ok(raw)
  }

  /** An address is accepted for a key exactly when it is that key's address. */
  lemma SolanaAddress(address: string, key: bytes)
    ensures PublicKeyFromAddress(address) == Ok(key) <==> |key| == 32 && address == Encode(key)
  {
    EncodeDecode(address);
    DecodeEncode(key);
  }

  // ------------------------------------------------------------------ base58check

  /** `checksum` stands for the first four bytes of a double SHA-256. */
  ghost predicate FourBytes(checksum: bytes -> bytes) {
    forall p :: |checksum(p)| == 4
  }

  function CheckEncode(checksum: bytes -> bytes, payload: bytes): string {
    Encode(payload + checksum(payload))
  }

  function CheckDecode(checksum: bytes -> bytes, text: string): Result<bytes> {
    var full :- Decode(text);
    if |full| < 5 then Err
    else
      var payload := full[..|full| - 4];
      if full[|full| - 4..] != checksum(payload) then Err else Ok(payload)
  }

  /** A text is accepted for a payload exactly when the payload is not empty and the text is its encoding: the empty
      payload is encoded but refused. */
  lemma CheckExactly(checksum: bytes -> bytes, text: string, payload: bytes)
    requires FourBytes(checksum)
    ensures CheckDecode(checksum, text) == Ok(payload) <==>
            |payload| > 0 && text == CheckEncode(checksum, payload)
  {
    var full := payload + checksum(payload);
    DecodeEncode(full);
    EncodeDecode(text);
    assert full[..|full| - 4] == payload && full[|full| - 4..] == checksum(payload);
    if CheckDecode(checksum, text) == Ok(payload) {
      var raw := Decode(text).value;
      assert raw == raw[..|raw| - 4] + raw[|raw| - 4..];
    }
  }

  // ------------------------------------------------------------------ TRON addresses

  lemma PowersOf256()
    ensures Power(256, 24) == 6277101735386680763835789423207666416102355444464034512896
  {
    assert Power(256, 4) == 0x1_0000_0000;
    PowerAdd(256, 4, 4);
    assert Power(256, 8) == 18446744073709551616;
    PowerAdd(256, 8, 8);
    PowerAdd(256, 16, 8);
  }

  lemma PowersOf58()
    ensures Power(58, 33) == 15599970876632771988160814054146447252125923204784443097088
  {
    assert Power(58, 3) == 195112 && Power(58, 4) == 11316496;
    PowerAdd(58, 4, 4);
    PowerAdd(58, 8, 3);
    assert Power(58, 11) == 24986644000165537792;
    PowerAdd(58, 11, 11);
    PowerAdd(58, 22, 11);
  }

  /** A number between 26 and 27 times 58^33 has 34 digits, the first of them 26. */
  lemma ThirtyFourDigits(v: nat)
    requires 26 * Power(58, 33) <= v < 27 * Power(58, 33)
    ensures |Minimal(58, v)| == 34 && Minimal(58, v)[0] == 26
  {
    var ds, unit := Minimal(58, v), Power(58, 33);
    PowersOf58();
    MinimalLength(58, v, 33);
    MinimalLength(58, v, 34);
    assert Power(58, 34) == 58 * unit;
    MinimalValue(58, v);
    LeadingDigit(58, ds);
    if ds[0] < 26 {
      MulMono(ds[0] + 1, 26, unit);
      MulDistr(ds[0], 1, unit);
    } else if ds[0] > 26 {
      MulMono(27, ds[0], unit);
    }
  }

  /** Every 21-byte payload that starts with the mainnet version byte spells 34 characters starting with T, whatever
      its checksum. */
  lemma TronShape(checksum: bytes -> bytes, payload: bytes)
    requires FourBytes(checksum)
    requires |payload| == 21 && payload[0] == 0x41
    ensures var s := CheckEncode(checksum, payload); |s| == 34 && s[0] == 'T'
  {
    var full := payload + checksum(payload);
    var v := Value(256, full);
    LeadingDigit(256, full);
    PowersOf256();
    PowersOf58();
    ThirtyFourDigits(v);
    assert LeadingZeros(full) == 0;
    assert Zeros(0) + Minimal(58, v) == Minimal(58, v);
    AlphabetIs(26);
  }
}
