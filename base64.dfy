/**
 * Base 64 as RFC 4648 defines it: the standard alphabet of section 4 with
 * `=` padding (what `btoa` produces and `Buffer.from(s, 'base64')` reads), and
 * the URL- and filename-safe variant of section 5, which the content-id links
 * use with the padding stripped.
 */
module Base64 {
  import opened Wrappers

  type Byte = x: int | 0 <= x < 256

  type Sextet = x: int | 0 <= x < 64

  /** Table 1 of RFC 4648: the character encoding each 6-bit value. */
  function Alphabet(i: Sextet): (c: char)
    ensures IsAlphabet(c)
  {
    if i < 26 then ('A' as int + i) as char
    else if i < 52 then ('a' as int + (i - 26)) as char
    else if i < 62 then ('0' as int + (i - 52)) as char
    else if i == 62 then '+'
    else '/'
  }

  predicate IsAlphabet(c: char) {
    ('A' <= c <= 'Z') || ('a' <= c <= 'z') || ('0' <= c <= '9') || c == '+' || c == '/'
  }

  /** The value a character of the alphabet stands for. */
  function Value(c: char): (v: Sextet)
    requires IsAlphabet(c)
  {
    if 'A' <= c <= 'Z' then c as int - 'A' as int
    else if 'a' <= c <= 'z' then c as int - 'a' as int + 26
    else if '0' <= c <= '9' then c as int - '0' as int + 52
    else if c == '+' then 62
    else 63
  }

  /** The alphabet and its values are inverse to each other. */
  lemma ValueOfAlphabet(i: Sextet)
    ensures Value(Alphabet(i)) == i
  {
  }

  lemma AlphabetOfValue(c: char)
    requires IsAlphabet(c)
    ensures Alphabet(Value(c)) == c
  {
  }

  // ------------------------------------------------------------------ encoding

  /** Three bytes as four characters, most significant bits first. */
  function Quad(b0: Byte, b1: Byte, b2: Byte): string {
    [Alphabet(b0 / 4), Alphabet(b0 % 4 * 16 + b1 / 16), Alphabet(b1 % 16 * 4 + b2 / 64), Alphabet(b2 % 64)]
  }

  /** The characters of a final group of one or two bytes, before its padding. */
  function Partial(b: seq<Byte>): (r: string)
    requires 1 <= |b| <= 2
    ensures |r| == |b| + 1
  {
    if |b| == 1 then [Alphabet(b[0] / 4), Alphabet(b[0] % 4 * 16)]
    else [Alphabet(b[0] / 4), Alphabet(b[0] % 4 * 16 + b[1] / 16), Alphabet(b[1] % 16 * 4)]
  }

  /** `=` repeated `n` times. */
  function Padding(n: nat): (r: string)
    ensures |r| == n && forall k :: 0 <= k < n ==> r[k] == '='
  {
    if n == 0 then [] else Padding(n - 1) + "="
  }

  /** Section 4 encoding (`btoa` over bytes): every group of three bytes as four characters, the last one padded. */
  function Encode(b: seq<Byte>): (r: string)
    ensures |r| % 4 == 0 && (b == [] <==> r == [])
    decreases |b|
  {
    if b == [] then []
    else if |b| < 3 then Partial(b) + Padding(3 - |b|)
    else Quad(b[0], b[1], b[2]) + Encode(b[3..])
  }

  /** The characters of `Encode(b)` without its padding. */
  function EncodeCore(b: seq<Byte>): (r: string)
    ensures forall k :: 0 <= k < |r| ==> IsAlphabet(r[k])
    ensures |r| == |b| / 3 * 4 + (if |b| % 3 == 0 then 0 else |b| % 3 + 1)
    decreases |b|
  {
    if b == [] then []
    else if |b| < 3 then Partial(b)
    else Quad(b[0], b[1], b[2]) + EncodeCore(b[3..])
  }

  /** The encoding is its alphabet characters followed by one `=` per byte missing from the last group. */
  lemma {:induction false} EncodeShape(b: seq<Byte>)
    ensures Encode(b) == EncodeCore(b) + Padding((3 - |b| % 3) % 3)
    decreases |b|
  {
    if |b| >= 3 {
      EncodeShape(b[3..]);
      EncodeShapeGroup(b);
    } else if b != [] {
      assert (3 - |b| % 3) % 3 == 3 - |b|;
    }
  }

  /** A full first group keeps the shape of the rest's encoding. */
  lemma EncodeShapeGroup(b: seq<Byte>)
    requires |b| >= 3
    requires Encode(b[3..]) == EncodeCore(b[3..]) + Padding((3 - |b[3..]| % 3) % 3)
    ensures Encode(b) == EncodeCore(b) + Padding((3 - |b| % 3) % 3)
  {
    var q := Quad(b[0], b[1], b[2]);
    Mod3Step(|b|);
    var pad := Padding((3 - |b| % 3) % 3);
    assert Padding((3 - |b[3..]| % 3) % 3) == pad;
    assert Encode(b) == q + (EncodeCore(b[3..]) + pad);
    assert EncodeCore(b) == q + EncodeCore(b[3..]);
  }

  lemma Mod4Step(n: int)
    requires n % 4 == 0
    ensures (4 + n) % 4 == 0
  {
  }

  lemma Mod3Step(n: int)
    ensures (n - 3) % 3 == n % 3
  {
  }

  /** The padding `PadFor` restores for an unpadded encoding of `m` bytes is the stripped one. */
  lemma PadForCore(m: nat)
    ensures PadFor(m / 3 * 4 + (if m % 3 == 0 then 0 else m % 3 + 1)) == (3 - m % 3) % 3
  {
    var q, r := m / 3, m % 3;
    var len := q * 4 + (if r == 0 then 0 else r + 1);
    assert len % 4 == (if r == 0 then 0 else r + 1) by {
      assert len == q * 4 + (if r == 0 then 0 else r + 1);
    }
  }

  // ------------------------------------------------------------------ decoding

  /** Four characters of the alphabet as three bytes. */
  function Bytes3(q: string): (r: seq<Byte>)
    requires |q| == 4 && IsAlphabet(q[0]) && IsAlphabet(q[1]) && IsAlphabet(q[2]) && IsAlphabet(q[3])
    ensures |r| == 3
  {
    var v0, v1, v2, v3 := Value(q[0]), Value(q[1]), Value(q[2]), Value(q[3]);
    [v0 * 4 + v1 / 16, v1 % 16 * 16 + v2 / 4, v2 % 4 * 64 + v3]
  }

  /** The final group: four characters, or two or three followed by `=` padding. */
  function DecodeLast(q: string): (r: Option<seq<Byte>>)
    requires |q| == 4
    ensures r.Some? ==> 1 <= |r.value| <= 3
  {
    if !IsAlphabet(q[0]) || !IsAlphabet(q[1]) then None
    else if q[2] == '=' && q[3] == '=' then
      Some([Value(q[0]) * 4 + Value(q[1]) / 16])
    else if IsAlphabet(q[2]) && q[3] == '=' then
      Some([Value(q[0]) * 4 + Value(q[1]) / 16, Value(q[1]) % 16 * 16 + Value(q[2]) / 4])
    else if IsAlphabet(q[2]) && IsAlphabet(q[3]) then
      Some(Bytes3(q))
    else None
  }

  /**
   * Section 4 decoding of a padded string: None unless its length is a
   * multiple of four, every group but the last is four alphabet characters,
   * and the last is a full or a padded group.
   */
  function Decode(s: string): (r: Option<seq<Byte>>)
    decreases |s|
  {
    if |s| % 4 != 0 then None
    else if s == [] then Some([])
    else if |s| == 4 then DecodeLast(s)
    else if IsAlphabet(s[0]) && IsAlphabet(s[1]) && IsAlphabet(s[2]) && IsAlphabet(s[3]) then
      match Decode(s[4..])
      case None => None
      case Some(rest) => Some(Bytes3(s[..4]) + rest)
    else None
  }

  /** Packing a small value below a multiple of 16, and unpacking it again. */
  lemma Pack16(a: int, b: int)
    requires 0 <= b < 16
    ensures (a * 16 + b) / 16 == a && (a * 16 + b) % 16 == b
  {
  }

  lemma Pack4(a: int, b: int)
    requires 0 <= b < 4
    ensures (a * 4 + b) / 4 == a && (a * 4 + b) % 4 == b
  {
  }

  /** Three bytes cut into four sextets and joined back give the same bytes. */
  lemma QuadBytes(b0: Byte, b1: Byte, b2: Byte)
    ensures Bytes3(Quad(b0, b1, b2)) == [b0, b1, b2]
  {
    var v0, v1, v2, v3 := b0 / 4, b0 % 4 * 16 + b1 / 16, b1 % 16 * 4 + b2 / 64, b2 % 64;
    Pack16(b0 % 4, b1 / 16);
    Pack4(b1 % 16, b2 / 64);
    assert v0 * 4 + v1 / 16 == b0;
    assert v1 % 16 * 16 + v2 / 4 == b1;
    assert v2 % 4 * 64 + v3 == b2;
    var q := Quad(b0, b1, b2);
    ValueOfAlphabet(v0);
    ValueOfAlphabet(v1);
    ValueOfAlphabet(v2);
    ValueOfAlphabet(v3);
    assert Value(q[0]) == v0 && Value(q[1]) == v1 && Value(q[2]) == v2 && Value(q[3]) == v3;
  }

  lemma DecodeOne(b0: Byte)
    ensures DecodeLast(Partial([b0]) + Padding(2)) == Some([b0])
  {
    var p := Partial([b0]) + Padding(2);
    ValueOfAlphabet(b0 / 4);
    ValueOfAlphabet(b0 % 4 * 16);
    assert p[2] == '=' && p[3] == '=';
    assert Value(p[0]) * 4 + Value(p[1]) / 16 == b0;
  }

  lemma DecodeTwo(b0: Byte, b1: Byte)
    ensures DecodeLast(Partial([b0, b1]) + Padding(1)) == Some([b0, b1])
  {
    var p := Partial([b0, b1]) + Padding(1);
    var v1 := b0 % 4 * 16 + b1 / 16;
    var v2 := b1 % 16 * 4;
    ValueOfAlphabet(b0 / 4);
    ValueOfAlphabet(v1);
    ValueOfAlphabet(v2);
    assert p[3] == '=' && IsAlphabet(p[2]) && p[2] != '=';
    assert Value(p[0]) * 4 + Value(p[1]) / 16 == b0;
    assert Value(p[1]) % 16 * 16 + Value(p[2]) / 4 == b1;
  }

  /** A last group of one or two bytes decodes back to them. */
  lemma DecodePartial(b: seq<Byte>)
    requires 1 <= |b| <= 2
    ensures DecodeLast(Partial(b) + Padding(3 - |b|)) == Some(b)
  {
    if |b| == 1 {
      assert b == [b[0]];
      DecodeOne(b[0]);
    } else {
      assert b == [b[0], b[1]];
      DecodeTwo(b[0], b[1]);
    }
  }

  /** A full group in front of a well-formed rest decodes to its three bytes in front of the rest's bytes. */
  lemma DecodeCons(q: string, rest: string)
    requires |q| == 4 && IsAlphabet(q[0]) && IsAlphabet(q[1]) && IsAlphabet(q[2]) && IsAlphabet(q[3])
    requires |rest| % 4 == 0 && Decode(rest).Some?
    ensures Decode(q + rest) == Some(Bytes3(q) + Decode(rest).value)
  {
    var s := q + rest;
    Mod4Step(|rest|);
    assert s[..4] == q && s[4..] == rest;
    if rest == [] {
      assert s == q;
      assert Bytes3(q) + [] == Bytes3(q);
    }
  }

  /** Decoding undoes encoding: the section 4 round trip. */
  lemma {:induction false} DecodeEncode(b: seq<Byte>)
    ensures Decode(Encode(b)) == Some(b)
    decreases |b|
  {
    if |b| == 0 {
    } else if |b| < 3 {
      DecodeEncodeLast(b);
    } else {
      DecodeEncode(b[3..]);
      DecodeEncodeGroup(b);
    }
  }

  /** A last group of one or two bytes: its padded encoding decodes back to it. */
  lemma DecodeEncodeLast(b: seq<Byte>)
    requires 1 <= |b| < 3
    ensures Decode(Encode(b)) == Some(b)
  {
    var s := Partial(b) + Padding(3 - |b|);
    assert Encode(b) == s;
    DecodePartial(b);
    assert |s| == 4;
  }

  /** A full first group: if the rest round-trips, so does the whole. */
  lemma DecodeEncodeGroup(b: seq<Byte>)
    requires |b| >= 3
    requires Decode(Encode(b[3..])) == Some(b[3..])
    ensures Decode(Encode(b)) == Some(b)
  {
    var q := Quad(b[0], b[1], b[2]);
    var rest := Encode(b[3..]);
    assert Encode(b) == q + rest;
    assert IsAlphabet(q[0]) && IsAlphabet(q[1]) && IsAlphabet(q[2]) && IsAlphabet(q[3]);
    DecodeCons(q, rest);
    QuadBytes(b[0], b[1], b[2]);
    FirstThree(b);
  }

  lemma FirstThree<T>(s: seq<T>)
    requires |s| >= 3
    ensures s == [s[0], s[1], s[2]] + s[3..]
  {
  }

  // ------------------------------------------------------- the URL-safe variant

  /** Section 5 replaces `+` by `-` and `/` by `_`. */
  function ToUrlChar(c: char): char {
    if c == '+' then '-' else if c == '/' then '_' else c
  }

  function FromUrlChar(c: char): char {
    if c == '-' then '+' else if c == '_' then '/' else c
  }

  /** `s.replaceAll('+','-').replaceAll('/','_')`. */
  function ToUrl(s: string): (r: string)
    ensures |r| == |s| && forall k :: 0 <= k < |s| ==> r[k] == ToUrlChar(s[k])
  {
    seq(|s|, k requires 0 <= k < |s| => ToUrlChar(s[k]))
  }

  /** `s.replaceAll('-','+').replaceAll('_','/')`. */
  function FromUrl(s: string): (r: string)
    ensures |r| == |s| && forall k :: 0 <= k < |s| ==> r[k] == FromUrlChar(s[k])
  {
    seq(|s|, k requires 0 <= k < |s| => FromUrlChar(s[k]))
  }

  /** `s.replace(/=+$/g, '')`: drops the trailing run of `=`. */
  function StripPadding(s: string): (r: string)
    ensures |r| <= |s| && r == s[..|r|]
    ensures r == [] || r[|r| - 1] != '='
    ensures forall k :: |r| <= k < |s| ==> s[k] == '='
  {
    if s != [] && s[|s| - 1] == '=' then StripPadding(s[..|s| - 1]) else s
  }

  /** `'='.repeat((4 - (len % 4)) % 4)`: the padding that brings `len` to a multiple of four. */
  function PadFor(len: nat): (n: nat)
    ensures n < 4 && (len + n) % 4 == 0
  {
    (4 - len % 4) % 4
  }

  /** Stripping the padding of a string that does not end in `=` gives it back. */
  lemma {:induction false} StripPaddingOf(core: string, n: nat)
    requires core == [] || core[|core| - 1] != '='
    ensures StripPadding(core + Padding(n)) == core
  {
    if n > 0 {
      assert (core + Padding(n))[..|core| + n - 1] == core + Padding(n - 1);
      StripPaddingOf(core, n - 1);
    } else {
      assert core + Padding(n) == core;
    }
  }

  /** Bytes to their section 5 form without padding, as the page's `b64urlEncode` produces it. */
  function UrlEncode(b: seq<Byte>): string {
    StripPadding(ToUrl(Encode(b)))
  }

  /** A section 5 string back to bytes: undo the character swap, pad, decode. */
  function UrlDecode(s: string): Option<seq<Byte>> {
    var b64 := FromUrl(s);
    Decode(b64 + Padding(PadFor(|b64|)))
  }

  /** Without its padding, the section 5 form is the swapped alphabet characters of the encoding. */
  lemma UrlEncodeCore(b: seq<Byte>)
    ensures UrlEncode(b) == ToUrl(EncodeCore(b))
  {
    var core := EncodeCore(b);
    var n := (3 - |b| % 3) % 3;
    EncodeShape(b);
    assert ToUrl(core + Padding(n)) == ToUrl(core) + Padding(n);
    StripPaddingOf(ToUrl(core), n);
  }

  /** Swapping back undoes the swap on alphabet characters. */
  lemma FromToUrl(s: string)
    requires forall k :: 0 <= k < |s| ==> IsAlphabet(s[k])
    ensures FromUrl(ToUrl(s)) == s
  {
  }

  /** The section 5 round trip: re-padding restores exactly the stripped `=`. */
  lemma UrlRoundTrip(b: seq<Byte>)
    ensures UrlDecode(UrlEncode(b)) == Some(b)
  {
    var core := EncodeCore(b);
    var n := (3 - |b| % 3) % 3;
    UrlEncodeCore(b);
    FromToUrl(core);
    assert FromUrl(UrlEncode(b)) == core;
    PadForCore(|b|);
    assert PadFor(|core|) == n;
    EncodeShape(b);
    assert core + Padding(n) == Encode(b);
    DecodeEncode(b);
  }

  /** The section 5 form uses only letters, digits, `-` and `_`. */
  lemma UrlEncodeChars(b: seq<Byte>)
    ensures var s := UrlEncode(b);
      forall k :: 0 <= k < |s| ==> ('A' <= s[k] <= 'Z') || ('a' <= s[k] <= 'z') || ('0' <= s[k] <= '9') || s[k] == '-' || s[k] == '_'
    ensures b != [] ==> |UrlEncode(b)| >= 2
  {
    UrlEncodeCore(b);
  }
}
