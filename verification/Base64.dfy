/**
  The two base64 engines the programs use. STANDARD has the `+` `/` alphabet, demands padding and
  rejects non-zero trailing bits (RFC 4648, sections 3.2, 3.5 and 4); URL_SAFE_NO_PAD has the `-` `_`
  alphabet and forbids padding (RFC 4648, section 5).
 */
module Base64 {
  import opened Basics

  datatype Variant = Standard | UrlSafeNoPad

  type sextet = x: int | 0 <= x < 64

  function SextetChar(v: Variant, x: sextet): char {
    if x < 26 then ('A' as int + x) as char
    else if x < 52 then ('a' as int + x - 26) as char
    else if x < 62 then ('0' as int + x - 52) as char
    else if x == 62 then (if v.Standard? then '+' else '-')
    else (if v.Standard? then '/' else '_')
  }

  function CharSextet(v: Variant, c: char): Option<sextet> {
    if 'A' <= c <= 'Z' then Some(c as int - 'A' as int)
    else if 'a' <= c <= 'z' then Some(c as int - 'a' as int + 26)
    else if '0' <= c <= '9' then Some(c as int - '0' as int + 52)
    else if c == SextetChar(v, 62) then Some(62)
    else if c == SextetChar(v, 63) then Some(63)
    else None
  }

  lemma CharOfSextet(v: Variant, x: sextet)
    ensures CharSextet(v, SextetChar(v, x)) == Some(x)
  {
  }

  lemma SextetOfChar(v: Variant, c: char)
    requires CharSextet(v, c).Some?
    ensures SextetChar(v, CharSextet(v, c).value) == c
  {
  }

  function Padding(v: Variant, n: nat): string {
    if v.Standard? then seq(n, _ => '=') else ""
  }

  /** One, two or three bytes as two, three or four sextets. */
  function Pack(g: bytes): (q: seq<sextet>)
    requires 1 <= |g| <= 3
    ensures |q| == |g| + 1
  {
    if |g| == 1 then [g[0] / 4, g[0] % 4 * 16]
    else if |g| == 2 then [g[0] / 4, g[0] % 4 * 16 + g[1] / 16, g[1] % 16 * 4]
    else [g[0] / 4, g[0] % 4 * 16 + g[1] / 16, g[1] % 16 * 4 + g[2] / 64, g[2] % 64]
  }

  /** Two, three or four sextets as bytes; in a short group the unused low bits must be zero. */
  function Unpack(q: seq<sextet>): (g: Option<bytes>)
    ensures g.Some? ==> 2 <= |q| <= 4 && |g.value| == |q| - 1
  {
    if |q| < 2 || |q| > 4 then None
    else
      var a: int, b: int := q[0], q[1];
      if |q| == 2 then
        if b % 16 == 0 then Some([a * 4 + b / 16]) else None
      else
        var c: int := q[2];
        if |q| == 3 then
          if c % 4 == 0 then Some([a * 4 + b / 16, b % 16 * 16 + c / 4]) else None
        else
          var d: int := q[3];
          Some([a * 4 + b / 16, b % 16 * 16 + c / 4, c % 4 * 64 + d])
  }

  lemma UnpackPack(g: bytes)
    requires 1 <= |g| <= 3
    ensures Unpack(Pack(g)) == Some(g)
  {
    if |g| > 1 {
      var b: int := g[0] % 4 * 16 + g[1] / 16;
      assert b / 16 == g[0] % 4 && b % 16 == g[1] / 16;
    }
    if |g| > 2 {
      var c: int := g[1] % 16 * 4 + g[2] / 64;
      assert c / 4 == g[1] % 16 && c % 4 == g[2] / 64;
    }
    assert Unpack(Pack(g)).value == g;
  }

  lemma PackUnpack(q: seq<sextet>)
    requires Unpack(q).Some?
    ensures Pack(Unpack(q).value) == q
  {
    var g := Unpack(q).value;
    assert g[0] / 4 == q[0] && g[0] % 4 == q[1] / 16;
    if |q| > 2 {
      assert g[1] / 16 == q[1] % 16 && g[1] % 16 == q[2] / 4;
    }
  }

  function Chars(v: Variant, q: seq<sextet>): (s: string)
    ensures |s| == |q|
  {
    seq(|q|, i requires 0 <= i < |q| => SextetChar(v, q[i]))
  }

  function Sextets(v: Variant, s: string): (q: Option<seq<sextet>>)
    ensures q.Some? <==> forall c :: c in s ==> CharSextet(v, c).Some?
    ensures q.Some? ==> |q.value| == |s| && forall i :: 0 <= i < |s| ==> CharSextet(v, s[i]) == Some(q.value[i])
  {
    Collect(c => CharSextet(v, c), s)
  }

  function EncodeGroup(v: Variant, g: bytes): (s: string)
    requires 1 <= |g| <= 3
    ensures |s| == |g| + 1
  {
    Chars(v, Pack(g))
  }

  function DecodeGroup(v: Variant, t: string): (g: Option<bytes>)
    ensures g.Some? ==> 2 <= |t| <= 4 && |g.value| == |t| - 1
  {
    var q :- Sextets(v, t);
    Unpack(q)
  }

  lemma DecodeEncodeGroup(v: Variant, g: bytes)
    requires 1 <= |g| <= 3
    ensures DecodeGroup(v, EncodeGroup(v, g)) == Some(g)
    ensures forall c :: c in EncodeGroup(v, g) ==> CharSextet(v, c).Some?
  {
    var q, s := Pack(g), EncodeGroup(v, g);
    forall i | 0 <= i < |q| ensures CharSextet(v, s[i]) == Some(q[i]) { CharOfSextet(v, q[i]); }
    assert Sextets(v, s).value == q;
    UnpackPack(g);
  }

  lemma CharsSextets(v: Variant, t: string)
    requires Sextets(v, t).Some?
    ensures Chars(v, Sextets(v, t).value) == t
    ensures '=' !in t
  {
    var q := Sextets(v, t).value;
    forall i | 0 <= i < |t| ensures SextetChar(v, q[i]) == t[i] { SextetOfChar(v, t[i]); }
  }

  lemma EncodeDecodeGroup(v: Variant, t: string)
    requires DecodeGroup(v, t).Some?
    ensures EncodeGroup(v, DecodeGroup(v, t).value) == t
    ensures '=' !in t
  {
    CharsSextets(v, t);
    PackUnpack(Sextets(v, t).value);
  }

  function Encode(v: Variant, b: bytes): string {
    if |b| == 0 then ""
    else if |b| < 3 then EncodeGroup(v, b) + Padding(v, 3 - |b|)
    else EncodeGroup(v, b[..3]) + Encode(v, b[3..])
  }

  function Decode(v: Variant, s: string): Option<bytes> {
    if |s| == 0 then Some([])
    else if v.Standard? && |s| == 4 && s[3] == '=' then
      DecodeGroup(v, if s[2] == '=' then s[..2] else s[..3])
    else if |s| < 4 then
      if v.Standard? then None else DecodeGroup(v, s)
    else
      var group :- DecodeGroup(v, s[..4]);
      var rest :- Decode(v, s[4..]);
      Some(group + rest)
  }

  /** A short group decodes with its padding, or without any in the engine that has none. */
  lemma DecodeShort(v: Variant, t: string)
    requires 2 <= |t| < 4 && Sextets(v, t).Some?
    ensures Decode(v, t + Padding(v, 4 - |t|)) == DecodeGroup(v, t)
  {
    var s := t + Padding(v, 4 - |t|);
    CharsSextets(v, t);
    match v
    case Standard =>
      assert |s| == 4 && s[3] == '=' && s[..|t|] == t;
      assert s[2] == if |t| == 2 then '=' else t[2];
      assert |t| == 3 ==> t[2] in t;
    case UrlSafeNoPad =>
      assert s == t;
  }

  lemma DecodeEncodeLast(v: Variant, b: bytes)
    requires 1 <= |b| < 3
    ensures Decode(v, Encode(v, b)) == Some(b)
  {
    DecodeEncodeGroup(v, b);
    DecodeShort(v, EncodeGroup(v, b));
  }

  /** Decoding undoes encoding, for all bytes and both engines. */
  lemma {:induction false} DecodeEncode(v: Variant, b: bytes)
    ensures Decode(v, Encode(v, b)) == Some(b)
  {
    if |b| == 0 {
    } else if |b| < 3 {
      DecodeEncodeLast(v, b);
    } else {
      DecodeEncode(v, b[3..]);
      DecodeQuad(v, b[..3], Encode(v, b[3..]));
      TakeDrop(b, 3);
    }
  }

  lemma DecodeQuad(v: Variant, g: bytes, rest: string)
    requires |g| == 3
    ensures Decode(v, EncodeGroup(v, g) + rest) == match Decode(v, rest) case Some(b) => Some(g + b) case None => None
  {
    var s := EncodeGroup(v, g) + rest;
    DecodeEncodeGroup(v, g);
    assert s[..4] == EncodeGroup(v, g) && s[4..] == rest;
    assert s[3] in EncodeGroup(v, g);
  }

  /** The text that carries padding: its group is the text without the padding. */
  lemma EncodeDecodeLast(v: Variant, t: string)
    requires DecodeGroup(v, t).Some? && |t| < 4
    ensures Encode(v, DecodeGroup(v, t).value) == t + Padding(v, 4 - |t|)
  {
    EncodeDecodeGroup(v, t);
  }

  /** Encoding undoes decoding: every accepted string is the one canonical encoding of its bytes. */
  lemma {:induction false} EncodeDecode(v: Variant, s: string)
    requires Decode(v, s).Some?
    ensures Encode(v, Decode(v, s).value) == s
    decreases s, 1
  {
    if |s| == 0 {
    } else if v.Standard? && |s| == 4 && s[3] == '=' {
      var t := if s[2] == '=' then s[..2] else s[..3];
      EncodeDecodeLast(v, t);
      assert s == t + Padding(v, 4 - |t|);
    } else if |s| < 4 {
      EncodeDecodeLast(v, s);
    } else {
      EncodeDecodeQuad(v, s);
    }
  }

  lemma {:induction false} EncodeDecodeQuad(v: Variant, s: string)
    requires Decode(v, s).Some? && |s| >= 4 && (v.Standard? && |s| == 4 ==> s[3] != '=')
    ensures Encode(v, Decode(v, s).value) == s
    decreases s, 0
  {
    var g, rest := DecodeGroup(v, s[..4]).value, Decode(v, s[4..]).value;
    EncodeDecodeGroup(v, s[..4]);
    EncodeDecode(v, s[4..]);
    assert (g + rest)[..3] == g && (g + rest)[3..] == rest;
    assert s == s[..4] + s[4..];
  }

  /** The engines accept exactly the canonical encodings. */
  lemma AcceptsExactlyEncodings(v: Variant, s: string)
    ensures Decode(v, s).Some? <==> exists b: bytes :: Encode(v, b) == s
  {
    if Decode(v, s).Some? {
      EncodeDecode(v, s);
    }
    forall b: bytes | Encode(v, b) == s ensures Decode(v, s).Some? { DecodeEncode(v, b); }
  }

  /** Two byte strings never share an encoding. */
  lemma EncodeInjective(v: Variant, a: bytes, b: bytes)
    requires Encode(v, a) == Encode(v, b)
    ensures a == b
  {
    DecodeEncode(v, a);
    DecodeEncode(v, b);
  }

  /** The length of an encoding: whole quads with padding, or four sextets for every three bytes, rounded up. */
  lemma {:induction false} EncodeLength(v: Variant, b: bytes)
    ensures |Encode(v, b)| == if v.Standard? then (|b| + 2) / 3 * 4 else (|b| * 4 + 2) / 3
  {
    if |b| >= 3 {
      EncodeLength(v, b[3..]);
    }
  }

  predicate Base64Char(v: Variant, c: char) {
    CharSextet(v, c).Some? || (v.Standard? && c == '=')
  }

  /** An encoding is made of alphabet characters and, in the padded engine, `=`. */
  lemma {:induction false} EncodeAlphabet(v: Variant, b: bytes)
    ensures forall c :: c in Encode(v, b) ==> Base64Char(v, c)
  {
    if |b| == 0 {
    } else if |b| < 3 {
      DecodeEncodeGroup(v, b);
    } else {
      DecodeEncodeGroup(v, b[..3]);
      EncodeAlphabet(v, b[3..]);
    }
  }

  // ---------------------------------------------------------------- the text, character by character

  const UPPER := "ABCDEFGHIJKLMNOPQRSTUVWXYZ"
  const LOWER := "abcdefghijklmnopqrstuvwxyz"
  const DIGITS := "0123456789"

  function Alphabet(v: Variant): (a: string)
    ensures |a| == 64
  {
    UPPER + LOWER + DIGITS + if v.Standard? then "+/" else "-_"
  }

  lemma AlphabetChar(v: Variant, x: sextet)
    ensures SextetChar(v, x) == Alphabet(v)[x]
  {
    if x < 26 {
      assert UPPER[x] == SextetChar(v, x);
    } else if x < 52 {
      assert LOWER[x - 26] == SextetChar(v, x);
    } else if x < 62 {
      assert DIGITS[x - 52] == SextetChar(v, x);
    }
  }

  /** Byte `i`, with zeros behind the last. */
  function ByteAt(b: bytes, i: nat): byte {
    if i < |b| then b[i] else 0
  }

  /** Three bytes as one number of 24 bits. */
  function Number24(b: bytes, i: nat): int {
    ByteAt(b, i) as int * 0x1_0000 + ByteAt(b, i + 1) as int * 0x100 + ByteAt(b, i + 2) as int
  }

  /** Digit `k` of four, in base 64, the highest first. */
  function Digit64(n: int, k: nat): sextet
    requires 0 <= n < 0x100_0000 && k < 4
  {
    match k
    case 0 => n / 0x4_0000
    case 1 => n / 0x1000 % 64
    case 2 => n / 64 % 64
    case _ => n % 64
  }

  lemma Divides(n: int, d: int, q: int, r: int)
    requires d in {64, 0x1000, 0x4_0000} && n == q * d + r && 0 <= r < d
    ensures n / d == q && n % d == r
  {
  }

  lemma Digits(a: byte, b: byte, c: byte)
    ensures var n := a as int * 0x1_0000 + b as int * 0x100 + c as int;
      && Digit64(n, 0) == a / 4 && Digit64(n, 1) == a % 4 * 16 + b / 16
      && Digit64(n, 2) == b % 16 * 4 + c / 64 && Digit64(n, 3) == c % 64
  {
    var x: int, y: int, z: int := a, b, c;
    var n, low := x * 0x1_0000 + y * 0x100 + z, x % 4 * 16 + y / 16;
    Divides(n, 0x4_0000, x / 4, x % 4 * 0x1_0000 + y * 0x100 + z);
    Divides(n, 0x1000, x * 16 + y / 16, y % 16 * 0x100 + z);
    Divides(x * 16 + y / 16, 64, x / 4, low);
    Divides(n, 64, x * 0x400 + y * 4 + z / 64, z % 64);
    Divides(x * 0x400 + y * 4 + z / 64, 64, x * 16 + y / 16, y % 16 * 4 + z / 64);
  }

  lemma PackAt(g: bytes, i: nat)
    requires 1 <= |g| <= 3 && i <= |g|
    ensures Pack(g)[i] == Digit64(Number24(g, 0), i)
  {
    Digits(ByteAt(g, 0), ByteAt(g, 1), ByteAt(g, 2));
  }

  lemma EncodeGroupAt(v: Variant, g: bytes, i: nat)
    requires 1 <= |g| <= 3 && i <= |g|
    ensures EncodeGroup(v, g)[i] == Alphabet(v)[Digit64(Number24(g, 0), i)]
  {
    PackAt(g, i);
    AlphabetChar(v, Digit64(Number24(g, 0), i));
  }

  /** What character `i` of an encoding should be: the digit its six bits are, or padding. */
  function CharAt(v: Variant, b: bytes, i: nat): char {
    if 6 * i < 8 * |b| then Alphabet(v)[Digit64(Number24(b, i / 4 * 3), i % 4)] else '='
  }

  lemma EncodeLastAt(v: Variant, b: bytes, i: nat)
    requires 1 <= |b| < 3 && i < |Encode(v, b)|
    ensures Encode(v, b)[i] == CharAt(v, b, i)
  {
    if i <= |b| {
      EncodeGroupAt(v, b, i);
    }
  }

  lemma EncodeFirstAt(v: Variant, b: bytes, i: nat)
    requires |b| >= 3 && i < 4
    ensures |Encode(v, b)| >= 4 && Encode(v, b)[i] == CharAt(v, b, i)
  {
    EncodeGroupAt(v, b[..3], i);
    assert Number24(b[..3], 0) == Number24(b, 0);
  }

  lemma CharAtShift(v: Variant, b: bytes, i: nat)
    requires |b| >= 3 && i >= 4
    ensures CharAt(v, b, i) == CharAt(v, b[3..], i - 4)
  {
    var k := (i - 4) / 4 * 3;
    assert i / 4 * 3 == k + 3 && (i - 4) % 4 == i % 4;
    assert ByteAt(b[3..], k) == ByteAt(b, k + 3) && ByteAt(b[3..], k + 1) == ByteAt(b, k + 4);
    assert ByteAt(b[3..], k + 2) == ByteAt(b, k + 5);
  }

  /** Encoding, character by character, without recursion: this is what the engines write. */
  lemma {:induction false} EncodeAt(v: Variant, b: bytes, i: nat)
    requires i < |Encode(v, b)|
    ensures Encode(v, b)[i] == CharAt(v, b, i)
  {
    if |b| < 3 {
      EncodeLastAt(v, b, i);
    } else if i < 4 {
      EncodeFirstAt(v, b, i);
    } else {
      EncodeAt(v, b[3..], i - 4);
      CharAtShift(v, b, i);
    }
  }
}
