/**
  UTF-8 as Rust's `str` has it: a `string` here is a sequence of Unicode scalar values, and decoding
  rejects overlong forms, surrogates and values above U+10FFFF.
 */
module Utf8 {
  import opened Basics

  predicate Scalar(n: int) {
    0 <= n < 0xD800 || 0xE000 <= n < 0x11_0000
  }

  function EncodeChar(c: char): (b: bytes)
    ensures 1 <= |b| <= 4
  {
    var n := c as int;
    if n < 0x80 then [n]
    else if n < 0x800 then [0xC0 + n / 0x40, 0x80 + n % 0x40]
    else if n < 0x1_0000 then [0xE0 + n / 0x1000, 0x80 + n / 0x40 % 0x40, 0x80 + n % 0x40]
    else [0xF0 + n / 0x4_0000, 0x80 + n / 0x1000 % 0x40, 0x80 + n / 0x40 % 0x40, 0x80 + n % 0x40]
  }

  function Encode(s: string): bytes {
    if s == "" then [] else EncodeChar(s[0]) + Encode(s[1..])
  }

  predicate Continuation(b: byte) {
    0x80 <= b < 0xC0
  }

  /** The scalar value that `b` starts with and the number of bytes it takes. */
  function DecodeFirst(b: bytes): (r: Option<(char, nat)>)
    requires b != []
    ensures r.Some? ==> 1 <= r.value.1 <= |b|
  {
    var x: int := b[0];
    if x < 0x80 then Some((x as char, 1))
    else if |b| < 2 || !Continuation(b[1]) then None
    else
      var y: int := b[1] as int - 0x80;
      if 0xC2 <= x < 0xE0 then
        Some((((x - 0xC0) * 0x40 + y) as char, 2))
      else if x < 0xE0 || |b| < 3 || !Continuation(b[2]) then None
      else
        var z: int := b[2] as int - 0x80;
        if x < 0xF0 then
          var n := (x - 0xE0) * 0x1000 + y * 0x40 + z;
          if n >= 0x800 && Scalar(n) then Some((n as char, 3)) else None
        else if 0xF5 <= x || |b| < 4 || !Continuation(b[3]) then None
        else
          var w: int := b[3] as int - 0x80;
          var n := (x - 0xF0) * 0x4_0000 + y * 0x1000 + z * 0x40 + w;
          if n >= 0x1_0000 && Scalar(n) then Some((n as char, 4)) else None
  }

  function Decode(b: bytes): Option<string> {
    if b == [] then Some("")
    else
      var first :- DecodeFirst(b);
      var rest :- Decode(b[first.1..]);
      Some([first.0] + rest)
  }

  lemma Div64(n: int, k: int)
    requires 0 <= n && k in {0x40, 0x1000}
    ensures n / (k * 0x40) == n / k / 0x40
  {
  }

  /** A number is the sum of its base-64 digits. */
  lemma Sum(n: int)
    requires 0 <= n
    ensures n / 0x40 * 0x40 + n % 0x40 == n
    ensures n / 0x1000 * 0x1000 + n / 0x40 % 0x40 * 0x40 + n % 0x40 == n
    ensures n / 0x4_0000 * 0x4_0000 + n / 0x1000 % 0x40 * 0x1000 + n / 0x40 % 0x40 * 0x40 + n % 0x40 == n
  {
    Div64(n, 0x40);
    Div64(n, 0x1000);
    var a, b := n / 0x40, n / 0x1000;
    assert a == b * 0x40 + a % 0x40;
    assert b == n / 0x4_0000 * 0x40 + b % 0x40;
  }

  lemma DecodeFirstEncodeChar(c: char, rest: bytes)
    ensures DecodeFirst(EncodeChar(c) + rest) == Some((c, |EncodeChar(c)|))
  {
    var n, e := c as int, EncodeChar(c);
    var b := e + rest;
    assert b[0] == e[0] && forall i :: 0 <= i < |e| ==> b[i] == e[i];
    Sum(n);
  }

  /** The base-64 digits of a number. */
  lemma Digits(h: int, m: int, l: int)
    requires 0 <= h && 0 <= m < 0x40 && 0 <= l < 0x40
    ensures var n := h * 0x1000 + m * 0x40 + l;
      n / 0x1000 == h && n / 0x40 == h * 0x40 + m && n / 0x40 % 0x40 == m && n % 0x40 == l
  {
    var n := h * 0x1000 + m * 0x40 + l;
    assert n / 0x40 == h * 0x40 + m;
  }

  lemma EncodeCharDecodeFirst(b: bytes)
    requires b != [] && DecodeFirst(b).Some?
    ensures EncodeChar(DecodeFirst(b).value.0) == b[..DecodeFirst(b).value.1]
  {
    var k := DecodeFirst(b).value.1;
    if k == 3 {
      Digits(b[0] as int - 0xE0, b[1] as int - 0x80, b[2] as int - 0x80);
    } else if k == 4 {
      EncodeCharDecodeFour(b);
    }
  }

  lemma EncodeCharDecodeFour(b: bytes)
    requires b != [] && DecodeFirst(b).Some? && DecodeFirst(b).value.1 == 4
    ensures EncodeChar(DecodeFirst(b).value.0) == b[..4]
  {
    var h, n := (b[0] as int - 0xF0) * 0x40 + (b[1] as int - 0x80), DecodeFirst(b).value.0 as int;
    Digits(h, b[2] as int - 0x80, b[3] as int - 0x80);
    assert n / 0x1000 == h && h / 0x40 == b[0] as int - 0xF0 && h % 0x40 == b[1] as int - 0x80;
    assert n / 0x4_0000 == h / 0x40;
  }

  /** Decoding undoes encoding for every Rust string. */
  lemma {:induction false} DecodeEncode(s: string)
    ensures Decode(Encode(s)) == Some(s)
  {
    if s != "" {
      DecodeFirstEncodeChar(s[0], Encode(s[1..]));
      assert Encode(s) == EncodeChar(s[0]) + Encode(s[1..]);
      assert Encode(s)[|EncodeChar(s[0])|..] == Encode(s[1..]);
      DecodeEncode(s[1..]);
      assert s == [s[0]] + s[1..];
    }
  }

  /** Valid UTF-8 is the encoding of its first character and then valid UTF-8. */
  lemma DecodeCons(b: bytes) returns (c: char, n: nat, rest: string)
    requires b != [] && Decode(b).Some?
    ensures 1 <= n <= |b| && EncodeChar(c) == b[..n]
    ensures Decode(b[n..]) == Some(rest) && Decode(b).value == [c] + rest
  {
    c, n := DecodeFirst(b).value.0, DecodeFirst(b).value.1;
    rest := Decode(b[n..]).value;
    EncodeCharDecodeFirst(b);
  }

  lemma EncodeCons(c: char, s: string)
    ensures Encode([c] + s) == EncodeChar(c) + Encode(s)
  {
    assert ([c] + s)[1..] == s;
  }

  /** Encoding undoes decoding: valid UTF-8 is the one encoding of its text. */
  lemma {:induction false} EncodeDecode(b: bytes)
    requires Decode(b).Some?
    ensures Encode(Decode(b).value) == b
  {
    if b != [] {
      var c, n, rest := DecodeCons(b);
      EncodeDecode(b[n..]);
      EncodeCons(c, rest);
      TakeDrop(b, n);
    }
  }
}
