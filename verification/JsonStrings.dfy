/** What JSON strings are and mean (section 7 of RFC 8259), and that lexing and unescaping find exactly that. */
module JsonStrings {
  import opened Basics
  import opened Json
  import Hex
  import Utf8

  // ---------------------------------------------------------------- the grammar of strings

  /** The byte is a hexadecimal digit of value `d`, in either case. */
  predicate HexIs(c: byte, d: int) {
    || (0 <= d < 10 && c as int == '0' as int + d)
    || (10 <= d < 16 && (c as int == 'a' as int + d - 10 || c as int == 'A' as int + d - 10))
  }

  /** The two-byte escape of `c` stands for the byte `b`. */
  predicate ShortIs(c: byte, b: byte) {
    (c, b) in {(0x22, 0x22), (0x5C, 0x5C), (0x2F, 0x2F),
               (0x62, 0x08), (0x66, 0x0C), (0x6E, 0x0A), (0x72, 0x0D), (0x74, 0x09)}
  }

  /** A backslash, `u`, and the four hexadecimal digits of `n`. */
  predicate UnitIs(p: bytes, n: int) {
    && |p| == 6 && p[0] == 0x5C && p[1] == 0x75 && 0 <= n < 0x1_0000
    && HexIs(p[2], n / 0x1000) && HexIs(p[3], n / 0x100 % 16) && HexIs(p[4], n / 16 % 16) && HexIs(p[5], n % 16)
  }

  /** One byte of a string, or one escape. */
  ghost predicate Lexeme(p: bytes) {
    || (|p| == 1 && p[0] >= 0x20 && p[0] != 0x22 && p[0] != 0x5C)
    || (|p| == 2 && p[0] == 0x5C && exists b: byte :: ShortIs(p[1], b))
    || (exists n :: UnitIs(p, n))
  }

  /** The raw text of a string: a sequence of those. */
  ghost predicate Lexes(raw: bytes)
    decreases |raw|
  {
    raw == [] || exists n :: n in {1, 2, 6} && n <= |raw| && Lexeme(raw[..n]) && Lexes(raw[n..])
  }

  /** A piece of raw text and the bytes it stands for; a pair of surrogates is one piece. */
  ghost predicate Means(p: bytes, b: bytes) {
    || (|p| == 1 && p[0] != 0x5C && b == p)
    || (|p| == 2 && p[0] == 0x5C && |b| == 1 && ShortIs(p[1], b[0]))
    || (exists n :: UnitIs(p, n) && Utf8.Scalar(n) && b == Utf8.EncodeChar(n as char))
    || (exists n :: PairIs(p, n) && b == Utf8.EncodeChar(n as char))
  }

  /** The code units of the character `n` outside the basic plane. */
  ghost predicate PairIs(p: bytes, n: int) {
    && |p| == 12 && 0x1_0000 <= n < 0x11_0000
    && UnitIs(p[..6], 0xD800 + (n - 0x1_0000) / 0x400) && UnitIs(p[6..], 0xDC00 + (n - 0x1_0000) % 0x400)
  }

  /** The raw text stands for the bytes: piece by piece. */
  ghost predicate Stands(raw: bytes, b: bytes)
    decreases |raw|
  {
    || (raw == [] && b == [])
    || (exists n, m :: 1 <= n <= |raw| && 0 <= m <= |b| && Means(raw[..n], b[..m]) && Stands(raw[n..], b[m..]))
  }

  // ---------------------------------------------------------------- escapes

  lemma ShortExactly(c: byte, b: byte)
    ensures ShortIs(c, b) <==> Short(c) == Some(b)
  {
  }

  lemma UnitOf(p: bytes)
    requires |p| == 6 && UnicodeEscape(p)
    ensures UnitIs(p, CodeUnit(p))
  {
    Digits16(HexValue(p[2]), HexValue(p[3]), HexValue(p[4]), HexValue(p[5]));
  }

  lemma UnitOnly(p: bytes, n: int)
    requires UnitIs(p, n)
    ensures UnicodeEscape(p) && CodeUnit(p) == n
  {
    Sum16(n);
  }

  lemma Digits16(a: int, b: int, c: int, d: int)
    requires 0 <= a < 16 && 0 <= b < 16 && 0 <= c < 16 && 0 <= d < 16
    ensures var n := a * 0x1000 + b * 0x100 + c * 0x10 + d;
      n / 0x1000 == a && n / 0x100 % 16 == b && n / 16 % 16 == c && n % 16 == d
  {
    var n := a * 0x1000 + b * 0x100 + c * 0x10 + d;
    assert n / 0x100 == a * 16 + b;
    assert n / 16 == a * 0x100 + b * 16 + c;
  }

  lemma Sum16(n: int)
    ensures n / 0x1000 * 0x1000 + n / 0x100 % 16 * 0x100 + n / 16 % 16 * 16 + n % 16 == n
  {
    assert n / 0x100 == n / 0x1000 * 16 + n / 0x100 % 16;
    assert n / 16 == n / 0x100 * 16 + n / 16 % 16;
  }

  lemma UnicodeEscapePrefix(s: bytes)
    ensures UnicodeEscape(s) <==> |s| >= 6 && UnicodeEscape(s[..6])
    ensures UnicodeEscape(s) ==> CodeUnit(s) == CodeUnit(s[..6])
  {
  }

  lemma UnitInFront(s: bytes)
    ensures UnicodeEscape(s) <==> |s| >= 6 && exists n :: UnitIs(s[..6], n)
    ensures UnicodeEscape(s) ==> UnitIs(s[..6], CodeUnit(s))
  {
    UnicodeEscapePrefix(s);
    if UnicodeEscape(s) {
      UnitOf(s[..6]);
    } else if |s| >= 6 {
      forall n | UnitIs(s[..6], n) ensures false {
        UnitOnly(s[..6], n);
      }
    }
  }

  // ---------------------------------------------------------------- lexing

  /** A piece is a lexeme in front of the rest, and there is only one. */
  lemma PieceExactly(s: bytes, n: nat)
    requires s != [] && s[0] != QUOTE
    ensures Piece(s) == Some(n) <==> n in {1, 2, 6} && n <= |s| && Lexeme(s[..n])
  {
    UnitInFront(s);
    if |s| >= 2 {
      assert forall b: byte :: ShortIs(s[1], b) <==> Short(s[1]) == Some(b);
    }
    if 1 <= n <= |s| {
      assert s[..n][0] == s[0] && (n >= 2 ==> s[..n][1] == s[1]);
    }
  }

  lemma PieceAppend(raw: bytes, tail: bytes)
    requires raw != [] && raw[0] != QUOTE && Piece(raw).Some?
    ensures Piece(raw + tail) == Piece(raw)
  {
    var n := Piece(raw).value;
    PieceExactly(raw, n);
    PieceExactly(raw + tail, n);
    assert (raw + tail)[..n] == raw[..n];
  }

  lemma LexesFirst(raw: bytes) returns (n: nat)
    requires raw != [] && Lexes(raw)
    ensures 1 <= n <= |raw| && raw[0] != QUOTE && Piece(raw) == Some(n) && Lexes(raw[n..])
  {
    n :| n in {1, 2, 6} && n <= |raw| && Lexeme(raw[..n]) && Lexes(raw[n..]);
    assert raw[..n][0] == raw[0];
    PieceExactly(raw, n);
  }

  lemma LexPiece(s: bytes, n: nat, tail: bytes, k: bytes)
    requires s != [] && s[0] != QUOTE && Piece(s) == Some(n) && LexString(s[n..]) == Some((tail, k))
    ensures LexString(s) == Some((s[..n] + tail, k))
  {
  }

  /** A raw string ends at its closing quote and nowhere earlier. */
  lemma {:induction false} LexClosed(raw: bytes, k: bytes)
    requires Lexes(raw)
    ensures LexString(raw + ([QUOTE] + k)) == Some((raw, k))
    decreases |raw|
  {
    if raw == [] {
      assert raw + ([QUOTE] + k) == [QUOTE] + k;
      assert ([QUOTE] + k)[1..] == k;
    } else {
      var s := raw + ([QUOTE] + k);
      var n := LexesFirst(raw);
      PieceAppend(raw, [QUOTE] + k);
      assert s[..n] == raw[..n] && s[n..] == raw[n..] + ([QUOTE] + k);
      LexClosed(raw[n..], k);
      LexPiece(s, n, raw[n..], k);
      TakeDrop(raw, n);
    }
  }

  /** What the lexer takes for a string is one, in front of a quote and the rest. */
  lemma {:induction false} LexedLexes(s: bytes)
    requires LexString(s).Some?
    ensures var (raw, k) := LexString(s).value; Lexes(raw) && s == raw + ([QUOTE] + k)
    decreases |s|
  {
    if s[0] != QUOTE {
      var n := Piece(s).value;
      var (tail, k) := LexString(s[n..]).value;
      LexedLexes(s[n..]);
      PieceExactly(s, n);
      assert (s[..n] + tail)[..n] == s[..n] && (s[..n] + tail)[n..] == tail;
      AppendAssociative(s[..n], tail, [QUOTE] + k);
      TakeDrop(s, n);
    }
  }

  // ---------------------------------------------------------------- unescaping

  /** The bytes `b` and then what the rest stands for. */
  function Before(b: bytes, r: Option<bytes>): Option<bytes> {
    match r
    case None => None
    case Some(t) => Some(b + t)
  }

  lemma UnescapeUnit(p: bytes, n: int, tail: bytes)
    requires UnitIs(p, n) && Utf8.Scalar(n)
    ensures Unescape(p + tail) == Before(Utf8.EncodeChar(n as char), Unescape(tail))
  {
    var s := p + tail;
    UnitOnly(p, n);
    assert s[..6] == p && s[6..] == tail;
    UnicodeEscapePrefix(s);
  }

  lemma UnescapePair(p: bytes, n: int, tail: bytes)
    requires PairIs(p, n)
    ensures Unescape(p + tail) == Before(Utf8.EncodeChar(n as char), Unescape(tail))
  {
    var s, hi, lo := p + tail, 0xD800 + (n - 0x1_0000) / 0x400, 0xDC00 + (n - 0x1_0000) % 0x400;
    UnitOnly(p[..6], hi);
    UnitOnly(p[6..], lo);
    assert s[..6] == p[..6] && s[6..][..6] == p[6..] && s[12..] == tail;
    UnicodeEscapePrefix(s);
    UnicodeEscapePrefix(s[6..]);
    assert 0x1_0000 + (hi - 0xD800) * 0x400 + (lo - 0xDC00) == n;
  }

  /** A piece is unescaped to what it means, whatever follows it. */
  lemma UnescapePiece(p: bytes, b: bytes, tail: bytes)
    requires Means(p, b)
    ensures Unescape(p + tail) == Before(b, Unescape(tail))
  {
    var s := p + tail;
    if |p| == 1 {
      assert s[0] == p[0] && s[1..] == tail && b == [s[0]];
    } else if |p| == 2 {
      assert s[0] == p[0] && s[1] == p[1] && s[2..] == tail;
      ShortExactly(p[1], b[0]);
      assert b == [b[0]];
    } else if |p| == 6 {
      var n :| UnitIs(p, n) && Utf8.Scalar(n) && b == Utf8.EncodeChar(n as char);
      UnescapeUnit(p, n, tail);
    } else {
      var n :| PairIs(p, n) && b == Utf8.EncodeChar(n as char);
      UnescapePair(p, n, tail);
    }
  }

  lemma {:induction false} UnescapeStands(raw: bytes, b: bytes)
    requires Stands(raw, b)
    ensures Unescape(raw) == Some(b)
    decreases |raw|
  {
    if raw != [] {
      var n, m :| 1 <= n <= |raw| && 0 <= m <= |b| && Means(raw[..n], b[..m]) && Stands(raw[n..], b[m..]);
      UnescapePiece(raw[..n], b[..m], raw[n..]);
      UnescapeStands(raw[n..], b[m..]);
      TakeDrop(raw, n);
      TakeDrop(b, m);
    }
  }

  /** The piece that unescapable text starts with. */
  lemma FirstPiece(raw: bytes) returns (n: nat, b: bytes)
    requires raw != [] && Unescape(raw).Some?
    ensures 1 <= n <= |raw| && Means(raw[..n], b) && Unescape(raw) == Before(b, Unescape(raw[n..]))
  {
    if raw[0] != BACKSLASH {
      n, b := 1, [raw[0]];
      assert raw[..1] == [raw[0]];
    } else if UnicodeEscape(raw) {
      UnitInFront(raw);
      var u := CodeUnit(raw);
      if 0xD800 <= u < 0xDC00 {
        n, b := FirstPair(raw);
      } else {
        n, b := 6, Utf8.EncodeChar(u as char);
      }
    } else {
      n, b := 2, [Short(raw[1]).value];
      ShortExactly(raw[1], b[0]);
    }
  }

  lemma PairInFront(raw: bytes, c: int)
    requires UnicodeEscape(raw) && UnicodeEscape(raw[6..])
    requires 0xD800 <= CodeUnit(raw) < 0xDC00 <= CodeUnit(raw[6..]) < 0xE000
    requires c == 0x1_0000 + (CodeUnit(raw) - 0xD800) * 0x400 + (CodeUnit(raw[6..]) - 0xDC00)
    ensures PairIs(raw[..12], c)
  {
    UnitInFront(raw);
    UnitInFront(raw[6..]);
    assert raw[..12][..6] == raw[..6] && raw[..12][6..] == raw[6..][..6];
    assert (c - 0x1_0000) / 0x400 == CodeUnit(raw) - 0xD800 && (c - 0x1_0000) % 0x400 == CodeUnit(raw[6..]) - 0xDC00;
  }

  lemma FirstPair(raw: bytes) returns (n: nat, b: bytes)
    requires raw != [] && Unescape(raw).Some? && UnicodeEscape(raw) && 0xD800 <= CodeUnit(raw) < 0xDC00
    ensures 1 <= n <= |raw| && Means(raw[..n], b) && Unescape(raw) == Before(b, Unescape(raw[n..]))
  {
    var c := 0x1_0000 + (CodeUnit(raw) - 0xD800) * 0x400 + (CodeUnit(raw[6..]) - 0xDC00);
    n, b := 12, Utf8.EncodeChar(c as char);
    PairInFront(raw, c);
  }

  lemma {:induction false} UnescapedStands(raw: bytes)
    requires Unescape(raw).Some?
    ensures Stands(raw, Unescape(raw).value)
    decreases |raw|
  {
    if raw != [] {
      var n, b := FirstPiece(raw);
      UnescapedStands(raw[n..]);
      var all := Unescape(raw).value;
      assert all[..|b|] == b && all[|b|..] == Unescape(raw[n..]).value;
    }
  }

  /** Unescaping finds exactly what raw text stands for: every escape in either case, surrogates in pairs only. */
  lemma UnescapeExactly(raw: bytes, b: bytes)
    ensures Unescape(raw) == Some(b) <==> Stands(raw, b)
  {
    if Unescape(raw) == Some(b) {
      UnescapedStands(raw);
    }
    if Stands(raw, b) {
      UnescapeStands(raw, b);
    }
  }

  /** A raw string is the text exactly when it stands for its UTF-8 bytes. */
  lemma UnquoteExactly(raw: bytes, t: string)
    ensures Unquote(raw) == Some(t) <==> Stands(raw, Utf8.Encode(t))
  {
    UnescapeExactly(raw, Utf8.Encode(t));
    Utf8.DecodeEncode(t);
    if Unquote(raw) == Some(t) {
      Utf8.EncodeDecode(Unescape(raw).value);
    }
  }

  // ---------------------------------------------------------------- escaping

  lemma EscapeByteMeans(c: byte)
    ensures Means(EscapeByte(c), [c]) && Lexeme(EscapeByte(c)) && |EscapeByte(c)| in {1, 2, 6}
  {
    if |EscapeByte(c)| == 6 {
      assert UnitIs(EscapeByte(c), c);
    } else if |EscapeByte(c)| == 2 {
      assert ShortIs(EscapeByte(c)[1], c);
    }
  }

  /** No escape of a byte is shorter, and digits in it are lowercase. */
  lemma EscapeShortest(c: byte, p: bytes)
    requires Lexeme(p) && Means(p, [c])
    ensures |EscapeByte(c)| <= |p|
    ensures forall i :: 2 <= i < |EscapeByte(c)| ==> EscapeByte(c)[i] < 0x41 || EscapeByte(c)[i] > 0x46
  {
    if |p| == 2 {
      assert ShortIs(p[1], c);
    }
  }

  /** Escaped bytes are a string that stands for them, with any text behind. */
  lemma {:induction false} UnescapeSome(b: bytes, tail: bytes)
    ensures Unescape(Escape(b) + tail) == Before(b, Unescape(tail))
    ensures Lexes(Escape(b))
  {
    if b == [] {
      assert Escape(b) + tail == tail;
      assert Unescape(tail).Some? ==> b + Unescape(tail).value == Unescape(tail).value;
    } else {
      var e, rest := EscapeByte(b[0]), Escape(b[1..]);
      EscapeByteMeans(b[0]);
      AppendAssociative(e, rest, tail);
      UnescapePiece(e, [b[0]], rest + tail);
      UnescapeSome(b[1..], tail);
      assert (e + rest)[..|e|] == e && (e + rest)[|e|..] == rest;
      if Unescape(tail).Some? {
        AppendAssociative([b[0]], b[1..], Unescape(tail).value);
      }
      assert b == [b[0]] + b[1..];
    }
  }

  /** A quoted Rust string reads back as itself, whatever characters it holds. */
  lemma UnquoteQuote(t: string)
    ensures Unquote(Quote(t)) == Some(t) && Lexes(Quote(t))
  {
    var b := Utf8.Encode(t);
    UnescapeSome(b, []);
    assert Escape(b) + [] == Escape(b) && b + [] == b;
    Utf8.DecodeEncode(t);
  }

  /** A code unit as backslash, `u` and four hexadecimal digits. */
  function Unit(n: int): (u: bytes)
    requires 0 <= n < 0x1_0000
  {
    [BACKSLASH, 0x75, Hex.Digit(n / 0x1000) as int, Hex.Digit(n / 0x100 % 0x10) as int,
     Hex.Digit(n / 0x10 % 0x10) as int, Hex.Digit(n % 0x10) as int]
  }

  /** A character by its UTF-16 code units, as writers that keep to ASCII do. */
  function EscapeUnits(c: char): bytes {
    var n := c as int;
    if n < 0x1_0000 then Unit(n) else Unit(High(n)) + Unit(Low(n))
  }

  /** The two code units of a character outside the basic plane. */
  function High(n: int): (u: int)
    requires 0x1_0000 <= n < 0x11_0000
    ensures 0xD800 <= u < 0xDC00
  {
    0xD800 + (n - 0x1_0000) / 0x400
  }

  function Low(n: int): (u: int)
    requires 0x1_0000 <= n < 0x11_0000
    ensures 0xDC00 <= u < 0xE000
    ensures 0x1_0000 + (High(n) - 0xD800) * 0x400 + (u - 0xDC00) == n
  {
    0xDC00 + (n - 0x1_0000) % 0x400
  }

  lemma UnitIsUnit(n: int)
    requires 0 <= n < 0x1_0000
    ensures UnitIs(Unit(n), n)
  {
  }

  lemma UnescapeUnits(c: char, tail: bytes)
    ensures Unescape(EscapeUnits(c) + tail) == Before(Utf8.EncodeChar(c), Unescape(tail))
  {
    var n := c as int;
    if n < 0x1_0000 {
      UnitIsUnit(n);
      UnescapeUnit(Unit(n), n, tail);
    } else {
      var p := Unit(High(n)) + Unit(Low(n));
      UnitIsUnit(High(n));
      UnitIsUnit(Low(n));
      assert p[..6] == Unit(High(n)) && p[6..] == Unit(Low(n));
      UnescapePair(p, n, tail);
    }
  }

  /** Text of which a writer put some characters, those that `units` marks, into code units. */
  function QuoteMixed(t: string, units: seq<bool>): bytes
    requires |units| == |t|
  {
    if t == "" then []
    else (if units[0] then EscapeUnits(t[0]) else Escape(Utf8.EncodeChar(t[0]))) + QuoteMixed(t[1..], units[1..])
  }

  lemma {:induction false} UnescapeMixed(t: string, units: seq<bool>)
    requires |units| == |t|
    ensures Unescape(QuoteMixed(t, units)) == Some(Utf8.Encode(t))
  {
    if t != "" {
      var rest := QuoteMixed(t[1..], units[1..]);
      UnescapeMixed(t[1..], units[1..]);
      if units[0] {
        UnescapeUnits(t[0], rest);
      } else {
        UnescapeSome(Utf8.EncodeChar(t[0]), rest);
      }
    }
  }

  /** The text read does not depend on which characters the writer chose to escape. */
  lemma UnquoteMixed(t: string, units: seq<bool>)
    requires |units| == |t|
    ensures Unquote(QuoteMixed(t, units)) == Some(t)
  {
    UnescapeMixed(t, units);
    Utf8.DecodeEncode(t);
  }
}
