/**
  JSON text (RFC 8259) as serde_json reads and writes it, on bytes. Strings are kept as the raw bytes
  between their quotes: serde_json unescapes a string only where a field asks for it, so an ignored
  value may hold a lone surrogate or bytes that are not UTF-8.
 */
module Json {
  import opened Basics
  import Utf8
  import Hex

  datatype Json =
    | Null
    | Bool(b: bool)
    | Num(text: bytes)
    | Str(raw: bytes)
    | Arr(elems: seq<Json>)
    | Obj(members: seq<Member>)

  datatype Member = Member(key: bytes, value: Json)

  const QUOTE: byte := 0x22
  const BACKSLASH: byte := 0x5C
  const COMMA: byte := 0x2C
  const COLON: byte := 0x3A
  const NULL: bytes := [0x6E, 0x75, 0x6C, 0x6C]
  const TRUE: bytes := [0x74, 0x72, 0x75, 0x65]
  const FALSE: bytes := [0x66, 0x61, 0x6C, 0x73, 0x65]

  // ---------------------------------------------------------------- strings

  predicate HexDigit(c: byte) {
    0x30 <= c <= 0x39 || 0x41 <= c <= 0x46 || 0x61 <= c <= 0x66
  }

  function HexValue(c: byte): (n: int)
    requires HexDigit(c)
    ensures 0 <= n < 16
  {
    if c <= 0x39 then c as int - 0x30 else if c <= 0x46 then c as int - 0x37 else c as int - 0x57
  }

  /** `s` has the form backslash, `u`, four hexadecimal digits. */
  predicate UnicodeEscape(s: bytes) {
    |s| >= 6 && s[0] == BACKSLASH && s[1] == 0x75 && forall i :: 2 <= i < 6 ==> HexDigit(s[i])
  }

  function CodeUnit(s: bytes): (n: int)
    requires UnicodeEscape(s)
    ensures 0 <= n < 0x1_0000
  {
    HexValue(s[2]) * 0x1000 + HexValue(s[3]) * 0x100 + HexValue(s[4]) * 0x10 + HexValue(s[5])
  }

  /** The byte a two-byte escape stands for. */
  function Short(c: byte): Option<byte> {
    if c == QUOTE || c == BACKSLASH || c == 0x2F then Some(c)
    else if c == 0x62 then Some(0x08)
    else if c == 0x66 then Some(0x0C)
    else if c == 0x6E then Some(0x0A)
    else if c == 0x72 then Some(0x0D)
    else if c == 0x74 then Some(0x09)
    else None
  }

  /** The length of the piece that `s` starts with: one byte, or a whole escape. */
  function Piece(s: bytes): (n: Option<nat>)
    requires s != []
    ensures n.Some? ==> 1 <= n.value <= |s|
  {
    if s[0] < 0x20 then None
    else if s[0] != BACKSLASH then Some(1)
    else if UnicodeEscape(s) then Some(6)
    else if |s| >= 2 && Short(s[1]).Some? then Some(2)
    else None
  }

  /** The raw bytes up to the closing quote, and what follows it. */
  function LexString(s: bytes): (r: Option<(bytes, bytes)>)
    ensures r.Some? ==> |r.value.1| < |s|
    decreases |s|
  {
    if s == [] then None
    else if s[0] == QUOTE then Some(([], s[1..]))
    else
      var n :- Piece(s);
      var tail :- LexString(s[n..]);
      Some((s[..n] + tail.0, tail.1))
  }

  function Unescape(raw: bytes): Option<bytes>
    decreases |raw|
  {
    if raw == [] then Some([])
    else if raw[0] != BACKSLASH then
      var tail :- Unescape(raw[1..]);
      Some([raw[0]] + tail)
    else if UnicodeEscape(raw) then
      var n := CodeUnit(raw);
      if 0xDC00 <= n < 0xE000 then None
      else if 0xD800 <= n < 0xDC00 then
        if UnicodeEscape(raw[6..]) && 0xDC00 <= CodeUnit(raw[6..]) < 0xE000 then
          var c := 0x1_0000 + (n - 0xD800) * 0x400 + (CodeUnit(raw[6..]) - 0xDC00);
          var tail :- Unescape(raw[12..]);
          Some(Utf8.EncodeChar(c as char) + tail)
        else None
      else
        var tail :- Unescape(raw[6..]);
        Some(Utf8.EncodeChar(n as char) + tail)
    else if |raw| >= 2 then
      var c :- Short(raw[1]);
      var tail :- Unescape(raw[2..]);
      Some([c] + tail)
    else None
  }

  /** The Rust string a raw string stands for, if it stands for one. */
  function Unquote(raw: bytes): Option<string> {
    var b :- Unescape(raw);
    Utf8.Decode(b)
  }

  function EscapeByte(c: byte): (s: bytes)
    ensures s != []
  {
    if c == QUOTE then [BACKSLASH, QUOTE]
    else if c == BACKSLASH then [BACKSLASH, BACKSLASH]
    else if c == 0x08 then [BACKSLASH, 0x62]
    else if c == 0x0C then [BACKSLASH, 0x66]
    else if c == 0x0A then [BACKSLASH, 0x6E]
    else if c == 0x0D then [BACKSLASH, 0x72]
    else if c == 0x09 then [BACKSLASH, 0x74]
    else if c < 0x20 then
      [BACKSLASH, 0x75, 0x30, 0x30, Hex.Digit(c / 16) as int, Hex.Digit(c % 16) as int]
    else [c]
  }

  function Escape(b: bytes): bytes {
    if b == [] then [] else EscapeByte(b[0]) + Escape(b[1..])
  }

  function Quote(t: string): (raw: bytes) {
    Escape(Utf8.Encode(t))
  }

  // ---------------------------------------------------------------- numbers and space

  predicate Digit(c: byte) {
    0x30 <= c <= 0x39
  }

  function DigitsEnd(s: bytes, i: nat): (j: nat)
    requires i <= |s|
    ensures i <= j <= |s|
    decreases |s| - i
  {
    if i < |s| && Digit(s[i]) then DigitsEnd(s, i + 1) else i
  }

  /** The end of one or more digits from `i`. */
  function SomeDigits(s: bytes, i: nat): (j: Option<nat>)
    requires i <= |s|
    ensures j.Some? ==> i < j.value <= |s|
  {
    if i < |s| && Digit(s[i]) then Some(DigitsEnd(s, i + 1)) else None
  }

  function FractionEnd(s: bytes, i: nat): (j: Option<nat>)
    requires i <= |s|
    ensures j.Some? ==> i <= j.value <= |s|
  {
    if i < |s| && s[i] == 0x2E then SomeDigits(s, i + 1) else Some(i)
  }

  function ExponentEnd(s: bytes, i: nat): (j: Option<nat>)
    requires i <= |s|
    ensures j.Some? ==> i <= j.value <= |s|
  {
    if i < |s| && (s[i] == 0x65 || s[i] == 0x45) then
      SomeDigits(s, if i + 1 < |s| && (s[i + 1] == 0x2B || s[i + 1] == 0x2D) then i + 2 else i + 1)
    else Some(i)
  }

  /** The end of the number that `s` starts with: no leading zeros, and digits around every mark. */
  function NumberEnd(s: bytes): (j: Option<nat>)
    ensures j.Some? ==> 0 < j.value <= |s|
  {
    var i := if s != [] && s[0] == 0x2D then 1 else 0;
    var whole :- SomeDigits(s, i);
    if s[i] == 0x30 && whole > i + 1 then None
    else
      var frac :- FractionEnd(s, whole);
      ExponentEnd(s, frac)
  }

  function SkipSpace(s: bytes): (t: bytes)
    ensures |t| <= |s|
  {
    if s != [] && s[0] in {0x20, 0x09, 0x0A, 0x0D} then SkipSpace(s[1..]) else s
  }

  // ---------------------------------------------------------------- values

  function ParseValue(input: bytes): (r: Option<(Json, bytes)>)
    ensures r.Some? ==> |r.value.1| < |input|
    decreases |input|, 1
  {
    var s := SkipSpace(input);
    if s == [] then None
    else if NULL <= s then Some((Null, s[4..]))
    else if TRUE <= s then Some((Bool(true), s[4..]))
    else if FALSE <= s then Some((Bool(false), s[5..]))
    else if s[0] == QUOTE then
      var str :- LexString(s[1..]);
      Some((Str(str.0), str.1))
    else if s[0] == 0x5B then
      var inner := SkipSpace(s[1..]);
      if inner != [] && inner[0] == 0x5D then Some((Arr([]), inner[1..]))
      else
        var es :- ParseElems(inner);
        Some((Arr(es.0), es.1))
    else if s[0] == 0x7B then
      var inner := SkipSpace(s[1..]);
      if inner != [] && inner[0] == 0x7D then Some((Obj([]), inner[1..]))
      else
        var ms :- ParseMembers(inner);
        Some((Obj(ms.0), ms.1))
    else
      var n :- NumberEnd(s);
      Some((Num(s[..n]), s[n..]))
  }

  /** One or more elements and the closing bracket. */
  function ParseElems(input: bytes): (r: Option<(seq<Json>, bytes)>)
    ensures r.Some? ==> |r.value.1| < |input|
    decreases |input|, 2
  {
    var first :- ParseValue(input);
    var s := SkipSpace(first.1);
    if s == [] then None
    else if s[0] == 0x5D then Some(([first.0], s[1..]))
    else if s[0] == COMMA then
      var rest :- ParseElems(s[1..]);
      Some(([first.0] + rest.0, rest.1))
    else None
  }

  /** A key, and the text behind the colon that follows it. */
  function ParseKey(input: bytes): (r: Option<(bytes, bytes)>)
    ensures r.Some? ==> |r.value.1| < |input|
  {
    var k := SkipSpace(input);
    if k == [] || k[0] != QUOTE then None
    else
      var key :- LexString(k[1..]);
      var c := SkipSpace(key.1);
      if c == [] || c[0] != COLON then None else Some((key.0, c[1..]))
  }

  /** One or more members and the closing brace. */
  function ParseMembers(input: bytes): (r: Option<(seq<Member>, bytes)>)
    ensures r.Some? ==> |r.value.1| < |input|
    decreases |input|, 2
  {
    var key :- ParseKey(input);
    var value :- ParseValue(key.1);
    var s := SkipSpace(value.1);
    var first := Member(key.0, value.0);
    if s == [] then None
    else if s[0] == 0x7D then Some(([first], s[1..]))
    else if s[0] == COMMA then
      var rest :- ParseMembers(s[1..]);
      Some(([first] + rest.0, rest.1))
    else None
  }

  /** A whole document: one value and nothing but space after it. */
  function ParseDocument(b: bytes): Option<Json> {
    var r :- ParseValue(b);
    if SkipSpace(r.1) == [] then Some(r.0) else None
  }
}
