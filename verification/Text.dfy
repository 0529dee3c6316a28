/** The `str` operations the parsers rest on: `lines`, `trim`, `split`. */
module Text {
  import opened Basics

  /** Unicode's White_Space property, which `str::trim` strips. */
  predicate IsWhitespace(c: char) {
    var n := c as int;
    0x09 <= n <= 0x0D || n == 0x20 || n == 0x85 || n == 0xA0 || n == 0x1680 || 0x2000 <= n <= 0x200A
    || n == 0x2028 || n == 0x2029 || n == 0x202F || n == 0x205F || n == 0x3000
  }

  /** The 25 characters that have the property. */
  lemma WhitespaceExactly(c: char)
    ensures IsWhitespace(c) <==>
      c as int in {0x09, 0x0A, 0x0B, 0x0C, 0x0D, 0x20, 0x85, 0xA0, 0x1680,
                   0x2000, 0x2001, 0x2002, 0x2003, 0x2004, 0x2005, 0x2006, 0x2007, 0x2008, 0x2009, 0x200A,
                   0x2028, 0x2029, 0x202F, 0x205F, 0x3000}
  {
  }

  function TrimStart(s: string): string {
    if s != "" && IsWhitespace(s[0]) then TrimStart(s[1..]) else s
  }

  function TrimEnd(s: string): string {
    if s != "" && IsWhitespace(s[|s| - 1]) then TrimEnd(s[..|s| - 1]) else s
  }

  function Trim(s: string): string {
    TrimEnd(TrimStart(s))
  }

  predicate Blank(s: string) {
    forall i :: 0 <= i < |s| ==> IsWhitespace(s[i])
  }

  /** No white space at either end. */
  predicate Tight(s: string) {
    s != "" ==> !IsWhitespace(s[0]) && !IsWhitespace(s[|s| - 1])
  }

  lemma {:induction false} TrimStartBlank(lead: string, s: string)
    requires Blank(lead)
    ensures TrimStart(lead + s) == TrimStart(s)
  {
    if lead == "" {
      assert lead + s == s;
    } else {
      assert (lead + s)[1..] == lead[1..] + s;
      TrimStartBlank(lead[1..], s);
    }
  }

  lemma {:induction false} TrimEndBlank(s: string, trail: string)
    requires Blank(trail)
    ensures TrimEnd(s + trail) == TrimEnd(s)
  {
    if trail == "" {
      assert s + trail == s;
    } else {
      assert (s + trail)[..|s + trail| - 1] == s + trail[..|trail| - 1];
      TrimEndBlank(s, trail[..|trail| - 1]);
    }
  }

  /** Trimming takes the padding away and nothing else. */
  lemma TrimPadded(lead: string, s: string, trail: string)
    requires Blank(lead) && Blank(trail) && Tight(s)
    ensures Trim(lead + s + trail) == s
  {
    assert lead + s + trail == lead + (s + trail);
    TrimStartBlank(lead, s + trail);
    if s == "" {
      assert s + trail == trail && trail == trail + "";
      TrimStartBlank(trail, "");
    } else {
      TrimEndBlank(s, trail);
    }
  }

  lemma {:induction false} TrimStartSplits(s: string) returns (lead: string)
    ensures Blank(lead) && s == lead + TrimStart(s) && (TrimStart(s) != "" ==> !IsWhitespace(TrimStart(s)[0]))
  {
    if s != "" && IsWhitespace(s[0]) {
      var rest := TrimStartSplits(s[1..]);
      lead := [s[0]] + rest;
    } else {
      lead := "";
    }
  }

  lemma {:induction false} TrimEndSplits(s: string) returns (trail: string)
    ensures Blank(trail) && s == TrimEnd(s) + trail
    ensures TrimEnd(s) != "" ==> !IsWhitespace(TrimEnd(s)[|TrimEnd(s)| - 1])
  {
    if s != "" && IsWhitespace(s[|s| - 1]) {
      var rest := TrimEndSplits(s[..|s| - 1]);
      trail := rest + [s[|s| - 1]];
    } else {
      trail := "";
    }
  }

  /** Trimming yields exactly the tight text that only white space surrounds. */
  lemma TrimExactly(s: string, t: string)
    ensures Trim(s) == t <==> Tight(t) && exists lead, trail :: Blank(lead) && Blank(trail) && s == lead + t + trail
  {
    var lead := TrimStartSplits(s);
    var trail := TrimEndSplits(TrimStart(s));
    assert s == lead + Trim(s) + trail;
    assert Trim(s) != "" ==> Trim(s)[0] == TrimStart(s)[0];
    forall l, r | Tight(t) && Blank(l) && Blank(r) && s == l + t + r ensures Trim(s) == t { TrimPadded(l, t, r); }
  }

  lemma {:induction false} TrimStartTrailing(s: string, w: char)
    requires IsWhitespace(w)
    ensures TrimStart(s + [w]) == if TrimStart(s) == "" then "" else TrimStart(s) + [w]
  {
    if s == "" {
      assert s + [w] == [w] && TrimStart([w]) == TrimStart([w][1..]);
    } else if IsWhitespace(s[0]) {
      assert (s + [w])[1..] == s[1..] + [w];
      TrimStartTrailing(s[1..], w);
    }
  }

  /** White space at the end of a line never survives trimming. */
  lemma TrimTrailing(s: string, w: char)
    requires IsWhitespace(w)
    ensures Trim(s + [w]) == Trim(s)
  {
    TrimStartTrailing(s, w);
    TrimEndBlank(TrimStart(s), [w]);
  }

  /** The index of the first `c`, or the length when there is none. */
  function IndexOf(s: string, c: char): (i: nat)
    ensures i <= |s| && (i < |s| ==> s[i] == c)
    ensures forall k :: 0 <= k < i ==> s[k] != c
  {
    if s == "" || s[0] == c then 0 else 1 + IndexOf(s[1..], c)
  }

  lemma IndexOfUnique(s: string, c: char, i: nat)
    requires i < |s| && s[i] == c && forall k :: 0 <= k < i ==> s[k] != c
    ensures IndexOf(s, c) == i
  {
  }

  function StripCr(line: string): string {
    if line != "" && line[|line| - 1] == '\r' then line[..|line| - 1] else line
  }

  /** `str::lines`: each `\n` ends a line and takes one `\r` before it along; text after the last is a line. */
  function Lines(s: string): seq<string>
    decreases |s|
  {
    if s == "" then []
    else
      var i := IndexOf(s, '\n');
      if i == |s| then [s] else [StripCr(s[..i])] + Lines(s[i + 1..])
  }

  lemma LinesFirst(line: string, rest: string)
    requires '\n' !in line
    ensures Lines(line + "\n" + rest) == [StripCr(line)] + Lines(rest)
  {
    var s := line + "\n" + rest;
    forall k | 0 <= k < |line| ensures s[k] != '\n' { assert s[k] == line[k]; }
    IndexOfUnique(s, '\n', |line|);
    assert s[..|line|] == line && s[|line| + 1..] == rest;
  }

  /** A line end of either kind is taken away whole. */
  lemma LinesEnd(line: string, rest: string)
    requires '\n' !in line
    ensures Lines(line + "\r\n" + rest) == [line] + Lines(rest)
    ensures (line == "" || line[|line| - 1] != '\r') ==> Lines(line + "\n" + rest) == [line] + Lines(rest)
    ensures Lines(line) == if line == "" then [] else [line]
  {
    assert IndexOf(line, '\n') == |line|;
    assert line + "\r\n" + rest == line + "\r" + "\n" + rest;
    LinesFirst(line + "\r", rest);
    LinesFirst(line, rest);
    assert (line + "\r")[..|line|] == line;
  }

  predicate EndsLine(s: string) {
    s == "" || s[|s| - 1] == '\n'
  }

  lemma FirstLine(s: string) returns (line: string, rest: string)
    requires s != "" && EndsLine(s)
    ensures s == line + "\n" + rest && '\n' !in line && EndsLine(rest)
  {
    var i := IndexOf(s, '\n');
    line, rest := s[..i], s[i + 1..];
  }

  /** Lines of a concatenation, when the first text ends its last line. */
  lemma {:induction false} LinesAppend(a: string, b: string)
    requires EndsLine(a)
    ensures Lines(a + b) == Lines(a) + Lines(b)
    decreases |a|
  {
    if a == "" {
      assert a + b == b;
    } else {
      var line, rest := FirstLine(a);
      LinesFirst(line, rest);
      LinesAppend(rest, b);
      LinesFirst(line, rest + b);
      calc {
        Lines(a + b);
        { AppendAssociative(line + "\n", rest, b); }
        Lines(line + "\n" + (rest + b));
        [StripCr(line)] + (Lines(rest) + Lines(b));
        { AppendAssociative([StripCr(line)], Lines(rest), Lines(b)); }
        Lines(a) + Lines(b);
      }
    }
  }

  function Split(s: string, c: char): (parts: seq<string>)
    ensures parts != []
    decreases |s|
  {
    var i := IndexOf(s, c);
    if i == |s| then [s] else [s[..i]] + Split(s[i + 1..], c)
  }

  function Join(parts: seq<string>, c: char): string {
    if parts == [] then "" else if |parts| == 1 then parts[0] else parts[0] + [c] + Join(parts[1..], c)
  }

  /** Splitting undoes joining when no part contains the separator. */
  lemma {:induction false} SplitJoin(parts: seq<string>, c: char)
    requires parts != [] && forall i :: 0 <= i < |parts| ==> c !in parts[i]
    ensures Split(Join(parts, c), c) == parts
  {
    var s, p := Join(parts, c), parts[0];
    if |parts| == 1 {
      assert IndexOf(s, c) == |s|;
    } else {
      assert s == p + [c] + Join(parts[1..], c);
      forall k | 0 <= k < |p| ensures s[k] != c { assert s[k] == p[k]; }
      IndexOfUnique(s, c, |p|);
      assert s[..|p|] == p && s[|p| + 1..] == Join(parts[1..], c);
      SplitJoin(parts[1..], c);
    }
  }

  /** Joining undoes splitting for every text. */
  lemma {:induction false} JoinSplit(s: string, c: char)
    ensures Join(Split(s, c), c) == s
    ensures forall p :: p in Split(s, c) ==> c !in p
    decreases |s|
  {
    var i := IndexOf(s, c);
    if i < |s| {
      JoinSplit(s[i + 1..], c);
      assert s == s[..i] + [c] + s[i + 1..];
      assert Split(s, c)[1..] == Split(s[i + 1..], c);
    }
  }

  /** Parts without the separator, which joined are the text. */
  predicate IsSplit(s: string, c: char, parts: seq<string>) {
    parts != [] && (forall i :: 0 <= i < |parts| ==> c !in parts[i]) && Join(parts, c) == s
  }

  lemma SplitExactly(s: string, c: char, parts: seq<string>)
    ensures Split(s, c) == parts <==> IsSplit(s, c, parts)
  {
    JoinSplit(s, c);
    if IsSplit(s, c, parts) {
      SplitJoin(parts, c);
    }
  }

  lemma JoinThree(x: string, y: string, z: string, c: char)
    ensures Join([x, y, z], c) == x + [c] + y + [c] + z
  {
    assert [x, y, z][1..] == [y, z] && [y, z][1..] == [z];
    assert Join([y, z], c) == y + [c] + z;
    assert x + [c] + (y + [c] + z) == x + [c] + y + [c] + z;
  }

  /** Three parts, written out. */
  lemma ThreeParts(s: string, c: char, x: string, y: string, z: string)
    ensures IsSplit(s, c, [x, y, z]) <==> s == x + [c] + y + [c] + z && c !in x && c !in y && c !in z
  {
    var parts := [x, y, z];
    JoinThree(x, y, z, c);
    assert parts[0] == x && parts[1] == y && parts[2] == z;
  }

  function Concat(ls: seq<string>): string {
    if ls == [] then "" else ls[0] + Concat(ls[1..])
  }

  lemma {:induction false} ConcatAppend(a: seq<string>, b: seq<string>)
    ensures Concat(a + b) == Concat(a) + Concat(b)
  {
    if a == [] {
      assert a + b == b;
    } else {
      assert (a + b)[1..] == a[1..] + b;
      ConcatAppend(a[1..], b);
    }
  }
}
