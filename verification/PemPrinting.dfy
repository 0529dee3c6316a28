/** PEM parsing splits at line ends, and undoes every printing of a bundle. */
module PemPrinting {
  import opened Basics
  import opened Text
  import opened Pem
  import opened PemGrammar
  import Base64

  function Prepend(xs: seq<bytes>, r: Result<seq<bytes>, PemError>): Result<seq<bytes>, PemError> {
    match r
    case Ok(ys) => Ok(xs + ys)
    case Err(e) => Err(e)
  }

  /** Equal but for certificates already parsed, and for `b64` while no block is open. */
  predicate Similar(xs: seq<bytes>, s: State, t: State) {
    s.certs == xs + t.certs && s.inCert == t.inCert && (t.inCert ==> s.b64 == t.b64)
  }

  lemma {:induction false} RunSimilar(xs: seq<bytes>, s: State, t: State, ls: seq<string>)
    requires Similar(xs, s, t)
    ensures ParseLines(s, ls) == Prepend(xs, ParseLines(t, ls))
    decreases |ls|
  {
    if ls != [] && Step(t, ls[0]).Ok? {
      var s', t' := Step(s, ls[0]).value, Step(t, ls[0]).value;
      assert Similar(xs, s', t') by {
        if t'.certs != t.certs {
          AppendAssociative(xs, t.certs, [t'.certs[|t.certs|]]);
        }
      }
      RunSimilar(xs, s', t', ls[1..]);
    }
  }

  lemma TrimAllAppend(a: seq<string>, b: seq<string>)
    ensures TrimAll(a + b) == TrimAll(a) + TrimAll(b)
  {
  }

  /** Text that ends a line and parses can be cut off in front of any other text, errors included. */
  lemma ParseAppend(a: string, b: string)
    requires EndsLine(a) && ParseBundle(a).Ok?
    ensures ParseBundle(a + b) == Prepend(ParseBundle(a).value, ParseBundle(b))
  {
    var la, lb := TrimAll(Lines(a)), TrimAll(Lines(b));
    LinesAppend(a, b);
    TrimAllAppend(Lines(a), Lines(b));
    RunAppend(START, la, lb);
    var mid := Run(START, la).value;
    RunSimilar(mid.certs, mid, START, lb);
  }

  /** A printed line: padding of any white space on both sides, ended by LF or by CR LF. */
  datatype Line = Line(lead: string, content: string, trail: string, crlf: bool) {
    predicate Padded() {
      Blank(lead) && Blank(trail) && '\n' !in lead && '\n' !in trail
    }

    predicate Valid() {
      Padded() && Tight(content) && '\n' !in content
    }

    function Render(): string {
      lead + content + trail + (if crlf then "\r\n" else "\n")
    }
  }

  function Render(ls: seq<Line>): string {
    if ls == [] then "" else ls[0].Render() + Render(ls[1..])
  }

  function Contents(ls: seq<Line>): (cs: seq<string>)
    ensures |cs| == |ls| && forall i :: 0 <= i < |ls| ==> cs[i] == ls[i].content
  {
    seq(|ls|, i requires 0 <= i < |ls| => ls[i].content)
  }

  lemma ContentsAppend(a: seq<Line>, b: seq<Line>)
    ensures Contents(a + b) == Contents(a) + Contents(b)
  {
  }

  predicate AllValid(ls: seq<Line>) {
    forall i :: 0 <= i < |ls| ==> ls[i].Valid()
  }

  lemma AllValidAppend(a: seq<Line>, b: seq<Line>)
    requires AllValid(a) && AllValid(b)
    ensures AllValid(a + b)
  {
  }

  /** A printed line is text without LF, then LF, and that text trims to the content. */
  lemma RenderShape(l: Line) returns (line: string)
    requires l.Valid()
    ensures l.Render() == line + "\n" && '\n' !in line && Trim(StripCr(line)) == l.content
  {
    var core := l.lead + l.content + l.trail;
    TrimPadded(l.lead, l.content, l.trail);
    line := core;
    if l.crlf {
      line := core + ['\r'];
      TrimTrailing(core, '\r');
      AppendAssociative(core, "\r", "\n");
    }
    StripCrTrim(line);
  }

  lemma RenderOne(l: Line, rest: string)
    requires l.Valid()
    ensures TrimAll(Lines(l.Render() + rest)) == [l.content] + TrimAll(Lines(rest))
  {
    var line := RenderShape(l);
    LinesFirst(line, rest);
    TrimAllAppend([StripCr(line)], Lines(rest));
  }

  lemma StripCrTrim(line: string)
    ensures Trim(StripCr(line)) == Trim(line)
  {
    if line != "" && line[|line| - 1] == '\r' {
      TrimTrailing(line[..|line| - 1], '\r');
      assert line == line[..|line| - 1] + ['\r'];
    }
  }

  /** Line splitting and trimming undo printing. */
  lemma {:induction false} RenderAll(ls: seq<Line>)
    requires AllValid(ls)
    ensures TrimAll(Lines(Render(ls))) == Contents(ls)
  {
    if ls != [] {
      RenderOne(ls[0], Render(ls[1..]));
      RenderAll(ls[1..]);
      assert Contents(ls) == [ls[0].content] + Contents(ls[1..]);
    }
  }

  /** One certificate: other text, the BEGIN line, its base64 cut into lines at will, the END line. */
  datatype Block = Block(before: seq<Line>, begin: Line, body: seq<Line>, end: Line, der: bytes) {
    predicate Valid() {
      && AllValid(before) && (forall i :: 0 <= i < |before| ==> !Boundary(before[i].content))
      && begin.Padded() && begin.content == BEGIN
      && (forall i :: 0 <= i < |body| ==> body[i].Padded())
      && Concat(Contents(body)) == Base64.Encode(Base64.Standard, der)
      && end.Padded() && end.content == END
    }

    function Lines(): seq<Line> {
      before + [begin] + body + [end]
    }
  }

  function BundleLines(bs: seq<Block>): seq<Line> {
    if bs == [] then [] else bs[0].Lines() + BundleLines(bs[1..])
  }

  function Ders(bs: seq<Block>): (ds: seq<bytes>)
    ensures |ds| == |bs| && forall i :: 0 <= i < |bs| ==> ds[i] == bs[i].der
  {
    seq(|bs|, i requires 0 <= i < |bs| => bs[i].der)
  }

  lemma {:induction false} PartOfConcat(ls: seq<string>, i: nat, c: char)
    requires i < |ls| && c in ls[i]
    ensures c in Concat(ls)
  {
    if i > 0 {
      PartOfConcat(ls[1..], i - 1, c);
    }
  }

  /** Trimming never removes a base64 character, and no piece of base64 is a boundary. */
  lemma Base64Line(s: string)
    requires forall i :: 0 <= i < |s| ==> Base64.Base64Char(Base64.Standard, s[i])
    ensures Tight(s) && '\n' !in s && !Boundary(s)
  {
    assert BEGIN[0] == '-' && END[0] == '-';
  }

  lemma BodyValid(b: Block)
    requires b.Valid()
    ensures AllValid(b.body) && forall i :: 0 <= i < |b.body| ==> !Boundary(b.body[i].content)
  {
    Base64.EncodeAlphabet(Base64.Standard, b.der);
    forall i | 0 <= i < |b.body| ensures b.body[i].Valid() && !Boundary(b.body[i].content) {
      var s := b.body[i].content;
      forall k | 0 <= k < |s| ensures Base64.Base64Char(Base64.Standard, s[k]) {
        PartOfConcat(Contents(b.body), i, s[k]);
      }
      Base64Line(s);
    }
  }

  lemma BoundaryLines()
    ensures Tight(BEGIN) && Tight(END) && '\n' !in BEGIN && '\n' !in END
  {
  }

  lemma {:induction false} BundleValid(bs: seq<Block>)
    requires forall i :: 0 <= i < |bs| ==> bs[i].Valid()
    ensures AllValid(BundleLines(bs))
  {
    if bs != [] {
      BoundaryLines();
      BodyValid(bs[0]);
      BundleValid(bs[1..]);
    }
  }

  lemma {:induction false} RunPlain(st: State, ls: seq<string>)
    requires forall i :: 0 <= i < |ls| ==> !Boundary(ls[i])
    ensures Run(st, ls) == Ok(if st.inCert then st.(b64 := st.b64 + Concat(ls)) else st)
    decreases |ls|
  {
    if ls == [] {
      assert st.b64 + "" == st.b64;
    } else {
      var next := Step(st, ls[0]).value;
      assert st.inCert ==> next.b64 == st.b64 + ls[0];
      AppendAssociative(st.b64, ls[0], Concat(ls[1..]));
      RunPlain(next, ls[1..]);
    }
  }

  lemma RunBlock(st: State, b: Block)
    requires b.Valid() && !st.inCert
    ensures Run(st, Contents(b.Lines())) == Ok(State(st.certs + [b.der], false, Base64.Encode(Base64.Standard, b.der)))
  {
    var x, y := Contents(b.before), Contents(b.body);
    var text := Base64.Encode(Base64.Standard, b.der);
    assert Contents(b.Lines()) == x + [BEGIN] + y + [END];
    BodyValid(b);
    RunPlain(st, x);
    RunSnoc(st, x, BEGIN);
    var open := st.(inCert := true, b64 := "");
    RunAppend(st, x + [BEGIN], y);
    RunPlain(open, y);
    assert "" + text == text;
    RunSnoc(st, x + [BEGIN] + y, END);
    Base64.DecodeEncode(Base64.Standard, b.der);
  }

  /** A block in front of lines: its certificate comes first, and what `b64` is left at is never read. */
  lemma RunFirst(st: State, b: Block, rest: seq<Line>)
    requires b.Valid() && !st.inCert
    ensures ParseLines(st, Contents(b.Lines() + rest)) == Prepend(st.certs + [b.der], ParseLines(START, Contents(rest)))
  {
    ContentsAppend(b.Lines(), rest);
    RunAppend(st, Contents(b.Lines()), Contents(rest));
    RunBlock(st, b);
    RunSimilar(st.certs + [b.der], Run(st, Contents(b.Lines())).value, START, Contents(rest));
  }

  lemma {:induction false} RunBundle(bs: seq<Block>, tail: seq<Line>)
    requires forall i :: 0 <= i < |bs| ==> bs[i].Valid()
    requires forall i :: 0 <= i < |tail| ==> !Boundary(tail[i].content)
    ensures ParseLines(START, Contents(BundleLines(bs) + tail)) == Ok(Ders(bs))
    decreases |bs|
  {
    if bs == [] {
      assert BundleLines(bs) + tail == tail;
      RunPlain(START, Contents(tail));
    } else {
      AppendAssociative(bs[0].Lines(), BundleLines(bs[1..]), tail);
      RunFirst(START, bs[0], BundleLines(bs[1..]) + tail);
      RunBundle(bs[1..], tail);
      assert START.certs + [bs[0].der] + Ders(bs[1..]) == Ders(bs);
    }
  }

  /** Parsing undoes every printing: any line widths, padding, blank lines, line ends and text in between. */
  lemma ParsePrinted(bs: seq<Block>, tail: seq<Line>)
    requires forall i :: 0 <= i < |bs| ==> bs[i].Valid()
    requires AllValid(tail) && forall i :: 0 <= i < |tail| ==> !Boundary(tail[i].content)
    ensures ParseBundle(Render(BundleLines(bs) + tail)) == Ok(Ders(bs))
  {
    var ls := BundleLines(bs);
    BundleValid(bs);
    AllValidAppend(ls, tail);
    RenderAll(ls + tail);
    RunBundle(bs, tail);
  }

  lemma OnlyLine(s: string)
    requires s != "" && '\n' !in s
    ensures TrimAll(Lines(s + "\n")) == TrimAll(Lines(s))
  {
    LinesFirst(s, "");
    assert s + "\n" + "" == s + "\n";
    assert IndexOf(s, '\n') == |s|;
    StripCrTrim(s);
  }

  lemma LineBefore(line: string, rest: string)
    requires '\n' !in line
    ensures TrimAll(Lines(line + "\n" + rest)) == [Trim(line)] + TrimAll(Lines(rest))
  {
    LinesFirst(line, rest);
    StripCrTrim(line);
    TrimAllAppend([StripCr(line)], Lines(rest));
  }

  lemma SplitLine(s: string) returns (line: string, rest: string)
    requires s != "" && s[|s| - 1] != '\n' && '\n' in s
    ensures s == line + "\n" + rest && '\n' !in line && rest != "" && rest[|rest| - 1] != '\n'
  {
    var i := IndexOf(s, '\n');
    line, rest := s[..i], s[i + 1..];
  }

  lemma {:induction false} FinalNewlineLines(s: string)
    requires s != "" && s[|s| - 1] != '\n'
    ensures TrimAll(Lines(s + "\n")) == TrimAll(Lines(s))
    decreases |s|
  {
    if '\n' !in s {
      OnlyLine(s);
    } else {
      var line, rest := SplitLine(s);
      FinalNewlineLines(rest);
      LineBefore(line, rest);
      LineBefore(line, rest + "\n");
      AppendAssociative(line + "\n", rest, "\n");
    }
  }

  /** A missing line end on the last line makes no difference. */
  lemma FinalNewline(s: string)
    requires s != "" && s[|s| - 1] != '\n'
    ensures ParseBundle(s + "\n") == ParseBundle(s)
  {
    FinalNewlineLines(s);
  }

  /** Text cut into lines of `w` characters. */
  function Wrap(s: string, w: nat): seq<string>
    requires w > 0
  {
    if |s| <= w then [s] else [s[..w]] + Wrap(s[w..], w)
  }

  lemma {:induction false} WrapConcat(s: string, w: nat)
    requires w > 0
    ensures Concat(Wrap(s, w)) == s
  {
    if |s| <= w {
      assert Concat([s]) == s + Concat([]);
    } else {
      WrapConcat(s[w..], w);
      assert s == s[..w] + s[w..];
    }
  }

  function Plain(content: string): Line {
    Line("", content, "", false)
  }

  function PlainAll(cs: seq<string>): (ls: seq<Line>)
    ensures Contents(ls) == cs && forall i :: 0 <= i < |ls| ==> ls[i] == Plain(cs[i])
  {
    seq(|cs|, i requires 0 <= i < |cs| => Plain(cs[i]))
  }

  /** The usual printing, with lines of `w` characters (RFC 7468 asks generators for 64). */
  function Standard(der: bytes, w: nat): Block
    requires w > 0
  {
    Block([], Plain(BEGIN), PlainAll(Wrap(Base64.Encode(Base64.Standard, der), w)), Plain(END), der)
  }

  /** For every width, the usual printing is one of the printings above. */
  lemma StandardValid(der: bytes, w: nat)
    requires w > 0
    ensures Standard(der, w).Valid()
  {
    WrapConcat(Base64.Encode(Base64.Standard, der), w);
  }

  // ---------------------------------------------------------------- errors and further text

  lemma EmptyBlock(st: State)
    ensures Run(st, [BEGIN, END]) == Ok(State(st.certs + [[]], false, ""))
  {
    RunSnoc(st, [BEGIN], END);
    RunSnoc(st, [], BEGIN);
    assert [] + [BEGIN] == [BEGIN] && [BEGIN] + [END] == [BEGIN, END];
    Base64.DecodeEncode(Base64.Standard, []);
  }

  /** Printed lines behind text that ends its last line. */
  lemma RenderAfter(a: string, ls: seq<Line>)
    requires EndsLine(a) && AllValid(ls) && Run(START, TrimAll(Lines(a))).Ok?
    ensures ParseBundle(a + Render(ls)) == ParseLines(Run(START, TrimAll(Lines(a))).value, Contents(ls))
  {
    RenderAll(ls);
    LinesAppend(a, Render(ls));
    TrimAllAppend(Lines(a), Lines(Render(ls)));
    RunAppend(START, TrimAll(Lines(a)), Contents(ls));
  }

  lemma EmptyBlockValid()
    ensures AllValid([Plain(BEGIN), Plain(END)]) && Contents([Plain(BEGIN), Plain(END)]) == [BEGIN, END]
  {
    BoundaryLines();
  }

  /** Text with an open block can always be completed: an empty block does it. */
  lemma OpenCompletes(a: string)
    requires EndsLine(a) && ParseBundle(a) == Err(Unterminated)
    ensures ParseBundle(a + Render([Plain(BEGIN), Plain(END)])).Ok?
  {
    EmptyBlockValid();
    AlwaysExplained(TrimAll(Lines(a)));
    RenderAfter(a, [Plain(BEGIN), Plain(END)]);
    EmptyBlock(Run(START, TrimAll(Lines(a))).value);
  }

  /** An error stays whatever text follows exactly when it is not that of an open block. */
  lemma ErrorStays(a: string)
    requires EndsLine(a) && ParseBundle(a).Err?
    ensures (forall b :: ParseBundle(a + b) == ParseBundle(a)) <==> ParseBundle(a).error != Unterminated
  {
    if ParseBundle(a).error == Unterminated {
      OpenCompletes(a);
    } else {
      forall b ensures ParseBundle(a + b) == ParseBundle(a) {
        LinesAppend(a, b);
        TrimAllAppend(Lines(a), Lines(b));
        RunAppend(START, TrimAll(Lines(a)), TrimAll(Lines(b)));
      }
    }
  }

  // ---------------------------------------------------------------- the boundary lines, in letters

  function OneLine(der: bytes): Block {
    Block([], Plain(BEGIN), [Plain(Base64.Encode(Base64.Standard, der))], Plain(END), der)
  }

  lemma OneLineValid(der: bytes)
    ensures OneLine(der).Valid()
  {
    var text := Base64.Encode(Base64.Standard, der);
    assert Contents(OneLine(der).body) == [text];
    assert Concat([text]) == text + Concat([]);
  }

  lemma RenderThree(x: string, y: string, z: string)
    ensures Render([Plain(x), Plain(y), Plain(z)]) == x + "\n" + y + "\n" + z + "\n"
  {
    var a, b, c := Plain(x), Plain(y), Plain(z);
    assert [a, b, c][1..] == [b, c] && [b, c][1..] == [c] && [c][1..] == [];
    assert a.Render() == x + "\n" && b.Render() == y + "\n" && c.Render() == z + "\n";
    assert Render([c]) == c.Render() + Render([]);
    assert Render([b, c]) == y + "\n" + (z + "\n");
    assert x + "\n" + (y + "\n" + (z + "\n")) == x + "\n" + y + "\n" + z + "\n";
  }

  /** One certificate, its base64 on one line. */
  lemma ParseOneLine(der: bytes)
    ensures ParseBundle(
        "-----BEGIN CERTIFICATE-----" + "\n" + Base64.Encode(Base64.Standard, der) + "\n"
          + "-----END CERTIFICATE-----" + "\n")
      == Ok([der])
  {
    var b := OneLine(der);
    OneLineValid(der);
    ParsePrinted([b], []);
    assert BundleLines([b]) + [] == [Plain(BEGIN), Plain(Base64.Encode(Base64.Standard, der)), Plain(END)];
    RenderThree(BEGIN, Base64.Encode(Base64.Standard, der), END);
    assert Ders([b]) == [der];
  }
}
