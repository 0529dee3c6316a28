/**
  The grammar of JSON text (RFC 8259), without a parser in it: values with space around their parts.
  The parser reads exactly the texts of this grammar, and what it reads can be printed.
 */
module JsonGrammar {
  import opened Basics
  import opened Json
  import opened JsonNumbers
  import opened JsonStrings

  // ---------------------------------------------------------------- values with space around their parts

  predicate Space(s: bytes) {
    forall i :: 0 <= i < |s| ==> s[i] in {0x20, 0x09, 0x0A, 0x0D}
  }

  /** A value as it stands in a text: arrays and objects with the space between their parts. */
  datatype Tree =
    | Leaf(value: Json)
    | ArrTree(gap: bytes, elems: seq<Elem>)
    | ObjTree(gap: bytes, pairs: seq<Pair>)

  datatype Elem = Elem(before: bytes, tree: Tree, after: bytes)

  datatype Pair = Pair(before: bytes, key: bytes, mid: bytes, elem: Elem)

  ghost predicate LeafValid(v: Json) {
    v.Null? || v.Bool? || (v.Num? && Number(v.text)) || (v.Str? && Lexes(v.raw))
  }

  ghost predicate Valid(t: Tree) {
    match t
    case Leaf(v) => LeafValid(v)
    case ArrTree(gap, es) => Space(gap) && forall i :: 0 <= i < |es| ==> ValidElem(es[i])
    case ObjTree(gap, ps) => Space(gap) && forall i :: 0 <= i < |ps| ==> ValidPair(ps[i])
  }

  ghost predicate ValidElem(e: Elem) {
    Space(e.before) && Valid(e.tree) && Space(e.after)
  }

  ghost predicate ValidPair(p: Pair) {
    Space(p.before) && Lexes(p.key) && Space(p.mid) && ValidElem(p.elem)
  }

  function LeafText(v: Json): bytes {
    match v
    case Null => Ascii("null")
    case Bool(b) => Ascii(if b then "true" else "false")
    case Num(text) => text
    case Str(raw) => [0x22] + raw + [0x22]
    case _ => []
  }

  /** The text of a tree, in front of the text `k`. */
  function Text(t: Tree, k: bytes): bytes {
    match t
    case Leaf(v) => LeafText(v) + k
    case ArrTree(gap, es) => [0x5B] + if es == [] then gap + ([0x5D] + k) else ElemsText(es, [0x5D] + k)
    case ObjTree(gap, ps) => [0x7B] + if ps == [] then gap + ([0x7D] + k) else PairsText(ps, [0x7D] + k)
  }

  function ElemText(e: Elem, k: bytes): bytes {
    e.before + Text(e.tree, e.after + k)
  }

  function ElemsText(es: seq<Elem>, k: bytes): bytes {
    if es == [] then k else ElemText(es[0], if |es| == 1 then k else [0x2C] + ElemsText(es[1..], k))
  }

  function PairText(p: Pair, k: bytes): bytes {
    p.before + ([0x22] + (p.key + ([0x22] + (p.mid + ([0x3A] + ElemText(p.elem, k))))))
  }

  function PairsText(ps: seq<Pair>, k: bytes): bytes {
    if ps == [] then k else PairText(ps[0], if |ps| == 1 then k else [0x2C] + PairsText(ps[1..], k))
  }

  function ValueOf(t: Tree): Json {
    match t
    case Leaf(v) => v
    case ArrTree(_, es) => Arr(Values(es))
    case ObjTree(_, ps) => Obj(Members(ps))
  }

  function Values(es: seq<Elem>): seq<Json> {
    if es == [] then [] else [ValueOf(es[0].tree)] + Values(es[1..])
  }

  function MemberOf(p: Pair): Member {
    Member(p.key, ValueOf(p.elem.tree))
  }

  function Members(ps: seq<Pair>): seq<Member> {
    if ps == [] then [] else [MemberOf(ps[0])] + Members(ps[1..])
  }

  // ---------------------------------------------------------------- space

  lemma {:induction false} SkipSpaces(pre: bytes, s: bytes)
    requires Space(pre)
    ensures SkipSpace(pre + s) == SkipSpace(s)
  {
    if pre == [] {
      assert pre + s == s;
    } else {
      assert (pre + s)[1..] == pre[1..] + s;
      SkipSpaces(pre[1..], s);
    }
  }

  lemma {:induction false} SplitSpace(s: bytes) returns (pre: bytes)
    ensures Space(pre) && s == pre + SkipSpace(s)
    ensures SkipSpace(SkipSpace(s)) == SkipSpace(s)
  {
    if s != [] && s[0] in {0x20, 0x09, 0x0A, 0x0D} {
      var rest := SplitSpace(s[1..]);
      pre := [s[0]] + rest;
    } else {
      pre := [];
    }
  }

  lemma ValueSpaced(pre: bytes, s: bytes)
    requires Space(pre)
    ensures ParseValue(pre + s) == ParseValue(s)
  {
    SkipSpaces(pre, s);
  }

  lemma ElemsSpaced(pre: bytes, s: bytes)
    requires Space(pre)
    ensures ParseElems(pre + s) == ParseElems(s)
  {
    ValueSpaced(pre, s);
  }

  lemma MembersSpaced(pre: bytes, s: bytes)
    requires Space(pre)
    ensures ParseMembers(pre + s) == ParseMembers(s)
  {
    SkipSpaces(pre, s);
    assert ParseKey(pre + s) == ParseKey(s);
  }

  lemma Head(c: byte, k: bytes)
    ensures ([c] + k)[0] == c && ([c] + k)[1..] == k
    ensures c !in {0x20, 0x09, 0x0A, 0x0D} ==> SkipSpace([c] + k) == [c] + k
  {
  }

  /** Behind a value: the space after it, and then text that is none. */
  lemma AfterSpace(after: bytes, c: byte, k: bytes)
    requires Space(after) && c in {0x2C, 0x5D, 0x7D}
    ensures SkipSpace(after + ([c] + k)) == [c] + k && Stops(after + ([c] + k))
  {
    Head(c, k);
    SkipSpaces(after, [c] + k);
    assert after != [] ==> (after + ([c] + k))[0] == after[0];
  }

  // ---------------------------------------------------------------- every text of the grammar is read

  /** The text `s` reads as the value `v` in front of `k`. */
  ghost predicate Reads(s: bytes, v: Json, k: bytes) {
    ParseValue(s) == Some((v, k)) && s != [] && s[0] != 0x5D && SkipSpace(s) == s
  }

  lemma ReadConstant(v: Json, k: bytes)
    requires v.Null? || v.Bool?
    ensures Reads(LeafText(v) + k, v, k)
  {
    assert Ascii("null") == NULL && Ascii("true") == TRUE && Ascii("false") == FALSE;
    assert (NULL + k)[4..] == k && (TRUE + k)[4..] == k && (FALSE + k)[5..] == k;
  }

  lemma ReadNumber(text: bytes, k: bytes)
    requires Number(text) && Stops(k)
    ensures Reads(text + k, Num(text), k)
  {
    var s := text + k;
    NumberExactly(text);
    NumberStops(text, k);
    assert s[0] == text[0] && (text[0] == 0x2D || Digit(text[0]));
    assert s[..|text|] == text && s[|text|..] == k;
  }

  lemma ReadString(raw: bytes, k: bytes)
    requires Lexes(raw)
    ensures Reads([0x22] + raw + [0x22] + k, Str(raw), k)
  {
    var t := raw + ([0x22] + k);
    LexClosed(raw, k);
    Head(0x22, t);
    Quoted(raw, k);
    ReadQuoted([0x22] + t, raw, k);
  }

  lemma ReadQuoted(s: bytes, raw: bytes, k: bytes)
    requires s != [] && s[0] == 0x22 && LexString(s[1..]) == Some((raw, k))
    ensures Reads(s, Str(raw), k)
  {
  }

  lemma ReadLeaf(v: Json, k: bytes)
    requires LeafValid(v) && Stops(k)
    ensures Reads(LeafText(v) + k, v, k)
  {
    match v
    case Num(text) => ReadNumber(text, k);
    case Str(raw) => ReadString(raw, k);
    case _ => ReadConstant(v, k);
  }

  lemma ReadEmpty(gap: bytes, k: bytes)
    requires Space(gap)
    ensures Reads([0x5B] + (gap + ([0x5D] + k)), Arr([]), k) && Reads([0x7B] + (gap + ([0x7D] + k)), Obj([]), k)
  {
    Head(0x5B, gap + ([0x5D] + k));
    Head(0x7B, gap + ([0x7D] + k));
    AfterSpace(gap, 0x5D, k);
    AfterSpace(gap, 0x7D, k);
    Head(0x5D, k);
    Head(0x7D, k);
  }

  /** The text reads as elements in front of a closing bracket. */
  ghost predicate ReadsElems(s: bytes, vs: seq<Json>, k: bytes) {
    ParseElems(s) == Some((vs, k)) && SkipSpace(s) != [] && SkipSpace(s)[0] != 0x5D
  }

  ghost predicate ReadsMembers(s: bytes, ms: seq<Member>, k: bytes) {
    ParseMembers(s) == Some((ms, k)) && SkipSpace(s) != [] && SkipSpace(s)[0] != 0x7D
  }

  lemma WholeArr(inner: bytes, vs: seq<Json>, k: bytes)
    requires ReadsElems(inner, vs, k)
    ensures Reads([0x5B] + inner, Arr(vs), k)
  {
    Head(0x5B, inner);
    var pre := SplitSpace(inner);
    ElemsSpaced(pre, SkipSpace(inner));
  }

  lemma WholeObj(inner: bytes, ms: seq<Member>, k: bytes)
    requires ReadsMembers(inner, ms, k)
    ensures Reads([0x7B] + inner, Obj(ms), k)
  {
    Head(0x7B, inner);
    var pre := SplitSpace(inner);
    MembersSpaced(pre, SkipSpace(inner));
  }

  lemma {:induction false} ReadTree(t: Tree, k: bytes)
    requires Valid(t) && Stops(k)
    ensures Reads(Text(t, k), ValueOf(t), k)
    decreases t, 0
  {
    match t
    case Leaf(v) =>
      ReadLeaf(v, k);
    case ArrTree(gap, es) =>
      if es == [] {
        ReadEmpty(gap, k);
      } else {
        ReadElems(es, k);
        WholeArr(ElemsText(es, [0x5D] + k), Values(es), k);
      }
    case ObjTree(gap, ps) =>
      if ps == [] {
        ReadEmpty(gap, k);
      } else {
        ReadPairs(ps, k);
        WholeObj(PairsText(ps, [0x7D] + k), Members(ps), k);
      }
  }

  /** An element in front of a comma or a closing bracket. */
  lemma {:induction false} ReadElem(e: Elem, c: byte, k: bytes)
    requires ValidElem(e) && c in {0x2C, 0x5D, 0x7D}
    ensures ParseValue(ElemText(e, [c] + k)) == Some((ValueOf(e.tree), e.after + ([c] + k)))
    ensures SkipSpace(e.after + ([c] + k)) == [c] + k
    ensures SkipSpace(ElemText(e, [c] + k)) != [] && SkipSpace(ElemText(e, [c] + k))[0] != 0x5D
    decreases e, 0
  {
    var rest := e.after + ([c] + k);
    AfterSpace(e.after, c, k);
    ReadTree(e.tree, rest);
    ValueSpaced(e.before, Text(e.tree, rest));
    SkipSpaces(e.before, Text(e.tree, rest));
  }

  lemma MoreElems(input: bytes, v: Json, after: bytes, t: bytes, vs: seq<Json>, k: bytes)
    requires ParseValue(input) == Some((v, after)) && SkipSpace(after) == [0x2C] + t && ParseElems(t) == Some((vs, k))
    ensures ParseElems(input) == Some(([v] + vs, k))
  {
    Head(0x2C, t);
  }

  lemma LastElem(input: bytes, v: Json, after: bytes, k: bytes)
    requires ParseValue(input) == Some((v, after)) && SkipSpace(after) == [0x5D] + k
    ensures ParseElems(input) == Some(([v], k))
  {
    Head(0x5D, k);
  }

  lemma ConsElems(e: Elem, es: seq<Elem>, k: bytes)
    ensures Values([e] + es) == [ValueOf(e.tree)] + Values(es)
    ensures ElemsText([e] + es, k) == ElemText(e, if es == [] then k else [0x2C] + ElemsText(es, k))
  {
    assert ([e] + es)[1..] == es;
  }

  lemma {:induction false} ReadElems(es: seq<Elem>, k: bytes)
    requires es != [] && forall i :: 0 <= i < |es| ==> ValidElem(es[i])
    ensures ReadsElems(ElemsText(es, [0x5D] + k), Values(es), k)
    decreases es, 1
  {
    var e, rest, end := es[0], es[1..], [0x5D] + k;
    assert es == [e] + rest;
    ConsElems(e, rest, end);
    if rest == [] {
      ReadElem(e, 0x5D, k);
      LastElem(ElemText(e, end), ValueOf(e.tree), e.after + end, k);
      assert Values(es) == [ValueOf(e.tree)];
    } else {
      var t := ElemsText(rest, end);
      ReadElem(e, 0x2C, t);
      ReadElems(rest, k);
      MoreElems(ElemText(e, [0x2C] + t), ValueOf(e.tree), e.after + ([0x2C] + t), t, Values(rest), k);
    }
  }

  /** A key with the space around it, and the colon. */
  lemma ReadKey(p: Pair, k: bytes)
    requires ValidPair(p)
    ensures ParseKey(PairText(p, k)) == Some((p.key, ElemText(p.elem, k)))
    ensures SkipSpace(PairText(p, k)) != [] && SkipSpace(PairText(p, k))[0] == 0x22
  {
    var colon := [0x3A] + ElemText(p.elem, k);
    var quoted := p.key + ([0x22] + (p.mid + colon));
    SkipSpaces(p.before, [0x22] + quoted);
    Head(0x22, quoted);
    LexClosed(p.key, p.mid + colon);
    SkipSpaces(p.mid, colon);
    Head(0x3A, ElemText(p.elem, k));
  }

  lemma MoreMembers(input: bytes, key: bytes, value: bytes, v: Json, after: bytes, t: bytes, ms: seq<Member>, k: bytes)
    requires ParseKey(input) == Some((key, value)) && ParseValue(value) == Some((v, after))
    requires SkipSpace(after) == [0x2C] + t && ParseMembers(t) == Some((ms, k))
    ensures ParseMembers(input) == Some(([Member(key, v)] + ms, k))
  {
    Head(0x2C, t);
  }

  lemma LastMember(input: bytes, key: bytes, value: bytes, v: Json, after: bytes, k: bytes)
    requires ParseKey(input) == Some((key, value)) && ParseValue(value) == Some((v, after))
    requires SkipSpace(after) == [0x7D] + k
    ensures ParseMembers(input) == Some(([Member(key, v)], k))
  {
    Head(0x7D, k);
  }

  lemma ConsPairs(p: Pair, ps: seq<Pair>, k: bytes)
    ensures Members([p] + ps) == [MemberOf(p)] + Members(ps)
    ensures PairsText([p] + ps, k) == PairText(p, if ps == [] then k else [0x2C] + PairsText(ps, k))
  {
    assert ([p] + ps)[1..] == ps;
  }

  /** A pair, and the separator `c` behind it. */
  lemma {:induction false} ReadPair(p: Pair, c: byte, k: bytes)
    requires ValidPair(p) && c in {0x2C, 0x7D}
    ensures var input, value := PairText(p, [c] + k), ElemText(p.elem, [c] + k);
      && ParseKey(input) == Some((p.key, value)) && SkipSpace(input) != [] && SkipSpace(input)[0] == 0x22
      && ParseValue(value) == Some((ValueOf(p.elem.tree), p.elem.after + ([c] + k)))
      && SkipSpace(p.elem.after + ([c] + k)) == [c] + k
    decreases p, 1
  {
    ReadKey(p, [c] + k);
    ReadElem(p.elem, c, k);
  }

  lemma {:induction false} ReadPairs(ps: seq<Pair>, k: bytes)
    requires ps != [] && forall i :: 0 <= i < |ps| ==> ValidPair(ps[i])
    ensures ReadsMembers(PairsText(ps, [0x7D] + k), Members(ps), k)
    decreases ps, 1
  {
    var p, rest, end := ps[0], ps[1..], [0x7D] + k;
    var v := ValueOf(p.elem.tree);
    assert ps == [p] + rest;
    ConsPairs(p, rest, end);
    if rest == [] {
      ReadPair(p, 0x7D, k);
      LastMember(PairText(p, end), p.key, ElemText(p.elem, end), v, p.elem.after + end, k);
      assert Members(ps) == [MemberOf(p)];
    } else {
      var t := PairsText(rest, end);
      var more := [0x2C] + t;
      ReadPair(p, 0x2C, t);
      ReadPairs(rest, k);
      MoreMembers(PairText(p, more), p.key, ElemText(p.elem, more), v, p.elem.after + more, t, Members(rest), k);
    }
  }

  // ---------------------------------------------------------------- whatever is read is a text of the grammar

  /** The text behind `pre` is that of the tree, in front of the rest. */
  ghost predicate Stems(input: bytes, pre: bytes, t: Tree, v: Json, k: bytes) {
    Space(pre) && Valid(t) && ValueOf(t) == v && input == pre + Text(t, k)
  }

  ghost predicate StemElems(input: bytes, es: seq<Elem>, vs: seq<Json>, k: bytes) {
    es != [] && (forall i :: 0 <= i < |es| ==> ValidElem(es[i])) && Values(es) == vs
      && input == ElemsText(es, [0x5D] + k)
  }

  ghost predicate StemPairs(input: bytes, ps: seq<Pair>, ms: seq<Member>, k: bytes) {
    ps != [] && (forall i :: 0 <= i < |ps| ==> ValidPair(ps[i])) && Members(ps) == ms
      && input == PairsText(ps, [0x7D] + k)
  }

  lemma LeafStems(s: bytes, v: Json, k: bytes)
    requires LeafValid(v) && s == LeafText(v) + k
    ensures Stems(s, [], Leaf(v), v, k)
  {
    assert [] + s == s;
  }

  lemma ConstantFound(s: bytes) returns (v: Json, k: bytes)
    requires NULL <= s || TRUE <= s || FALSE <= s
    requires SkipSpace(s) == s
    ensures ParseValue(s) == Some((v, k)) && Stems(s, [], Leaf(v), v, k)
  {
    v := if NULL <= s then Null else if TRUE <= s then Bool(true) else Bool(false);
    k := ParseValue(s).value.1;
    assert Ascii("null") == NULL && Ascii("true") == TRUE && Ascii("false") == FALSE;
    LeafStems(s, v, k);
  }

  lemma Quoted(raw: bytes, k: bytes)
    ensures [0x22] + (raw + ([0x22] + k)) == [0x22] + raw + [0x22] + k
  {
  }

  lemma StringFound(s: bytes, raw: bytes, k: bytes)
    requires s != [] && s[0] == 0x22 && LexString(s[1..]) == Some((raw, k))
    ensures Stems(s, [], Leaf(Str(raw)), Str(raw), k)
  {
    LexedLexes(s[1..]);
    ConsTail(s);
    Quoted(raw, k);
    LeafStems(s, Str(raw), k);
  }

  lemma NumberFound(s: bytes)
    requires NumberEnd(s).Some?
    ensures var n := NumberEnd(s).value; Stems(s, [], Leaf(Num(s[..n])), Num(s[..n]), s[n..])
  {
    var n := NumberEnd(s).value;
    NumberWithin(s);
    NumberExactly(s[..n]);
    TakeDrop(s, n);
    LeafStems(s, Num(s[..n]), s[n..]);
  }

  lemma EmptyFound(s: bytes, gap: bytes, k: bytes)
    requires Space(gap)
    ensures s == [0x5B] + (gap + ([0x5D] + k)) ==> Stems(s, [], ArrTree(gap, []), Arr([]), k)
    ensures s == [0x7B] + (gap + ([0x7D] + k)) ==> Stems(s, [], ObjTree(gap, []), Obj([]), k)
  {
    assert [] + s == s;
  }

  lemma FullFound(s: bytes, inner: bytes, es: seq<Elem>, vs: seq<Json>, ps: seq<Pair>, ms: seq<Member>, k: bytes)
    ensures StemElems(inner, es, vs, k) && s == [0x5B] + inner ==> Stems(s, [], ArrTree([], es), Arr(vs), k)
    ensures StemPairs(inner, ps, ms, k) && s == [0x7B] + inner ==> Stems(s, [], ObjTree([], ps), Obj(ms), k)
  {
    assert [] + s == s;
  }

  lemma StemsAfter(pre: bytes, s: bytes, t: Tree, v: Json, k: bytes)
    requires Space(pre) && Stems(s, [], t, v, k)
    ensures Stems(pre + s, pre, t, v, k)
  {
    assert s == Text(t, k);
  }

  lemma {:induction false} TreeFound(input: bytes) returns (pre: bytes, t: Tree)
    requires ParseValue(input).Some?
    ensures Stems(input, pre, t, ParseValue(input).value.0, ParseValue(input).value.1)
    decreases |input|, 2
  {
    pre := SplitSpace(input);
    var s := SkipSpace(input);
    ValueSpaced(pre, s);
    t := BareFound(s);
    var (v, k) := ParseValue(s).value;
    StemsAfter(pre, s, t, v, k);
  }

  lemma {:induction false} BareFound(s: bytes) returns (t: Tree)
    requires ParseValue(s).Some? && SkipSpace(s) == s
    ensures Stems(s, [], t, ParseValue(s).value.0, ParseValue(s).value.1)
    decreases |s|, 1
  {
    if NULL <= s || TRUE <= s || FALSE <= s {
      var v, k := ConstantFound(s);
      t := Leaf(v);
    } else if s[0] == QUOTE {
      var (raw, k) := LexString(s[1..]).value;
      t := Leaf(Str(raw));
      StringFound(s, raw, k);
    } else if s[0] == 0x5B {
      t := ArrFound(s);
    } else if s[0] == 0x7B {
      t := ObjFound(s);
    } else {
      t := Leaf(Num(s[..NumberEnd(s).value]));
      NumberFound(s);
    }
  }

  lemma {:induction false} ArrFound(s: bytes) returns (t: Tree)
    requires s != [] && s[0] == 0x5B && SkipSpace(s) == s && ParseValue(s).Some?
    ensures Stems(s, [], t, ParseValue(s).value.0, ParseValue(s).value.1)
    decreases |s|, 0
  {
    var inner := SkipSpace(s[1..]);
    var gap := SplitSpace(s[1..]);
    ConsTail(s);
    if inner != [] && inner[0] == 0x5D {
      t := ArrTree(gap, []);
      ConsTail(inner);
      EmptyFound(s, gap, inner[1..]);
    } else {
      ElemsSpaced(gap, inner);
      var es := ElemsFound(s[1..]);
      t := ArrTree([], es);
      FullFound(s, s[1..], es, Values(es), [], [], ParseValue(s).value.1);
    }
  }

  lemma {:induction false} ObjFound(s: bytes) returns (t: Tree)
    requires s != [] && s[0] == 0x7B && SkipSpace(s) == s && ParseValue(s).Some?
    ensures Stems(s, [], t, ParseValue(s).value.0, ParseValue(s).value.1)
    decreases |s|, 0
  {
    var inner := SkipSpace(s[1..]);
    var gap := SplitSpace(s[1..]);
    ConsTail(s);
    if inner != [] && inner[0] == 0x7D {
      t := ObjTree(gap, []);
      ConsTail(inner);
      EmptyFound(s, gap, inner[1..]);
    } else {
      MembersSpaced(gap, inner);
      var ps := PairsFound(s[1..]);
      t := ObjTree([], ps);
      FullFound(s, s[1..], [], [], ps, Members(ps), ParseValue(s).value.1);
    }
  }

  lemma {:induction false} ElemsFound(input: bytes) returns (es: seq<Elem>)
    requires ParseElems(input).Some?
    ensures StemElems(input, es, ParseElems(input).value.0, ParseElems(input).value.1)
    decreases |input|, 3
  {
    var pre, t := TreeFound(input);
    var rest := ParseValue(input).value.1;
    var after := SplitSpace(rest);
    var s, e := SkipSpace(rest), Elem(pre, t, after);
    ConsTail(s);
    var more := [];
    if s[0] == 0x2C {
      more := ElemsFound(s[1..]);
    }
    es := [e] + more;
    ConsElems(e, more, [0x5D] + ParseElems(input).value.1);
  }

  lemma KeyFound(input: bytes) returns (before: bytes, mid: bytes)
    requires ParseKey(input).Some?
    ensures var (key, value) := ParseKey(input).value;
      && Space(before) && Lexes(key) && Space(mid)
      && input == before + ([0x22] + (key + ([0x22] + (mid + ([0x3A] + value)))))
  {
    before := SplitSpace(input);
    var k := SkipSpace(input);
    LexedLexes(k[1..]);
    var behind := LexString(k[1..]).value.1;
    mid := SplitSpace(behind);
    var c := SkipSpace(behind);
    ConsTail(k);
    ConsTail(c);
  }

  lemma {:induction false} PairFound(input: bytes) returns (p: Pair)
    requires ParseKey(input).Some? && ParseValue(ParseKey(input).value.1).Some?
    ensures var (key, value) := ParseKey(input).value;
      var (v, rest) := ParseValue(value).value;
      ValidPair(p) && MemberOf(p) == Member(key, v) && input == PairText(p, SkipSpace(rest))
    decreases |input|, 2
  {
    var before, mid := KeyFound(input);
    var (key, value) := ParseKey(input).value;
    var pre, t := TreeFound(value);
    var after := SplitSpace(ParseValue(value).value.1);
    p := Pair(before, key, mid, Elem(pre, t, after));
  }

  lemma {:induction false} PairsFound(input: bytes) returns (ps: seq<Pair>)
    requires ParseMembers(input).Some?
    ensures StemPairs(input, ps, ParseMembers(input).value.0, ParseMembers(input).value.1)
    decreases |input|, 3
  {
    var p := PairFound(input);
    var s := SkipSpace(ParseValue(ParseKey(input).value.1).value.1);
    ConsTail(s);
    var more := [];
    if s[0] == 0x2C {
      more := PairsFound(s[1..]);
    }
    ps := [p] + more;
    ConsPairs(p, more, [0x7D] + ParseMembers(input).value.1);
  }

  // ---------------------------------------------------------------- documents

  /** The bytes are a text of the value: a tree of it, with space on both sides. */
  ghost predicate TextOf(b: bytes, v: Json) {
    exists pre, t, post :: Space(pre) && Valid(t) && ValueOf(t) == v && Space(post) && b == pre + Text(t, post)
  }

  lemma TextIsRead(pre: bytes, t: Tree, post: bytes)
    requires Space(pre) && Valid(t) && Space(post)
    ensures ParseDocument(pre + Text(t, post)) == Some(ValueOf(t))
  {
    assert post + [] == post;
    SkipSpaces(post, []);
    ReadTree(t, post);
    ValueSpaced(pre, Text(t, post));
  }

  /** The parser reads a value exactly from the texts of it, whatever the space between the parts. */
  lemma DocumentExactly(b: bytes, v: Json)
    ensures ParseDocument(b) == Some(v) <==> TextOf(b, v)
  {
    if ParseDocument(b) == Some(v) {
      var pre, t := TreeFound(b);
      var k := ParseValue(b).value.1;
      var post := SplitSpace(k);
      assert post + [] == post;
    }
    if TextOf(b, v) {
      var pre, t, post :| Space(pre) && Valid(t) && ValueOf(t) == v && Space(post) && b == pre + Text(t, post);
      TextIsRead(pre, t, post);
    }
  }

  // ---------------------------------------------------------------- printing

  /** The tree of a value without any space, which is what serde_json writes. */
  function Bare(v: Json): Tree
    decreases v, 0
  {
    match v
    case Arr(es) => ArrTree([], BareElems(es))
    case Obj(ms) => ObjTree([], BarePairs(ms))
    case _ => Leaf(v)
  }

  function BareElem(v: Json): Elem
    decreases v, 1
  {
    Elem([], Bare(v), [])
  }

  function BareElems(es: seq<Json>): seq<Elem> {
    if es == [] then [] else [BareElem(es[0])] + BareElems(es[1..])
  }

  function BarePair(m: Member): Pair {
    Pair([], m.key, [], BareElem(m.value))
  }

  function BarePairs(ms: seq<Member>): seq<Pair> {
    if ms == [] then [] else [BarePair(ms[0])] + BarePairs(ms[1..])
  }

  function Print(v: Json): bytes {
    Text(Bare(v), [])
  }

  /** A value with whole numbers and strings in it. */
  ghost predicate Printable(v: Json) {
    match v
    case Arr(es) => forall i :: 0 <= i < |es| ==> Printable(es[i])
    case Obj(ms) => forall i :: 0 <= i < |ms| ==> PrintableMember(ms[i])
    case _ => LeafValid(v)
  }

  ghost predicate PrintableMember(m: Member) {
    Lexes(m.key) && Printable(m.value)
  }

  lemma {:induction false} BareValid(v: Json)
    requires Printable(v)
    ensures Valid(Bare(v)) && ValueOf(Bare(v)) == v
    decreases v, 0
  {
    match v
    case Arr(es) => BareElemsValid(es);
    case Obj(ms) => BarePairsValid(ms);
    case _ =>
  }

  lemma {:induction false} BareElemsValid(es: seq<Json>)
    requires forall i :: 0 <= i < |es| ==> Printable(es[i])
    ensures |BareElems(es)| == |es| && Values(BareElems(es)) == es
    ensures forall i :: 0 <= i < |es| ==> ValidElem(BareElems(es)[i])
    decreases es, 1
  {
    if es != [] {
      var first, rest := BareElem(es[0]), BareElems(es[1..]);
      BareValid(es[0]);
      BareElemsValid(es[1..]);
      ConsElems(first, rest, []);
      assert BareElems(es) == [first] + rest && ValidElem(first);
      ConsTail(es);
    }
  }

  lemma {:induction false} BarePairValid(m: Member)
    requires PrintableMember(m)
    ensures ValidPair(BarePair(m)) && MemberOf(BarePair(m)) == m
    decreases m, 1
  {
    BareValid(m.value);
  }

  lemma {:induction false} BarePairsValid(ms: seq<Member>)
    requires forall i :: 0 <= i < |ms| ==> PrintableMember(ms[i])
    ensures |BarePairs(ms)| == |ms| && Members(BarePairs(ms)) == ms
    ensures forall i :: 0 <= i < |ms| ==> ValidPair(BarePairs(ms)[i])
    decreases ms, 1
  {
    if ms != [] {
      var first, rest := BarePair(ms[0]), BarePairs(ms[1..]);
      assert PrintableMember(ms[0]);
      BarePairValid(ms[0]);
      BarePairsValid(ms[1..]);
      ConsPairs(first, rest, []);
      assert BarePairs(ms) == [first] + rest;
      ConsTail(ms);
    }
  }

  lemma {:induction false} TreePrintable(t: Tree)
    requires Valid(t)
    ensures Printable(ValueOf(t))
    decreases t, 0
  {
    match t
    case Leaf(v) =>
    case ArrTree(_, es) => ElemsPrintable(es);
    case ObjTree(_, ps) => PairsPrintable(ps);
  }

  lemma {:induction false} ElemsPrintable(es: seq<Elem>)
    requires forall i :: 0 <= i < |es| ==> ValidElem(es[i])
    ensures forall v :: v in Values(es) ==> Printable(v)
    decreases es, 1
  {
    if es != [] {
      assert ValidElem(es[0]);
      TreePrintable(es[0].tree);
      ElemsPrintable(es[1..]);
    }
  }

  lemma {:induction false} PairsPrintable(ps: seq<Pair>)
    requires forall i :: 0 <= i < |ps| ==> ValidPair(ps[i])
    ensures forall m :: m in Members(ps) ==> PrintableMember(m)
    decreases ps, 1
  {
    if ps != [] {
      assert ValidPair(ps[0]) && ValidElem(ps[0].elem);
      TreePrintable(ps[0].elem.tree);
      PairsPrintable(ps[1..]);
    }
  }

  /** A printed document parses back to the value printed. */
  lemma ParsePrint(v: Json)
    requires Printable(v)
    ensures ParseDocument(Print(v)) == Some(v)
  {
    BareValid(v);
    TextIsRead([], Bare(v), []);
    assert [] + Print(v) == Print(v);
  }

  /**
    Printable values are exactly those that come back, and every document read is one: printing it
    anew loses nothing.
   */
  lemma PrintableExactly(v: Json)
    ensures Printable(v) <==> ParseDocument(Print(v)) == Some(v)
    ensures Printable(v) <==> exists b :: ParseDocument(b) == Some(v)
  {
    if Printable(v) {
      ParsePrint(v);
    }
    forall b | ParseDocument(b) == Some(v) ensures Printable(v) {
      var pre, t := TreeFound(b);
      TreePrintable(t);
    }
  }

  // ---------------------------------------------------------------- nothing is printed that need not be

  lemma {:induction false} TextShortest(t: Tree, k: bytes, short: bytes)
    requires |short| <= |k| && Valid(t)
    ensures |Text(Bare(ValueOf(t)), short)| <= |Text(t, k)|
    decreases t, 0
  {
    match t
    case Leaf(v) =>
    case ArrTree(gap, es) =>
      ElemsShortest(es, [0x5D] + k, [0x5D] + short);
    case ObjTree(gap, ps) =>
      PairsShortest(ps, [0x7D] + k, [0x7D] + short);
  }

  lemma {:induction false} ElemsShortest(es: seq<Elem>, k: bytes, short: bytes)
    requires |short| <= |k| && forall i :: 0 <= i < |es| ==> ValidElem(es[i])
    ensures |BareElems(Values(es))| == |es| && |ElemsText(BareElems(Values(es)), short)| <= |ElemsText(es, k)|
    decreases es, 1
  {
    if es != [] {
      var e, rest := es[0], es[1..];
      assert ValidElem(e);
      ElemsShortest(rest, k, short);
      ConsElems(BareElem(ValueOf(e.tree)), BareElems(Values(rest)), short);
      if rest == [] {
        TextShortest(e.tree, e.after + k, [] + short);
      } else {
        var more, less := [0x2C] + ElemsText(rest, k), [0x2C] + ElemsText(BareElems(Values(rest)), short);
        TextShortest(e.tree, e.after + more, [] + less);
      }
    }
  }

  lemma PairLength(p: Pair, k: bytes)
    ensures |PairText(p, k)| ==
      |p.before| + |p.key| + |p.mid| + 3 + |p.elem.before| + |Text(p.elem.tree, p.elem.after + k)|
  {
  }

  lemma {:induction false} PairsShortest(ps: seq<Pair>, k: bytes, short: bytes)
    requires |short| <= |k| && forall i :: 0 <= i < |ps| ==> ValidPair(ps[i])
    ensures |BarePairs(Members(ps))| == |ps| && |PairsText(BarePairs(Members(ps)), short)| <= |PairsText(ps, k)|
    decreases ps, 1
  {
    if ps != [] {
      var p, rest := ps[0], ps[1..];
      assert ValidPair(p) && ValidElem(p.elem);
      PairsShortest(rest, k, short);
      assert ps == [p] + rest;
      ConsPairs(p, rest, k);
      ConsPairs(BarePair(MemberOf(p)), BarePairs(Members(rest)), short);
      assert Members(ps)[1..] == Members(rest);
      assert BarePairs(Members(ps)) == [BarePair(MemberOf(p))] + BarePairs(Members(rest));
      if rest == [] {
        TextShortest(p.elem.tree, p.elem.after + k, [] + short);
        PairLength(p, k);
        PairLength(BarePair(MemberOf(p)), short);
      } else {
        var more, less := [0x2C] + PairsText(rest, k), [0x2C] + PairsText(BarePairs(Members(rest)), short);
        TextShortest(p.elem.tree, p.elem.after + more, [] + less);
        PairLength(p, more);
        PairLength(BarePair(MemberOf(p)), less);
      }
    }
  }

  /** No text of a value is shorter than the one printed. */
  lemma PrintShortest(v: Json, b: bytes)
    requires TextOf(b, v)
    ensures |Print(v)| <= |b|
  {
    var pre, t, post :| Space(pre) && Valid(t) && ValueOf(t) == v && Space(post) && b == pre + Text(t, post);
    TextShortest(t, post, []);
  }
}
