/** How a derived `Deserialize` reads a JSON value: named fields, strings, optional strings, lists of strings. */
module Serde {
  import opened Basics
  import opened Json
  import opened JsonGrammar
  import opened JsonStrings

  /** The known fields of an object; unknown ones are skipped, a known one given twice is an error. */
  function Fields(ms: seq<Member>, names: set<string>, found: map<string, Json>): Option<map<string, Json>>
    decreases |ms|
  {
    if ms == [] then Some(found)
    else
      var key :- Unquote(ms[0].key);
      if key !in names then Fields(ms[1..], names, found)
      else if key in found then None
      else Fields(ms[1..], names, found[key := ms[0].value])
  }

  function AsString(v: Json): Option<string> {
    if v.Str? then Unquote(v.raw) else None
  }

  function AsStrings(v: Json): Option<seq<string>> {
    if v.Arr? then Collect(AsString, v.elems) else None
  }

  function AsOptional(v: Json): Option<Option<string>> {
    if v.Null? then Some(None)
    else
      var s :- AsString(v);
      Some(Some(s))
  }

  function OfString(s: string): Json {
    Str(Quote(s))
  }

  function OfStrings(ss: seq<string>): Json {
    Arr(seq(|ss|, i requires 0 <= i < |ss| => OfString(ss[i])))
  }

  function OfOptional(o: Option<string>): Json {
    match o
    case None => Null
    case Some(s) => OfString(s)
  }

  function Field(name: string, v: Json): Member {
    Member(Quote(name), v)
  }

  lemma StringRoundTrip(s: string)
    ensures AsString(OfString(s)) == Some(s) && Printable(OfString(s))
  {
    UnquoteQuote(s);
  }

  lemma StringsRoundTrip(ss: seq<string>)
    ensures AsStrings(OfStrings(ss)) == Some(ss) && Printable(OfStrings(ss))
  {
    forall i | 0 <= i < |ss| ensures AsString(OfString(ss[i])) == Some(ss[i]) && Printable(OfString(ss[i])) {
      StringRoundTrip(ss[i]);
    }
    assert AsStrings(OfStrings(ss)).value == ss;
  }

  lemma OptionalRoundTrip(o: Option<string>)
    ensures AsOptional(OfOptional(o)) == Some(o) && Printable(OfOptional(o))
  {
    if o.Some? {
      StringRoundTrip(o.value);
    }
  }

  /** A known field, met first, is found. */
  lemma FieldFound(name: string, v: Json, ms: seq<Member>, names: set<string>, found: map<string, Json>)
    requires name in names && name !in found
    ensures Fields([Field(name, v)] + ms, names, found) == Fields(ms, names, found[name := v])
  {
    UnquoteQuote(name);
    assert ([Field(name, v)] + ms)[1..] == ms;
  }

  // ---------------------------------------------------------------- which fields are found, whatever the order

  /** Member `i` has the name, once its key is unescaped. */
  predicate Named(ms: seq<Member>, i: int, name: string) {
    0 <= i < |ms| && Unquote(ms[i].key) == Some(name)
  }

  /** Every key is a Rust string, and no known one comes twice. */
  ghost predicate WellNamed(ms: seq<Member>, names: set<string>) {
    && (forall m :: m in ms ==> Unquote(m.key).Some?)
    && (forall i, j, name :: name in names && Named(ms, i, name) && Named(ms, j, name) ==> i == j)
  }

  /** The map gives to each known name that occurs the value of its member, and nothing else. */
  ghost predicate Describes(f: map<string, Json>, ms: seq<Member>, names: set<string>) {
    && f.Keys <= names
    && (forall i, name :: name in names && Named(ms, i, name) ==> name in f && f[name] == ms[i].value)
    && (forall name :: name in f ==> exists i :: Named(ms, i, name))
  }

  lemma {:induction false} FieldsSnoc(ms: seq<Member>, m: Member, names: set<string>, found: map<string, Json>)
    ensures Fields(ms + [m], names, found) ==
      match Fields(ms, names, found) case Some(f) => Fields([m], names, f) case None => None
    decreases |ms|
  {
    if ms == [] {
      assert ms + [m] == [m];
    } else {
      assert (ms + [m])[1..] == ms[1..] + [m];
      if Unquote(ms[0].key).Some? {
        var key := Unquote(ms[0].key).value;
        FieldsSnoc(ms[1..], m, names, if key in names then found[key := ms[0].value] else found);
      }
    }
  }

  lemma NamedSnoc(ms: seq<Member>, m: Member)
    ensures forall i, name :: Named(ms + [m], i, name) <==>
      Named(ms, i, name) || (i == |ms| && Unquote(m.key) == Some(name))
  {
  }

  /** A known name that was there before. */
  lemma RepeatedField(ms: seq<Member>, m: Member, names: set<string>, i: int, name: string)
    requires name in names && Named(ms, i, name) && Unquote(m.key) == Some(name)
    ensures !WellNamed(ms + [m], names)
  {
    NamedSnoc(ms, m);
    assert Named(ms + [m], i, name) && Named(ms + [m], |ms|, name);
  }

  /** A name that is unknown, or known and new. */
  lemma NewField(ms: seq<Member>, m: Member, names: set<string>, f: map<string, Json>, name: string)
    requires WellNamed(ms, names) && Describes(f, ms, names)
    requires Unquote(m.key) == Some(name) && name !in f
    ensures WellNamed(ms + [m], names)
    ensures Describes(if name in names then f[name := m.value] else f, ms + [m], names)
  {
    var more := ms + [m];
    NamedSnoc(ms, m);
    assert Named(more, |ms|, name);
    var g := if name in names then f[name := m.value] else f;
    forall other | other in g ensures exists i :: Named(more, i, other) {
      if other in f {
        var i :| Named(ms, i, other);
        assert Named(more, i, other);
      }
    }
  }

  lemma FieldsOne(m: Member, names: set<string>, f: map<string, Json>)
    ensures Fields([m], names, f) ==
      match Unquote(m.key)
      case None => None
      case Some(name) => if name !in names then Some(f) else if name in f then None else Some(f[name := m.value])
  {
    assert [m][1..] == [];
    assert forall g: map<string, Json> :: Fields([m][1..], names, g) == Some(g);
  }

  /** One more member: its key must be a string, and if known then new. */
  lemma OneMoreField(ms: seq<Member>, m: Member, names: set<string>, f: map<string, Json>)
    requires WellNamed(ms, names) && Describes(f, ms, names)
    ensures match Fields([m], names, f)
      case Some(g) => WellNamed(ms + [m], names) && Describes(g, ms + [m], names)
      case None => !WellNamed(ms + [m], names)
  {
    FieldsOne(m, names, f);
    if Unquote(m.key).None? {
      assert m in ms + [m];
    } else if Unquote(m.key).value in f {
      var i :| Named(ms, i, Unquote(m.key).value);
      RepeatedField(ms, m, names, i, Unquote(m.key).value);
    } else {
      NewField(ms, m, names, f, Unquote(m.key).value);
    }
  }

  lemma WellNamedPrefix(ms: seq<Member>, m: Member, names: set<string>)
    requires WellNamed(ms + [m], names)
    ensures WellNamed(ms, names)
  {
    NamedSnoc(ms, m);
  }

  /** Fields are read exactly from well-named members, and what is read describes them. */
  lemma {:induction false} FieldsExactly(ms: seq<Member>, names: set<string>)
    ensures match Fields(ms, names, map[])
      case Some(f) => WellNamed(ms, names) && Describes(f, ms, names)
      case None => !WellNamed(ms, names)
    decreases |ms|
  {
    if ms != [] {
      var init, m := ms[..|ms| - 1], ms[|ms| - 1];
      assert ms == init + [m];
      FieldsExactly(init, names);
      FieldsSnoc(init, m, names, map[]);
      if WellNamed(init, names) {
        OneMoreField(init, m, names, Fields(init, names, map[]).value);
      } else if WellNamed(ms, names) {
        WellNamedPrefix(init, m, names);
      }
    }
  }

  // ---------------------------------------------------------------- what the values of fields say

  predicate IsString(v: Json, s: string) {
    v.Str? && Unquote(v.raw) == Some(s)
  }

  predicate IsStrings(v: Json, ss: seq<string>) {
    v.Arr? && |v.elems| == |ss| && forall i :: 0 <= i < |ss| ==> IsString(v.elems[i], ss[i])
  }

  predicate IsOptional(v: Json, o: Option<string>) {
    match o
    case None => v.Null?
    case Some(s) => IsString(v, s)
  }

  lemma OptionalExactly(v: Json, o: Option<string>)
    ensures AsOptional(v) == Some(o) <==> IsOptional(v, o)
  {
  }

  lemma StringsExactly(v: Json, ss: seq<string>)
    ensures AsStrings(v) == Some(ss) <==> IsStrings(v, ss)
  {
    if IsStrings(v, ss) {
      forall x | x in v.elems ensures AsString(x).Some? {
        var i :| 0 <= i < |v.elems| && v.elems[i] == x;
        assert IsString(v.elems[i], ss[i]);
      }
      assert AsStrings(v).value == ss;
    }
  }

  /** What the members say of an optional field: its text, or nothing when it is absent or null. */
  ghost predicate Says(ms: seq<Member>, name: string, o: Option<string>) {
    match o
    case None => forall i :: Named(ms, i, name) ==> ms[i].value.Null?
    case Some(s) => exists i :: Named(ms, i, name) && IsString(ms[i].value, s)
  }

  lemma SaysExactly(ms: seq<Member>, names: set<string>, f: map<string, Json>, name: string, o: Option<string>)
    requires WellNamed(ms, names) && Describes(f, ms, names) && name in names
    ensures AsOptional(if name in f then f[name] else Null) == Some(o) <==> Says(ms, name, o)
  {
    if name in f {
      var i :| Named(ms, i, name);
      assert f[name] == ms[i].value;
    }
  }
}
