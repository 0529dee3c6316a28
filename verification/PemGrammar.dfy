/** What the PEM loop accepts, stated without its variables. */
module PemGrammar {
  import opened Basics
  import opened Text
  import opened Pem
  import Base64

  predicate Boundary(line: string) {
    line == BEGIN || line == END
  }

  /** The END lines, in order. */
  function Ends(ls: seq<string>): (js: seq<nat>)
    ensures forall k :: 0 <= k < |js| ==> js[k] < |ls| && ls[js[k]] == END
    ensures forall j :: 0 <= j < |ls| && ls[j] == END ==> j in js
    ensures forall k, l :: 0 <= k < l < |js| ==> js[k] < js[l]
  {
    if ls == [] then []
    else
      var n := |ls| - 1;
      if ls[n] == END then Ends(ls[..n]) + [n] else Ends(ls[..n])
  }

  /** Lines `i` and `j` are the BEGIN and the END of one block. */
  predicate Spans(ls: seq<string>, i: nat, j: nat) {
    i < j < |ls| && ls[i] == BEGIN && ls[j] == END && forall k :: i < k < j ==> !Boundary(ls[k])
  }

  /** The END line `j` closes a block whose joined lines are the canonical base64 of `der`. */
  ghost predicate Closes(ls: seq<string>, j: nat, der: bytes) {
    exists i :: Spans(ls, i, j) && Concat(ls[i + 1..j]) == Base64.Encode(Base64.Standard, der)
  }

  /** Every BEGIN line has an END line below it. */
  ghost predicate NoneOpen(ls: seq<string>) {
    forall i :: 0 <= i < |ls| && ls[i] == BEGIN ==> exists j :: i < j < |ls| && ls[j] == END
  }

  /** The bundle: one certificate for each END line, and no block left open. */
  ghost predicate Bundle(ls: seq<string>, certs: seq<bytes>) {
    && |certs| == |Ends(ls)|
    && (forall k :: 0 <= k < |certs| ==> Closes(ls, Ends(ls)[k], certs[k]))
    && NoneOpen(ls)
  }

  /** Line `i` is a BEGIN with no boundary after it. */
  predicate OpenFrom(ls: seq<string>, i: nat) {
    i < |ls| && ls[i] == BEGIN && forall k :: i < k < |ls| ==> !Boundary(ls[k])
  }

  /** The END line `j` closes nothing, or closes a body that is no canonical base64. */
  ghost predicate Bad(ls: seq<string>, j: nat) {
    j < |ls| && ls[j] == END && forall der: bytes :: !Closes(ls, j, der)
  }

  ghost predicate Good(ls: seq<string>, j: nat) {
    exists der: bytes :: Closes(ls, j, der)
  }

  ghost predicate FirstBad(ls: seq<string>, j: nat) {
    Bad(ls, j) && forall h :: 0 <= h < j && ls[h] == END ==> Good(ls, h)
  }

  ghost predicate NoBad(ls: seq<string>) {
    forall j :: 0 <= j < |ls| && ls[j] == END ==> Good(ls, j)
  }

  /** What is wrong with a bad END line: its body, if it ends a block at all. */
  ghost function ErrorAt(ls: seq<string>, j: nat): PemError {
    if exists i :: Spans(ls, i, j) then BadBase64 else UnexpectedEnd
  }

  /** The first bad END line, if there is one, causes the error `e`. */
  ghost predicate FailsWith(ls: seq<string>, e: PemError) {
    exists j :: FirstBad(ls, j) && e == ErrorAt(ls, j)
  }

  /** What the loop's variables mean after the lines `ls`. */
  ghost predicate Meaning(ls: seq<string>, st: State) {
    && |st.certs| == |Ends(ls)|
    && (forall k :: 0 <= k < |st.certs| ==> Closes(ls, Ends(ls)[k], st.certs[k]))
    && if st.inCert then exists i :: OpenFrom(ls, i) && st.b64 == Concat(ls[i + 1..]) else NoneOpen(ls)
  }

  lemma SpansSnoc(ls: seq<string>, line: string, i: nat, j: nat)
    requires j < |ls|
    ensures Spans(ls, i, j) <==> Spans(ls + [line], i, j)
  {
    var m := ls + [line];
    assert forall k :: 0 <= k <= j ==> m[k] == ls[k];
  }

  lemma ClosesSnoc(ls: seq<string>, line: string, j: nat, der: bytes)
    requires j < |ls|
    ensures Closes(ls, j, der) <==> Closes(ls + [line], j, der)
  {
    forall i: nat ensures Spans(ls, i, j) <==> Spans(ls + [line], i, j) { SpansSnoc(ls, line, i, j); }
    assert forall i {:trigger Spans(ls, i, j)} :: 0 <= i < j ==> (ls + [line])[i + 1..j] == ls[i + 1..j];
  }

  lemma SpansOnce(ls: seq<string>, i: nat, k: nat, j: nat)
    requires Spans(ls, i, j) && Spans(ls, k, j)
    ensures i == k
  {
    assert Boundary(ls[i]) && Boundary(ls[k]);
  }

  lemma ClosesOnce(ls: seq<string>, j: nat, a: bytes, b: bytes)
    requires Closes(ls, j, a) && Closes(ls, j, b)
    ensures a == b
  {
    var text := Base64.Encode(Base64.Standard, a);
    var i :| Spans(ls, i, j) && Concat(ls[i + 1..j]) == text;
    var other := Base64.Encode(Base64.Standard, b);
    var k :| Spans(ls, k, j) && Concat(ls[k + 1..j]) == other;
    SpansOnce(ls, i, k, j);
    assert text == other;
    Base64.EncodeInjective(Base64.Standard, a, b);
  }

  lemma GoodSnoc(ls: seq<string>, line: string, j: nat)
    requires j < |ls|
    ensures Good(ls, j) <==> Good(ls + [line], j)
  {
    forall der: bytes ensures Closes(ls, j, der) <==> Closes(ls + [line], j, der) { ClosesSnoc(ls, line, j, der); }
  }

  lemma FailsWithSnoc(ls: seq<string>, line: string, e: PemError)
    requires FailsWith(ls, e)
    ensures FailsWith(ls + [line], e)
  {
    var m := ls + [line];
    var j: nat :| FirstBad(ls, j) && e == ErrorAt(ls, j);
    forall h | 0 <= h <= j ensures m[h] == ls[h] && (Good(ls, h) <==> Good(m, h)) { GoodSnoc(ls, line, h); }
    forall i: nat ensures Spans(ls, i, j) <==> Spans(m, i, j) { SpansSnoc(ls, line, i, j); }
    assert FirstBad(m, j);
  }

  /** When the loop has come this far, every END line so far is good. */
  lemma MeaningGood(ls: seq<string>, st: State)
    requires Meaning(ls, st)
    ensures NoBad(ls)
  {
    forall j | 0 <= j < |ls| && ls[j] == END ensures Good(ls, j) {
      var k :| 0 <= k < |Ends(ls)| && Ends(ls)[k] == j;
      assert Closes(ls, j, st.certs[k]);
    }
  }

  lemma LastBad(ls: seq<string>)
    requires NoBad(ls) && forall der: bytes :: !Closes(ls + [END], |ls|, der)
    ensures FirstBad(ls + [END], |ls|)
  {
    forall h | 0 <= h < |ls| && (ls + [END])[h] == END ensures Good(ls + [END], h) { GoodSnoc(ls, END, h); }
  }

  /** An END line below an open block ends that block and no other. */
  lemma EndSpans(ls: seq<string>, i: nat)
    requires OpenFrom(ls, i)
    ensures forall h: nat :: Spans(ls + [END], h, |ls|) <==> h == i
    ensures (ls + [END])[i + 1..|ls|] == ls[i + 1..]
  {
    var m := ls + [END];
    assert forall h :: 0 <= h < |ls| ==> m[h] == ls[h];
    assert Spans(m, i, |ls|);
    forall h: nat | Spans(m, h, |ls|) ensures h == i {
      assert ls[h] == BEGIN && ls[i] == BEGIN;
    }
  }

  /** An END line below an open block: it closes exactly what `b64` decodes to. */
  lemma EndOfOpen(ls: seq<string>, i: nat, der: bytes)
    requires OpenFrom(ls, i)
    ensures Closes(ls + [END], |ls|, der) <==> Base64.Decode(Base64.Standard, Concat(ls[i + 1..])) == Some(der)
  {
    var m, body := ls + [END], Concat(ls[i + 1..]);
    EndSpans(ls, i);
    assert Spans(m, i, |ls|);
    assert Closes(m, |ls|, der) <==> body == Base64.Encode(Base64.Standard, der);
    Base64.DecodeEncode(Base64.Standard, der);
    if Base64.Decode(Base64.Standard, body) == Some(der) {
      Base64.EncodeDecode(Base64.Standard, body);
    }
  }

  /** An END line when no block is open closes nothing. */
  lemma EndOfNone(ls: seq<string>)
    requires NoneOpen(ls)
    ensures forall i :: !Spans(ls + [END], i, |ls|)
  {
    var m := ls + [END];
    forall i | 0 <= i < |ls| && m[i] == BEGIN ensures !Spans(m, i, |ls|) {
      assert ls[i] == BEGIN;
      var j :| i < j < |ls| && ls[j] == END;
      assert m[j] == END;
    }
  }

  lemma EndsSnoc(ls: seq<string>, line: string)
    ensures Ends(ls + [line]) == if line == END then Ends(ls) + [|ls|] else Ends(ls)
  {
    assert (ls + [line])[..|ls|] == ls;
  }

  /** The certificates so far keep their meaning when a line that is not END arrives. */
  lemma KeepCerts(ls: seq<string>, line: string, certs: seq<bytes>)
    requires |certs| == |Ends(ls)| && forall k :: 0 <= k < |certs| ==> Closes(ls, Ends(ls)[k], certs[k])
    ensures forall k :: 0 <= k < |certs| ==> Closes(ls + [line], Ends(ls)[k], certs[k])
  {
    forall k | 0 <= k < |certs| ensures Closes(ls + [line], Ends(ls)[k], certs[k]) {
      ClosesSnoc(ls, line, Ends(ls)[k], certs[k]);
    }
  }

  /** An END line below an open block whose lines decode. */
  lemma GoodEnd(ls: seq<string>, st: State, i: nat, der: bytes)
    requires Meaning(ls, st) && OpenFrom(ls, i) && Base64.Decode(Base64.Standard, Concat(ls[i + 1..])) == Some(der)
    ensures Meaning(ls + [END], State(st.certs + [der], false, st.b64))
  {
    EndOfOpen(ls, i, der);
    EndsSnoc(ls, END);
    KeepCerts(ls, END, st.certs);
    assert (ls + [END])[|ls|] == END;
    assert NoneOpen(ls + [END]);
  }

  /** An END line below an open block whose lines do not. */
  lemma BadEnd(ls: seq<string>, st: State, i: nat)
    requires Meaning(ls, st) && OpenFrom(ls, i) && Base64.Decode(Base64.Standard, Concat(ls[i + 1..])) == None
    ensures FailsWith(ls + [END], BadBase64)
  {
    forall der: bytes ensures !Closes(ls + [END], |ls|, der) {
      EndOfOpen(ls, i, der);
    }
    EndSpans(ls, i);
    assert Spans(ls + [END], i, |ls|);
    MeaningGood(ls, st);
    LastBad(ls);
  }

  lemma EndMeaning(ls: seq<string>, st: State)
    requires Meaning(ls, st) && st.inCert
    ensures match Step(st, END) case Ok(next) => Meaning(ls + [END], next) case Err(e) => FailsWith(ls + [END], e)
  {
    var i :| OpenFrom(ls, i) && st.b64 == Concat(ls[i + 1..]);
    match Base64.Decode(Base64.Standard, st.b64)
    case Some(der) =>
      GoodEnd(ls, st, i, der);
    case None =>
      BadEnd(ls, st, i);
  }

  /** An END line when no block is open. */
  lemma StrayEnd(ls: seq<string>, st: State)
    requires Meaning(ls, st) && !st.inCert
    ensures FailsWith(ls + [END], UnexpectedEnd)
  {
    EndOfNone(ls);
    MeaningGood(ls, st);
    LastBad(ls);
  }

  /** One iteration keeps the meaning of the variables, or has met the first bad END line. */
  lemma StepMeaning(ls: seq<string>, st: State, line: string)
    requires Meaning(ls, st)
    ensures match Step(st, line) case Ok(next) => Meaning(ls + [line], next) case Err(e) => FailsWith(ls + [line], e)
  {
    if line == END {
      if st.inCert {
        EndMeaning(ls, st);
      } else {
        StrayEnd(ls, st);
      }
    } else {
      EndsSnoc(ls, line);
      KeepCerts(ls, line, st.certs);
      if line == BEGIN {
        assert OpenFrom(ls + [line], |ls|) && (ls + [line])[|ls| + 1..] == [];
      } else if st.inCert {
        BodyMeaning(ls, st, line);
      } else {
        NoneOpenSnoc(ls, line);
      }
    }
  }

  lemma BodyMeaning(ls: seq<string>, st: State, line: string)
    requires Meaning(ls, st) && st.inCert && !Boundary(line)
    ensures exists i :: OpenFrom(ls + [line], i) && st.b64 + line == Concat((ls + [line])[i + 1..])
  {
    var i :| OpenFrom(ls, i) && st.b64 == Concat(ls[i + 1..]);
    assert (ls + [line])[i + 1..] == ls[i + 1..] + [line];
    ConcatAppend(ls[i + 1..], [line]);
    assert Concat([line]) == line;
    assert OpenFrom(ls + [line], i);
  }

  lemma NoneOpenSnoc(ls: seq<string>, line: string)
    requires NoneOpen(ls) && line != BEGIN
    ensures NoneOpen(ls + [line])
  {
    var m := ls + [line];
    forall i | 0 <= i < |m| && m[i] == BEGIN ensures exists j :: i < j < |m| && m[j] == END {
      assert ls[i] == BEGIN;
      var j :| i < j < |ls| && ls[j] == END;
      assert m[j] == END;
    }
  }

  /** The loop stands, after `ls`, at variables with their meaning, or with the error of the first bad END line. */
  ghost predicate Explained(ls: seq<string>) {
    match Run(START, ls)
    case Ok(st) => Meaning(ls, st)
    case Err(e) => FailsWith(ls, e)
  }

  lemma ExplainedSnoc(ls: seq<string>, line: string)
    requires Explained(ls)
    ensures Explained(ls + [line])
  {
    RunSnoc(START, ls, line);
    if Run(START, ls).Ok? {
      StepMeaning(ls, Run(START, ls).value, line);
    } else {
      FailsWithSnoc(ls, line, Run(START, ls).error);
    }
  }

  /** Every prefix of every bundle is explained. */
  lemma {:induction false} AlwaysExplained(ls: seq<string>)
    ensures Explained(ls)
    decreases |ls|
  {
    if ls != [] {
      var n := |ls| - 1;
      AlwaysExplained(ls[..n]);
      ExplainedSnoc(ls[..n], ls[n]);
      assert ls == ls[..n] + [ls[n]];
    }
  }

  /** The loop succeeds exactly on the bundles of the grammar, with exactly the certificates it names. */
  lemma LoopIsGrammar(ls: seq<string>, certs: seq<bytes>)
    ensures ParseLines(START, ls) == Ok(certs) <==> Bundle(ls, certs)
  {
    AlwaysExplained(ls);
    if Run(START, ls).Ok? {
      var st := Run(START, ls).value;
      if Bundle(ls, certs) {
        forall k | 0 <= k < |certs| ensures st.certs[k] == certs[k] {
          ClosesOnce(ls, Ends(ls)[k], st.certs[k], certs[k]);
        }
        assert st.certs == certs;
      }
      if st.inCert {
        var i :| OpenFrom(ls, i) && st.b64 == Concat(ls[i + 1..]);
        assert !NoneOpen(ls);
      }
    }
  }

  /** Each error is returned exactly when the lines call for it: the first bad END line, or else an open block. */
  lemma FailsExactly(ls: seq<string>, e: PemError)
    ensures ParseLines(START, ls) == Err(e) <==>
      FailsWith(ls, e) || (e == Unterminated && NoBad(ls) && !NoneOpen(ls))
  {
    AlwaysExplained(ls);
    if Run(START, ls).Ok? {
      var st := Run(START, ls).value;
      MeaningGood(ls, st);
      if st.inCert {
        var i :| OpenFrom(ls, i) && st.b64 == Concat(ls[i + 1..]);
        assert !NoneOpen(ls);
      }
    } else {
      var j: nat :| FirstBad(ls, j) && Run(START, ls).error == ErrorAt(ls, j);
      assert !Good(ls, j);
      forall h | FirstBad(ls, h) ensures h == j {
        assert !Good(ls, h);
      }
    }
  }
}
