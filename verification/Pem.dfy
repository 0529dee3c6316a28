/**
  The PEM bundle parser (labels as in RFC 7468, sections 2, 3 and 5): a loop over three variables, and
  the function `Run` over their values that it computes.
 */
module Pem {
  import opened Basics
  import opened Text
  import Base64

  const BEGIN := "-----BEGIN CERTIFICATE-----"
  const END := "-----END CERTIFICATE-----"

  datatype PemError = UnexpectedEnd | BadBase64 | Unterminated

  datatype State = State(certs: seq<bytes>, inCert: bool, b64: string)

  const START := State([], false, "")

  /** One iteration, on a trimmed line. Note that END leaves `b64` as it is. */
  function Step(st: State, line: string): Result<State, PemError> {
    if line == BEGIN then Ok(st.(inCert := true, b64 := ""))
    else if line == END then
      if !st.inCert then Err(UnexpectedEnd)
      else
        match Base64.Decode(Base64.Standard, st.b64)
        case None => Err(BadBase64)
        case Some(der) => Ok(st.(inCert := false, certs := st.certs + [der]))
    else if st.inCert && line != "" then Ok(st.(b64 := st.b64 + line))
    else Ok(st)
  }

  function Run(st: State, ls: seq<string>): Result<State, PemError>
    decreases |ls|
  {
    if ls == [] then Ok(st)
    else
      var next :- Step(st, ls[0]);
      Run(next, ls[1..])
  }

  function Finish(st: State): Result<seq<bytes>, PemError> {
    if st.inCert then Err(Unterminated) else Ok(st.certs)
  }

  function ParseLines(st: State, ls: seq<string>): Result<seq<bytes>, PemError> {
    var last :- Run(st, ls);
    Finish(last)
  }

  function TrimAll(ls: seq<string>): (ts: seq<string>)
    ensures |ts| == |ls| && forall i :: 0 <= i < |ls| ==> ts[i] == Trim(ls[i])
  {
    seq(|ls|, i requires 0 <= i < |ls| => Trim(ls[i]))
  }

  function ParseBundle(pem: string): Result<seq<bytes>, PemError> {
    ParseLines(START, TrimAll(Lines(pem)))
  }

  lemma {:induction false} RunAppend(st: State, a: seq<string>, b: seq<string>)
    ensures Run(st, a + b) == match Run(st, a) case Ok(mid) => Run(mid, b) case Err(e) => Err(e)
    decreases |a|
  {
    if a == [] {
      assert a + b == b;
    } else {
      assert (a + b)[1..] == a[1..] + b;
      if Step(st, a[0]).Ok? {
        RunAppend(Step(st, a[0]).value, a[1..], b);
      }
    }
  }

  lemma RunSnoc(st: State, ls: seq<string>, line: string)
    ensures Run(st, ls + [line]) == match Run(st, ls) case Ok(mid) => Step(mid, line) case Err(e) => Err(e)
  {
    RunAppend(st, ls, [line]);
    if Run(st, ls).Ok? && Step(Run(st, ls).value, line).Ok? {
      assert [line][1..] == [];
    }
  }

  /** `parse_pem_bundle`: the loop computes the specification, errors included. */
  method ParsePemBundle(pem: string) returns (r: Result<seq<bytes>, PemError>)
    ensures r == ParseBundle(pem)
  {
    var certs: seq<bytes> := [];
    var inCert := false;
    var b64 := "";
    var lines := Lines(pem);
    ghost var ts := TrimAll(lines);
    for i := 0 to |lines|
      invariant Run(START, ts[..i]) == Ok(State(certs, inCert, b64))
    {
      var trimmed := Trim(lines[i]);
      RunSnoc(START, ts[..i], trimmed);
      assert ts[..i + 1] == ts[..i] + [trimmed];
      RunAppend(START, ts[..i + 1], ts[i + 1..]);
      assert ts == ts[..i + 1] + ts[i + 1..];
      if trimmed == BEGIN {
        inCert := true;
        b64 := "";
      } else if trimmed == END {
        if !inCert {
          return Err(UnexpectedEnd);
        }
        inCert := false;
        var der := Base64.Decode(Base64.Standard, b64);
        if der.None? {
          return Err(BadBase64);
        }
        certs := certs + [der.value];
      } else if inCert && trimmed != "" {
        b64 := b64 + trimmed;
      }
    }
    assert ts[..|lines|] == ts;
    if inCert {
      return Err(Unterminated);
    }
    return Ok(certs);
  }
}
