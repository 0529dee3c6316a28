/** The payload of the certificate extension that carries an attestation. */
module AttestExt {
  import opened Basics
  import opened Json
  import opened JsonGrammar
  import opened JsonStrings
  import opened Serde
  import opened Reports
  import Base64

  /** 1.3.6.1.4.1.99999.1.1, which the client writes as text and the server as numbers. */
  const ATTEST_OID_ARCS: seq<nat> := [1, 3, 6, 1, 4, 1, 99999, 1, 1]

  datatype Mode = Mock | AmdSevSnp

  datatype AttestationExtension = AttestationExtension(
    reportB64: string,
    chainB64: seq<string>,
    mode: Mode,
    gpuJwt: Option<string>
  )

  datatype ReportError = BadBase64 | WrongLength

  function EncodeB64(b: bytes): string {
    Base64.Encode(Base64.Standard, b)
  }

  function DecodeB64(s: string): Option<bytes> {
    Base64.Decode(Base64.Standard, s)
  }

  function NewMock(report: ReportBytes): AttestationExtension {
    AttestationExtension(EncodeB64(report), [], Mock, None)
  }

  function NewAmd(report: ReportBytes, chain: seq<bytes>): AttestationExtension {
    var chainB64 := seq(|chain|, i requires 0 <= i < |chain| => EncodeB64(chain[i]));
    AttestationExtension(EncodeB64(report), chainB64, AmdSevSnp, None)
  }

  function WithGpuJwt(e: AttestationExtension, jwt: string): AttestationExtension {
    e.(gpuJwt := Some(jwt))
  }

  // ---------------------------------------------------------------- JSON

  /** The names serde derives from the source's fields and variants. */
  datatype Names = Names(report: string, chain: string, mode: string, jwt: string, mock: string, amd: string) {
    function Fields(): set<string> {
      {report, chain, mode, jwt}
    }
  }

  const NAMES := Names("report_b64", "vcek_chain_b64", "mode", "gpu_jwt", "Mock", "AmdSevSnp")

  function ModeName(n: Names, m: Mode): string {
    if m.Mock? then n.mock else n.amd
  }

  function ModeNamed(n: Names, name: string): Option<Mode> {
    if name == n.mock then Some(Mock) else if name == n.amd then Some(AmdSevSnp) else None
  }

  /** A unit variant is its name, or an object with that one key and `null`. */
  function AsMode(n: Names, v: Json): Option<Mode> {
    if v.Obj? then
      if |v.members| == 1 && v.members[0].value.Null? then
        var name :- Unquote(v.members[0].key);
        ModeNamed(n, name)
      else None
    else
      var name :- AsString(v);
      ModeNamed(n, name)
  }

  function ToJson(n: Names, e: AttestationExtension): Json {
    Obj([
      Field(n.report, OfString(e.reportB64)),
      Field(n.chain, OfStrings(e.chainB64)),
      Field(n.mode, OfString(ModeName(n, e.mode))),
      Field(n.jwt, OfOptional(e.gpuJwt))
    ])
  }

  function FromValues(n: Names, report: Json, chain: Json, mode: Json, jwt: Json): Option<AttestationExtension> {
    var r :- AsString(report);
    var c :- AsStrings(chain);
    var m :- AsMode(n, mode);
    var j :- AsOptional(jwt);
    Some(AttestationExtension(r, c, m, j))
  }

  /** An object by field names, where only the token may be missing, or an array of the four values. */
  function FromJson(n: Names, v: Json): Option<AttestationExtension> {
    if v.Obj? then
      var f :- Fields(v.members, n.Fields(), map[]);
      if n.report in f && n.chain in f && n.mode in f then
        FromValues(n, f[n.report], f[n.chain], f[n.mode], if n.jwt in f then f[n.jwt] else Null)
      else None
    else if v.Arr? && |v.elems| == 4 then
      FromValues(n, v.elems[0], v.elems[1], v.elems[2], v.elems[3])
    else None
  }

  function ToBytes(e: AttestationExtension): bytes {
    Print(ToJson(NAMES, e))
  }

  function FromBytes(b: bytes): Option<AttestationExtension> {
    var v :- ParseDocument(b);
    FromJson(NAMES, v)
  }

  function ReportOf(e: AttestationExtension): Result<ReportBytes, ReportError> {
    match DecodeB64(e.reportB64)
    case None => Err(BadBase64)
    case Some(raw) => if |raw| == REPORT_SIZE then Ok(raw) else Err(WrongLength)
  }

  function VcekChainDer(e: AttestationExtension): Option<seq<bytes>> {
    Collect(DecodeB64, e.chainB64)
  }

  // ---------------------------------------------------------------- properties

  lemma FieldPrintable(name: string, v: Json)
    requires Printable(v)
    ensures PrintableMember(Field(name, v))
  {
    UnquoteQuote(name);
  }

  lemma ToJsonPrintable(n: Names, e: AttestationExtension)
    ensures Printable(ToJson(n, e))
  {
    StringRoundTrip(e.reportB64);
    StringsRoundTrip(e.chainB64);
    StringRoundTrip(ModeName(n, e.mode));
    OptionalRoundTrip(e.gpuJwt);
    FieldPrintable(n.report, OfString(e.reportB64));
    FieldPrintable(n.chain, OfStrings(e.chainB64));
    FieldPrintable(n.mode, OfString(ModeName(n, e.mode)));
    FieldPrintable(n.jwt, OfOptional(e.gpuJwt));
  }

  predicate Distinct(n: Names) {
    && n.report != n.chain && n.report != n.mode && n.report != n.jwt
    && n.chain != n.mode && n.chain != n.jwt && n.mode != n.jwt && n.mock != n.amd
  }

  lemma TwoFields(x: string, v: Json, y: string, w: Json, ms: seq<Member>, names: set<string>, found: map<string, Json>)
    requires x in names && y in names && x !in found && y !in found && x != y
    ensures Fields([Field(x, v), Field(y, w)] + ms, names, found) == Fields(ms, names, found[x := v][y := w])
  {
    assert [Field(x, v), Field(y, w)] + ms == [Field(x, v)] + ([Field(y, w)] + ms);
    FieldFound(x, v, [Field(y, w)] + ms, names, found);
    FieldFound(y, w, ms, names, found[x := v]);
  }

  lemma FieldsOfToJson(n: Names, a: Json, b: Json, c: Json, d: Json)
    requires Distinct(n)
    ensures Fields([Field(n.report, a), Field(n.chain, b), Field(n.mode, c), Field(n.jwt, d)], n.Fields(), map[])
      == Some(map[n.report := a, n.chain := b, n.mode := c, n.jwt := d])
  {
    var fa, fb, fc, fd := Field(n.report, a), Field(n.chain, b), Field(n.mode, c), Field(n.jwt, d);
    var found: map<string, Json> := map[n.report := a, n.chain := b];
    TwoFields(n.report, a, n.chain, b, [fc, fd], n.Fields(), map[]);
    TwoFields(n.mode, c, n.jwt, d, [], n.Fields(), found);
    assert [fa, fb, fc, fd] == [fa, fb] + [fc, fd];
    assert [fc, fd] == [fc, fd] + [];
  }

  lemma FromFields(n: Names, ms: seq<Member>, a: Json, b: Json, c: Json, d: Json)
    requires Distinct(n)
    requires Fields(ms, n.Fields(), map[]) == Some(map[n.report := a, n.chain := b, n.mode := c, n.jwt := d])
    ensures FromJson(n, Obj(ms)) == FromValues(n, a, b, c, d)
  {
  }

  lemma ModeRoundTrip(n: Names, m: Mode)
    requires Distinct(n)
    ensures AsMode(n, OfString(ModeName(n, m))) == Some(m)
  {
    StringRoundTrip(ModeName(n, m));
  }

  lemma FromToJson(n: Names, e: AttestationExtension)
    requires Distinct(n)
    ensures FromJson(n, ToJson(n, e)) == Some(e)
  {
    var a, b, c, d := OfString(e.reportB64), OfStrings(e.chainB64), OfString(ModeName(n, e.mode)), OfOptional(e.gpuJwt);
    FieldsOfToJson(n, a, b, c, d);
    FromFields(n, ToJson(n, e).members, a, b, c, d);
    ValuesRoundTrip(n, e);
  }

  lemma ValuesRoundTrip(n: Names, e: AttestationExtension)
    requires Distinct(n)
    ensures Some(e) ==
      FromValues(n, OfString(e.reportB64), OfStrings(e.chainB64), OfString(ModeName(n, e.mode)), OfOptional(e.gpuJwt))
  {
    StringRoundTrip(e.reportB64);
    StringsRoundTrip(e.chainB64);
    ModeRoundTrip(n, e.mode);
    OptionalRoundTrip(e.gpuJwt);
  }

  lemma NamesDistinct()
    ensures Distinct(NAMES)
  {
  }

  /** Every extension survives serialisation: any strings, any chain length, either mode, with or without a token. */
  lemma RoundTrip(e: AttestationExtension)
    ensures FromBytes(ToBytes(e)) == Some(e)
  {
    ToJsonPrintable(NAMES, e);
    ParsePrint(ToJson(NAMES, e));
    NamesDistinct();
    FromToJson(NAMES, e);
  }

  // ---------------------------------------------------------------- which texts are read as an extension

  /** The value names the mode: as a string, or as an object with that one key and `null`. */
  predicate IsMode(n: Names, v: Json, m: Mode) {
    || IsString(v, ModeName(n, m))
    || (v.Obj? && |v.members| == 1 && Named(v.members, 0, ModeName(n, m)) && v.members[0].value.Null?)
  }

  ghost predicate HasString(ms: seq<Member>, name: string, t: string) {
    exists i :: Named(ms, i, name) && IsString(ms[i].value, t)
  }

  ghost predicate HasStrings(ms: seq<Member>, name: string, ts: seq<string>) {
    exists i :: Named(ms, i, name) && IsStrings(ms[i].value, ts)
  }

  ghost predicate HasMode(n: Names, ms: seq<Member>, m: Mode) {
    exists i :: Named(ms, i, n.mode) && IsMode(n, ms[i].value, m)
  }

  /**
    The members have string keys, repeat none of the four fields, and say `e` of them; only the
    token may be missing.
   */
  ghost predicate ReadsAs(n: Names, ms: seq<Member>, e: AttestationExtension) {
    && WellNamed(ms, n.Fields())
    && HasString(ms, n.report, e.reportB64) && HasStrings(ms, n.chain, e.chainB64)
    && HasMode(n, ms, e.mode) && Says(ms, n.jwt, e.gpuJwt)
  }

  predicate ListReads(n: Names, vs: seq<Json>, e: AttestationExtension) {
    && |vs| == 4 && IsString(vs[0], e.reportB64) && IsStrings(vs[1], e.chainB64)
    && IsMode(n, vs[2], e.mode) && IsOptional(vs[3], e.gpuJwt)
  }

  lemma ModeExactly(n: Names, v: Json, m: Mode)
    requires Distinct(n)
    ensures AsMode(n, v) == Some(m) <==> IsMode(n, v, m)
  {
  }

  lemma ValuesExactly(n: Names, report: Json, chain: Json, mode: Json, jwt: Json, e: AttestationExtension)
    requires Distinct(n)
    ensures FromValues(n, report, chain, mode, jwt) == Some(e) <==>
      && IsString(report, e.reportB64) && IsStrings(chain, e.chainB64)
      && IsMode(n, mode, e.mode) && IsOptional(jwt, e.gpuJwt)
  {
    StringsExactly(chain, e.chainB64);
    ModeExactly(n, mode, e.mode);
    OptionalExactly(jwt, e.gpuJwt);
  }

  lemma HasExactly(n: Names, ms: seq<Member>, f: map<string, Json>, e: AttestationExtension)
    requires WellNamed(ms, n.Fields()) && Describes(f, ms, n.Fields())
    ensures n.report in f && IsString(f[n.report], e.reportB64) <==> HasString(ms, n.report, e.reportB64)
    ensures n.chain in f && IsStrings(f[n.chain], e.chainB64) <==> HasStrings(ms, n.chain, e.chainB64)
    ensures n.mode in f && IsMode(n, f[n.mode], e.mode) <==> HasMode(n, ms, e.mode)
  {
  }

  lemma ReadsExactly(n: Names, ms: seq<Member>, e: AttestationExtension)
    requires Distinct(n)
    ensures FromJson(n, Obj(ms)) == Some(e) <==> ReadsAs(n, ms, e)
  {
    var names, r := n.Fields(), Fields(ms, n.Fields(), map[]);
    FieldsExactly(ms, names);
    if r.Some? {
      var f := r.value;
      HasExactly(n, ms, f, e);
      SaysExactly(ms, names, f, n.jwt, e.gpuJwt);
      var jwt := if n.jwt in f then f[n.jwt] else Null;
      OptionalExactly(jwt, e.gpuJwt);
      if n.report in f && n.chain in f && n.mode in f {
        ValuesExactly(n, f[n.report], f[n.chain], f[n.mode], jwt, e);
      }
    }
  }

  /**
    Extensions are read exactly from the texts of objects whose members say them, by these names, and of
    arrays that list them.
   */
  lemma FromBytesExactly(b: bytes, e: AttestationExtension)
    ensures var n := Names("report_b64", "vcek_chain_b64", "mode", "gpu_jwt", "Mock", "AmdSevSnp");
      FromBytes(b) == Some(e) <==>
      || (exists ms :: TextOf(b, Obj(ms)) && ReadsAs(n, ms, e))
      || (exists vs :: TextOf(b, Arr(vs)) && ListReads(n, vs, e))
  {
    NamesDistinct();
    forall v ensures ParseDocument(b) == Some(v) <==> TextOf(b, v) { DocumentExactly(b, v); }
    if ParseDocument(b).Some? {
      var v := ParseDocument(b).value;
      if v.Obj? {
        ReadsExactly(NAMES, v.members, e);
      } else if v.Arr? && |v.elems| == 4 {
        ValuesExactly(NAMES, v.elems[0], v.elems[1], v.elems[2], v.elems[3], e);
      }
    }
  }

  // ---------------------------------------------------------------- report and chain

  lemma DecodesExactly(s: string, b: bytes)
    ensures DecodeB64(s) == Some(b) <==> s == EncodeB64(b)
    ensures |EncodeB64(b)| == (|b| + 2) / 3 * 4
  {
    Base64.DecodeEncode(Base64.Standard, b);
    Base64.EncodeLength(Base64.Standard, b);
    if DecodeB64(s) == Some(b) {
      Base64.EncodeDecode(Base64.Standard, s);
    }
  }

  /** The report decodes exactly from the one encoding of its 1184 bytes. */
  lemma ReportExactly(e: AttestationExtension, r: ReportBytes)
    ensures ReportOf(e) == Ok(r) <==> e.reportB64 == EncodeB64(r)
  {
    DecodesExactly(e.reportB64, r);
  }

  lemma TextLength(s: string, b: bytes)
    requires DecodeB64(s) == Some(b) && |b| == REPORT_SIZE
    ensures |s| == 1580
  {
    DecodesExactly(s, b);
    assert (|b| + 2) / 3 == 395;
  }

  /** Only texts of 1580 characters decode to a report. */
  lemma ReportTextLength(e: AttestationExtension)
    requires ReportOf(e).Ok?
    ensures |e.reportB64| == 1580
  {
    TextLength(e.reportB64, ReportOf(e).value);
  }

  /** A chain put into an extension comes out unchanged. */
  lemma ChainRoundTrip(report: ReportBytes, chain: seq<bytes>)
    ensures VcekChainDer(NewAmd(report, chain)) == Some(chain)
  {
    var e := NewAmd(report, chain);
    forall i | 0 <= i < |chain| ensures DecodeB64(e.chainB64[i]) == Some(chain[i]) {
      Base64.DecodeEncode(Base64.Standard, chain[i]);
    }
    assert VcekChainDer(e).value == chain;
  }

  /** Entries behind the third change no decoded certificate, but each must decode. */
  lemma ChainTail(e: AttestationExtension, extra: seq<string>)
    ensures var longer := e.(chainB64 := e.chainB64 + extra);
      match VcekChainDer(e)
      case None => VcekChainDer(longer) == None
      case Some(ders) =>
        if forall s :: s in extra ==> DecodeB64(s).Some?
        then
          && VcekChainDer(longer).Some? && |VcekChainDer(longer).value| == |ders| + |extra|
          && ders <= VcekChainDer(longer).value
        else VcekChainDer(longer) == None
  {
    var longer := e.(chainB64 := e.chainB64 + extra);
    assert forall s :: s in longer.chainB64 <==> s in e.chainB64 || s in extra;
    if VcekChainDer(longer).Some? {
      assert forall i :: 0 <= i < |e.chainB64| ==> longer.chainB64[i] == e.chainB64[i];
    }
  }

  /** The entries are the encodings of the certificates, in order. */
  predicate ChainIs(e: AttestationExtension, chain: seq<bytes>) {
    |e.chainB64| == |chain| && forall i :: 0 <= i < |chain| ==> e.chainB64[i] == EncodeB64(chain[i])
  }

  /** A chain decodes exactly from the encodings of its certificates. */
  lemma ChainExactly(e: AttestationExtension, chain: seq<bytes>)
    ensures VcekChainDer(e) == Some(chain) <==> ChainIs(e, chain)
  {
    if |e.chainB64| == |chain| {
      forall i | 0 <= i < |chain|
        ensures DecodeB64(e.chainB64[i]) == Some(chain[i]) <==> e.chainB64[i] == EncodeB64(chain[i])
      {
        DecodesExactly(e.chainB64[i], chain[i]);
      }
      if ChainIs(e, chain) {
        assert forall s :: s in e.chainB64 ==> DecodeB64(s).Some?;
        assert VcekChainDer(e).value == chain;
      }
    }
  }

  /** It fails exactly on an entry that encodes nothing. */
  lemma ChainFails(e: AttestationExtension)
    ensures VcekChainDer(e).None? <==> exists s :: s in e.chainB64 && forall b :: s != EncodeB64(b)
  {
    forall s ensures DecodeB64(s).None? <==> forall b :: s != EncodeB64(b) { EncodesNothing(s); }
  }

  lemma EncodesNothing(s: string)
    ensures DecodeB64(s).None? <==> forall b :: s != EncodeB64(b)
  {
    if DecodeB64(s).Some? {
      DecodesExactly(s, DecodeB64(s).value);
    } else {
      forall b ensures s != EncodeB64(b) { DecodesExactly(s, b); }
    }
  }

  /** Why a report does not decode: no base64 at all, or of another length. */
  lemma ReportFails(e: AttestationExtension)
    ensures ReportOf(e) == Err(BadBase64) <==> forall b :: e.reportB64 != EncodeB64(b)
    ensures ReportOf(e) == Err(WrongLength) <==> exists b :: e.reportB64 == EncodeB64(b) && |b| != 1184
  {
    forall b ensures DecodeB64(e.reportB64) == Some(b) <==> e.reportB64 == EncodeB64(b) {
      DecodesExactly(e.reportB64, b);
    }
  }
}
