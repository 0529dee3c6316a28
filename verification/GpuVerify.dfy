/**
  The GPU token (JWS compact form, section 7.1 of RFC 7515) and the claims the client checks in it. Its
  signature is not checked by the program.
 */
module GpuVerify {
  import opened Basics
  import opened Crypto
  import opened Json
  import opened JsonGrammar
  import opened JsonStrings
  import opened Serde
  import Base64
  import Hex
  import Text

  datatype GpuClaims = GpuClaims(gpuModel: string, ccMode: string)

  datatype GpuError =
    | PartCount(parts: nat)
    | PayloadDecode
    | PayloadJson
    | NonceMismatch(expected: string, got: string)
    | CcModeNotOn(got: string)
    | MissingClaim(name: string)

  datatype Claims = Claims(nonce: Option<string>, ccMode: Option<string>, gpuModel: Option<string>)

  datatype Names = Names(nonce: string, ccMode: string, gpuModel: string) {
    function Fields(): set<string> {
      {nonce, ccMode, gpuModel}
    }

    predicate Distinct() {
      nonce != ccMode && nonce != gpuModel && ccMode != gpuModel
    }
  }

  const NAMES := Names("x-nvidia-attestation-nonce", "x-nvidia-cc-mode", "x-nvidia-gpu-model")

  function FromValues(nonce: Json, ccMode: Json, gpuModel: Json): Option<Claims> {
    var n :- AsOptional(nonce);
    var c :- AsOptional(ccMode);
    var g :- AsOptional(gpuModel);
    Some(Claims(n, c, g))
  }

  function Lookup(f: map<string, Json>, name: string): Json {
    if name in f then f[name] else Null
  }

  function FromJson(n: Names, v: Json): Option<Claims> {
    if v.Obj? then
      var f :- Fields(v.members, n.Fields(), map[]);
      FromValues(Lookup(f, n.nonce), Lookup(f, n.ccMode), Lookup(f, n.gpuModel))
    else if v.Arr? && |v.elems| == 3 then
      FromValues(v.elems[0], v.elems[1], v.elems[2])
    else None
  }

  function FromBytes(b: bytes): Option<Claims> {
    var v :- ParseDocument(b);
    FromJson(NAMES, v)
  }

  /** Lower case, as far as it can matter: no character outside ASCII has `o` or `n` for its lower case. */
  function Lower(s: string): (t: string)
    ensures |t| == |s|
  {
    seq(|s|, i requires 0 <= i < |s| => if 'A' <= s[i] <= 'Z' then (s[i] as int + 32) as char else s[i])
  }

  function CheckClaims(lib: Library, c: Claims, spki: bytes): Result<GpuClaims, GpuError> {
    var expected := Hex.Encode(lib.sha256(spki));
    var nonce :- OkOr(c.nonce, MissingClaim(NAMES.nonce));
    if nonce != expected then Err(NonceMismatch(expected, nonce))
    else
      var ccMode :- OkOr(c.ccMode, MissingClaim(NAMES.ccMode));
      if Lower(ccMode) != "on" then Err(CcModeNotOn(ccMode))
      else
        var gpuModel :- OkOr(c.gpuModel, MissingClaim(NAMES.gpuModel));
        Ok(GpuClaims(gpuModel, ccMode))
  }

  /** The payload of a token of three parts. */
  function TokenPayload(jwt: string): Result<bytes, GpuError> {
    var parts := Text.Split(jwt, '.');
    if |parts| != 3 then Err(PartCount(|parts|))
    else OkOr(Base64.Decode(Base64.UrlSafeNoPad, parts[1]), PayloadDecode)
  }

  function TokenClaims(jwt: string): Result<Claims, GpuError> {
    var payload :- TokenPayload(jwt);
    OkOr(FromBytes(payload), PayloadJson)
  }

  /** `verify_gpu_jwt`. */
  function VerifyGpuJwt(lib: Library, jwt: string, spki: bytes): Result<GpuClaims, GpuError> {
    var claims :- TokenClaims(jwt);
    CheckClaims(lib, claims, spki)
  }

  // ---------------------------------------------------------------- printing tokens

  function OptionalField(name: string, o: Option<string>): seq<Member> {
    match o
    case None => []
    case Some(s) => [Field(name, OfString(s))]
  }

  /** The claims that are present, as an object. */
  function ToJson(n: Names, c: Claims): Json {
    Obj(OptionalField(n.nonce, c.nonce)
        + (OptionalField(n.ccMode, c.ccMode) + (OptionalField(n.gpuModel, c.gpuModel) + [])))
  }

  function ToBytes(c: Claims): bytes {
    Print(ToJson(NAMES, c))
  }

  /** The compact form of a token. */
  function Compact(header: bytes, payload: bytes, third: string): string {
    Text.Join([Base64.Encode(Base64.UrlSafeNoPad, header), Base64.Encode(Base64.UrlSafeNoPad, payload), third], '.')
  }

  // ---------------------------------------------------------------- properties

  function With(f: map<string, Json>, name: string, o: Option<string>): map<string, Json> {
    match o
    case None => f
    case Some(s) => f[name := OfString(s)]
  }

  lemma OptionalFieldFound(name: string, o: Option<string>, ms: seq<Member>, names: set<string>, f: map<string, Json>)
    requires name in names && name !in f
    ensures Fields(OptionalField(name, o) + ms, names, f) == Fields(ms, names, With(f, name, o))
  {
    match o
    case None => assert [] + ms == ms;
    case Some(s) => FieldFound(name, OfString(s), ms, names, f);
  }

  lemma LookupWith(f: map<string, Json>, name: string, o: Option<string>)
    requires name !in f
    ensures AsOptional(Lookup(With(f, name, o), name)) == Some(o)
    ensures forall other :: other != name ==> Lookup(With(f, name, o), other) == Lookup(f, other)
  {
    if o.Some? {
      StringRoundTrip(o.value);
    }
  }

  lemma FromToJson(n: Names, c: Claims)
    requires n.Distinct()
    ensures FromJson(n, ToJson(n, c)) == Some(c)
  {
    var f0: map<string, Json> := map[];
    var f1 := With(f0, n.nonce, c.nonce);
    var f2 := With(f1, n.ccMode, c.ccMode);
    var f3 := With(f2, n.gpuModel, c.gpuModel);
    var last := OptionalField(n.gpuModel, c.gpuModel) + [];
    OptionalFieldFound(n.nonce, c.nonce, OptionalField(n.ccMode, c.ccMode) + last, n.Fields(), f0);
    OptionalFieldFound(n.ccMode, c.ccMode, last, n.Fields(), f1);
    OptionalFieldFound(n.gpuModel, c.gpuModel, [], n.Fields(), f2);
    LookupWith(f0, n.nonce, c.nonce);
    LookupWith(f1, n.ccMode, c.ccMode);
    LookupWith(f2, n.gpuModel, c.gpuModel);
  }

  lemma ToJsonPrintable(n: Names, c: Claims)
    ensures Printable(ToJson(n, c))
  {
    OptionalPrintable(n.nonce, c.nonce);
    OptionalPrintable(n.ccMode, c.ccMode);
    OptionalPrintable(n.gpuModel, c.gpuModel);
  }

  lemma OptionalPrintable(name: string, o: Option<string>)
    ensures forall m :: m in OptionalField(name, o) ==> PrintableMember(m)
  {
    UnquoteQuote(name);
    if o.Some? {
      StringRoundTrip(o.value);
    }
  }

  lemma NamesDistinct()
    ensures NAMES.Distinct()
  {
  }

  /** Claims survive serialisation, whichever of them are present. */
  lemma ClaimsRoundTrip(c: Claims)
    ensures FromBytes(ToBytes(c)) == Some(c)
  {
    ToJsonPrintable(NAMES, c);
    ParsePrint(ToJson(NAMES, c));
    NamesDistinct();
    FromToJson(NAMES, c);
  }

  // ---------------------------------------------------------------- payloads with any other claims, in any order

  /** The members have string keys, repeat none of the three claims, and say `c` of them. */
  ghost predicate ReadsAs(n: Names, ms: seq<Member>, c: Claims) {
    && WellNamed(ms, n.Fields())
    && Says(ms, n.nonce, c.nonce) && Says(ms, n.ccMode, c.ccMode) && Says(ms, n.gpuModel, c.gpuModel)
  }

  /** The names of the claims, as the source gives them. */
  ghost predicate Reads(ms: seq<Member>, c: Claims) {
    ReadsAs(Names("x-nvidia-attestation-nonce", "x-nvidia-cc-mode", "x-nvidia-gpu-model"), ms, c)
  }

  /** An object is read as claims exactly when its members say so, whatever else it holds and in whatever order. */
  lemma ReadsExactly(n: Names, ms: seq<Member>, c: Claims)
    ensures FromJson(n, Obj(ms)) == Some(c) <==> ReadsAs(n, ms, c)
  {
    FieldsExactly(ms, n.Fields());
    var r := Fields(ms, n.Fields(), map[]);
    if r.Some? {
      SaysExactly(ms, n.Fields(), r.value, n.nonce, c.nonce);
      SaysExactly(ms, n.Fields(), r.value, n.ccMode, c.ccMode);
      SaysExactly(ms, n.Fields(), r.value, n.gpuModel, c.gpuModel);
    }
  }

  /** Values in an array instead, one for each claim. */
  predicate ListReads(vs: seq<Json>, c: Claims) {
    |vs| == 3 && IsOptional(vs[0], c.nonce) && IsOptional(vs[1], c.ccMode) && IsOptional(vs[2], c.gpuModel)
  }

  /** Claims are read exactly from the texts of objects whose members say them, and of arrays that list them. */
  lemma FromBytesExactly(b: bytes, c: Claims)
    ensures FromBytes(b) == Some(c) <==>
      || (exists ms :: TextOf(b, Obj(ms)) && Reads(ms, c))
      || (exists vs :: TextOf(b, Arr(vs)) && ListReads(vs, c))
  {
    forall v ensures ParseDocument(b) == Some(v) <==> TextOf(b, v) { DocumentExactly(b, v); }
    if ParseDocument(b).Some? {
      var v := ParseDocument(b).value;
      match v
      case Obj(ms) => ReadsExactly(NAMES, ms, c);
      case Arr(vs) =>
        if |vs| == 3 {
          OptionalExactly(vs[0], c.nonce);
          OptionalExactly(vs[1], c.ccMode);
          OptionalExactly(vs[2], c.gpuModel);
        }
      case _ =>
    }
  }

  /** A compact token has three parts, and the second is the encoded payload. */
  lemma CompactParts(header: bytes, payload: bytes, third: string)
    requires '.' !in third
    ensures var parts := Text.Split(Compact(header, payload, third), '.');
      |parts| == 3 && parts[1] == Base64.Encode(Base64.UrlSafeNoPad, payload)
  {
    Base64.EncodeAlphabet(Base64.UrlSafeNoPad, header);
    Base64.EncodeAlphabet(Base64.UrlSafeNoPad, payload);
    var h, p := Base64.Encode(Base64.UrlSafeNoPad, header), Base64.Encode(Base64.UrlSafeNoPad, payload);
    Text.SplitJoin([h, p, third], '.');
  }

  /** The client reads the payload a compact token was made of, whatever bytes it is. */
  lemma CompactPayload(header: bytes, payload: bytes, third: string)
    requires '.' !in third
    ensures TokenClaims(Compact(header, payload, third)) == OkOr(FromBytes(payload), PayloadJson)
  {
    CompactParts(header, payload, third);
    Base64.DecodeEncode(Base64.UrlSafeNoPad, payload);
  }

  /**
    The client reads the claims `c` from a token exactly when the payload's members say `c`: other
    claims, numbers among them, the order and the space between tokens make no difference.
   */
  lemma CompactClaims(header: bytes, payload: bytes, ms: seq<Member>, third: string, c: Claims)
    requires '.' !in third && ParseDocument(payload) == Some(Obj(ms))
    ensures TokenClaims(Compact(header, payload, third)) == Ok(c) <==> Reads(ms, c)
  {
    CompactPayload(header, payload, third);
    ReadsExactly(NAMES, ms, c);
  }

  /** In particular for every payload that an issuer prints compactly. */
  lemma PrintedClaims(header: bytes, ms: seq<Member>, third: string, c: Claims)
    requires '.' !in third && Printable(Obj(ms))
    ensures TokenClaims(Compact(header, Print(Obj(ms)), third)) == Ok(c) <==> Reads(ms, c)
  {
    ParsePrint(Obj(ms));
    CompactClaims(header, Print(Obj(ms)), ms, third, c);
  }

  lemma LowerOn(s: string)
    ensures Lower(s) == "on" <==> s == "on" || s == "On" || s == "oN" || s == "ON"
  {
    if Lower(s) == "on" {
      assert Lower(s)[0] == 'o' && Lower(s)[1] == 'n';
      assert s == [s[0], s[1]];
    }
  }

  /** Claims pass exactly when all three are there, with the nonce of this key and "on" in any case. */
  lemma ClaimsPass(lib: Library, c: Claims, spki: bytes)
    ensures CheckClaims(lib, c, spki).Ok? <==>
      && c.nonce == Some(Hex.Encode(lib.sha256(spki)))
      && c.ccMode.Some? && c.ccMode.value in {"on", "On", "oN", "ON"} && c.gpuModel.Some?
    ensures CheckClaims(lib, c, spki).Ok? ==>
      CheckClaims(lib, c, spki).value == GpuClaims(c.gpuModel.value, c.ccMode.value)
  {
    if c.ccMode.Some? {
      LowerOn(c.ccMode.value);
    }
  }

  /**
    Which complaint the claims draw: a wrong nonce goes before the mode, the mode before the
    model, and each names its own.
   */
  lemma ClaimsFail(lib: Library, c: Claims, spki: bytes)
    ensures var expected, r := Hex.Encode(lib.sha256(spki)), CheckClaims(lib, c, spki);
      var bound, on := c.nonce == Some(expected), c.ccMode.Some? && c.ccMode.value in {"on", "On", "oN", "ON"};
      && (forall got :: r == Err(NonceMismatch(expected, got)) <==> c.nonce == Some(got) && got != expected)
      && (forall got :: r == Err(CcModeNotOn(got)) <==> bound && c.ccMode == Some(got) && !on)
      && (forall name :: r == Err(MissingClaim(name)) <==>
            || (name == "x-nvidia-attestation-nonce" && c.nonce.None?)
            || (name == "x-nvidia-cc-mode" && bound && c.ccMode.None?)
            || (name == "x-nvidia-gpu-model" && bound && on && c.gpuModel.None?))
      && (r.Ok? <==> bound && on && c.gpuModel.Some?)
  {
    if c.ccMode.Some? {
      LowerOn(c.ccMode.value);
    }
  }

  /** A token passes exactly when its claims do, and those are what the client reports. */
  lemma PassesExactly(lib: Library, jwt: string, spki: bytes, g: GpuClaims)
    ensures VerifyGpuJwt(lib, jwt, spki) == Ok(g) <==>
      && TokenClaims(jwt) == Ok(Claims(Some(Hex.Encode(lib.sha256(spki))), Some(g.ccMode), Some(g.gpuModel)))
      && g.ccMode in {"on", "On", "oN", "ON"}
  {
    if TokenClaims(jwt).Ok? {
      ClaimsPass(lib, TokenClaims(jwt).value, spki);
    }
  }

  /** A token with this key's nonce, "on" in any case, and some model. */
  ghost predicate Accepted(lib: Library, jwt: string, spki: bytes) {
    exists mode, model :: mode in {"on", "On", "oN", "ON"}
      && TokenClaims(jwt) == Ok(Claims(Some(Hex.Encode(lib.sha256(spki))), Some(mode), Some(model)))
  }

  lemma AcceptedExactly(lib: Library, jwt: string, spki: bytes)
    ensures VerifyGpuJwt(lib, jwt, spki).Ok? <==> Accepted(lib, jwt, spki)
  {
    forall g
      ensures VerifyGpuJwt(lib, jwt, spki) == Ok(g) <==>
        && TokenClaims(jwt) == Ok(Claims(Some(Hex.Encode(lib.sha256(spki))), Some(g.ccMode), Some(g.gpuModel)))
        && g.ccMode in {"on", "On", "oN", "ON"}
    {
      PassesExactly(lib, jwt, spki, g);
    }
    if Accepted(lib, jwt, spki) {
      var mode, model :| mode in {"on", "On", "oN", "ON"}
        && TokenClaims(jwt) == Ok(Claims(Some(Hex.Encode(lib.sha256(spki))), Some(mode), Some(model)));
      PassesExactly(lib, jwt, spki, GpuClaims(model, mode));
    }
  }

  lemma AcceptedClaims(lib: Library, jwt: string, spki: bytes) returns (c: Claims)
    requires Accepted(lib, jwt, spki)
    ensures TokenClaims(jwt) == Ok(c) && c.nonce == Some(Hex.Encode(lib.sha256(spki)))
  {
    c := TokenClaims(jwt).value;
  }

  /** The members make the client accept: this key's nonce, "on" in any case, and some model. */
  ghost predicate Passes(lib: Library, ms: seq<Member>, spki: bytes) {
    exists mode, model ::
      mode in {"on", "On", "oN", "ON"} && Reads(ms, Claims(Some(Hex.Encode(lib.sha256(spki))), Some(mode), Some(model)))
  }

  /** A compact token passes exactly when its payload's members do. */
  lemma CompactPasses(lib: Library, header: bytes, payload: bytes, ms: seq<Member>, third: string, spki: bytes)
    requires '.' !in third && ParseDocument(payload) == Some(Obj(ms))
    ensures VerifyGpuJwt(lib, Compact(header, payload, third), spki).Ok? <==> Passes(lib, ms, spki)
  {
    var jwt, hex := Compact(header, payload, third), Hex.Encode(lib.sha256(spki));
    if VerifyGpuJwt(lib, jwt, spki).Ok? {
      var g := VerifyGpuJwt(lib, jwt, spki).value;
      PassesExactly(lib, jwt, spki, g);
      CompactClaims(header, payload, ms, third, Claims(Some(hex), Some(g.ccMode), Some(g.gpuModel)));
    }
    if Passes(lib, ms, spki) {
      var mode, model :| mode in {"on", "On", "oN", "ON"} && Reads(ms, Claims(Some(hex), Some(mode), Some(model)));
      CompactClaims(header, payload, ms, third, Claims(Some(hex), Some(mode), Some(model)));
      PassesExactly(lib, jwt, spki, GpuClaims(model, mode));
    }
  }

  // ---------------------------------------------------------------- which tokens are read at all

  /** Three parts with dots between them. */
  predicate IsToken(jwt: string, h: string, p: string, third: string) {
    jwt == h + ['.'] + p + ['.'] + third && '.' !in h && '.' !in p && '.' !in third
  }

  lemma TokenParts(jwt: string, h: string, p: string, third: string)
    ensures Text.Split(jwt, '.') == [h, p, third] <==> IsToken(jwt, h, p, third)
  {
    Text.SplitExactly(jwt, '.', [h, p, third]);
    Text.ThreeParts(jwt, '.', h, p, third);
  }

  /** The parts of a token that has three. */
  lemma ItsParts(jwt: string) returns (h: string, p: string, third: string)
    requires |Text.Split(jwt, '.')| == 3
    ensures Text.Split(jwt, '.') == [h, p, third] && IsToken(jwt, h, p, third)
    ensures forall x, y, z :: IsToken(jwt, x, y, z) ==> y == p
  {
    var parts := Text.Split(jwt, '.');
    h, p, third := parts[0], parts[1], parts[2];
    assert parts == [h, p, third];
    TokenParts(jwt, h, p, third);
    forall x, y, z | IsToken(jwt, x, y, z) ensures y == p {
      TokenParts(jwt, x, y, z);
      assert [x, y, z][1] == [h, p, third][1];
    }
  }

  lemma NotThree(jwt: string)
    requires |Text.Split(jwt, '.')| != 3
    ensures forall h, p, third :: !IsToken(jwt, h, p, third)
  {
    forall h, p, third | IsToken(jwt, h, p, third) ensures false { TokenParts(jwt, h, p, third); }
  }

  /** The token carries the payload: three dot-free parts, the second of them its encoding. */
  ghost predicate Carries(jwt: string, payload: bytes) {
    exists h, third :: IsToken(jwt, h, Base64.Encode(Base64.UrlSafeNoPad, payload), third)
  }

  /** The payload is read exactly from the tokens that carry it. */
  lemma PayloadExactly(jwt: string, payload: bytes)
    ensures TokenPayload(jwt) == Ok(payload) <==> Carries(jwt, payload)
  {
    if |Text.Split(jwt, '.')| == 3 {
      var h, p, third := ItsParts(jwt);
      SecondPart(p, payload);
    } else {
      NotThree(jwt);
    }
  }

  lemma SecondPart(p: string, b: bytes)
    ensures Base64.Decode(Base64.UrlSafeNoPad, p) == Some(b) <==> p == Base64.Encode(Base64.UrlSafeNoPad, b)
  {
    Base64.DecodeEncode(Base64.UrlSafeNoPad, b);
    if Base64.Decode(Base64.UrlSafeNoPad, p) == Some(b) {
      Base64.EncodeDecode(Base64.UrlSafeNoPad, p);
    }
  }

  /** Otherwise the number of parts is refused when it is not three, and the payload when it encodes nothing. */
  lemma PayloadFails(jwt: string, e: GpuError)
    ensures TokenPayload(jwt) == Err(e) <==>
      || (e.PartCount? && e.parts != 3 && exists parts :: |parts| == e.parts && Text.IsSplit(jwt, '.', parts))
      || (e == PayloadDecode && (exists h, p, third :: IsToken(jwt, h, p, third)) && forall b :: !Carries(jwt, b))
  {
    var parts := Text.Split(jwt, '.');
    Text.SplitExactly(jwt, '.', parts);
    forall ps | Text.IsSplit(jwt, '.', ps) ensures ps == parts { Text.SplitExactly(jwt, '.', ps); }
    forall b ensures TokenPayload(jwt) == Ok(b) <==> Carries(jwt, b) { PayloadExactly(jwt, b); }
    if |parts| == 3 {
      var h, p, third := ItsParts(jwt);
    } else {
      NotThree(jwt);
    }
  }

  /** Claims are read exactly from tokens that carry a text of them. */
  lemma TokenExactly(jwt: string, c: Claims)
    ensures TokenClaims(jwt) == Ok(c) <==> exists payload :: Carries(jwt, payload) && FromBytes(payload) == Some(c)
    ensures TokenClaims(jwt) == Err(PayloadJson) <==>
      exists payload :: Carries(jwt, payload) && FromBytes(payload) == None
    ensures forall e :: e != PayloadJson ==> (TokenClaims(jwt) == Err(e) <==> TokenPayload(jwt) == Err(e))
  {
    forall b ensures TokenPayload(jwt) == Ok(b) <==> Carries(jwt, b) { PayloadExactly(jwt, b); }
  }

  /** A token fails for what keeps its claims from being read, or else for what its claims lack. */
  lemma FailsExactly(lib: Library, jwt: string, spki: bytes, e: GpuError)
    ensures VerifyGpuJwt(lib, jwt, spki) == Err(e) <==>
      || (e.PartCount? && TokenPayload(jwt) == Err(e)) || (e == PayloadDecode && TokenPayload(jwt) == Err(e))
      || (e == PayloadJson && exists payload :: Carries(jwt, payload) && FromBytes(payload) == None)
      || (exists c :: TokenClaims(jwt) == Ok(c) && CheckClaims(lib, c, spki) == Err(e))
  {
    if TokenClaims(jwt).Ok? {
      TokenExactly(jwt, TokenClaims(jwt).value);
      ClaimsFail(lib, TokenClaims(jwt).value, spki);
    } else {
      TokenExactly(jwt, Claims(None, None, None));
    }
  }
}
