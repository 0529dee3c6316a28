/** The client's decision about a server certificate. */
module Verifier {
  import opened Basics
  import opened Crypto
  import opened Reports
  import AttestExt
  import GpuVerify
  import Hex
  import Verify

  datatype VerifierMode = Mock | AmdSevSnp

  datatype AttestationVerifier = AttestationVerifier(
    expected: MeasurementBytes,
    mode: VerifierMode,
    verifyGpuCc: bool
  )

  datatype TlsError =
    | CertParse
    | SpkiEncode
    | NoExtension
    | ExtensionParse
    | ReportDecode(r: AttestExt.ReportError)
    | ChainDecode
    | ModeMismatch(client: VerifierMode, server: AttestExt.Mode)
    | AttestationFailed(v: Verify.VerifyError)
    | GpuFailed(g: GpuVerify.GpuError)
    | NoGpuJwt

  /** The first extension with the Sifir identifier. */
  function FindSifir(exts: seq<Extension>): Option<Extension> {
    if exts == [] then None
    else if exts[0].oid == AttestExt.ATTEST_OID_ARCS then Some(exts[0])
    else FindSifir(exts[1..])
  }

  function SifirExtension(tbs: Tbs): Option<Extension> {
    match tbs.extensions
    case None => None
    case Some(exts) => FindSifir(exts)
  }

  function ExtractExtension(tbs: Tbs): Result<AttestExt.AttestationExtension, TlsError> {
    var ext :- OkOr(SifirExtension(tbs), NoExtension);
    OkOr(AttestExt.FromBytes(ext.value), ExtensionParse)
  }

  function KeyFor(mode: VerifierMode, e: AttestExt.AttestationExtension): Result<Verify.AttestationKey, TlsError> {
    match (mode, e.mode)
    case (Mock, Mock) => Ok(Verify.Mock)
    case (AmdSevSnp, AmdSevSnp) =>
      var chain :- OkOr(AttestExt.VcekChainDer(e), ChainDecode);
      Ok(Verify.Amd(chain))
    case _ => Err(ModeMismatch(mode, e.mode))
  }

  function GpuVerdict(lib: Library, v: AttestationVerifier, e: AttestExt.AttestationExtension,
                      spki: bytes): Result<(), TlsError>
  {
    if !v.verifyGpuCc then Ok(())
    else
      match e.gpuJwt
      case None => Err(NoGpuJwt)
      case Some(jwt) =>
        match GpuVerify.VerifyGpuJwt(lib, jwt, spki)
        case Ok(_) => Ok(())
        case Err(g) => Err(GpuFailed(g))
  }

  /** The checks behind the parsing of the certificate and its extension. */
  function VerifyExtension(lib: Library, v: AttestationVerifier, spki: bytes, e: AttestExt.AttestationExtension)
    : Result<(), TlsError>
  {
    match AttestExt.ReportOf(e)
    case Err(r) => Err(ReportDecode(r))
    case Ok(report) =>
      var key :- KeyFor(v.mode, e);
      match Verify.Verdict(lib, report, key, v.expected, spki)
      case Err(x) => Err(AttestationFailed(x))
      case Ok(_) => GpuVerdict(lib, v, e, spki)
  }

  /** What the TLS stack passes besides the certificate. */
  datatype Context = Context(intermediates: seq<bytes>, serverName: string, ocsp: bytes, now: int)

  /** `verify_server_cert`. */
  function VerifyServerCert(lib: Library, v: AttestationVerifier, endEntity: bytes,
                            context: Context): Result<(), TlsError>
  {
    var cert :- OkOr(lib.certificate(endEntity), CertParse);
    var spki :- OkOr(lib.spkiDer(cert.tbs.spki), SpkiEncode);
    var e :- ExtractExtension(cert.tbs);
    VerifyExtension(lib, v, spki, e)
  }

  // ---------------------------------------------------------------- which extension is looked at

  /** No extension has the Sifir identifier, 1.3.6.1.4.1.99999.1.1. */
  predicate NoSifir(exts: seq<Extension>) {
    forall i :: 0 <= i < |exts| ==> exts[i].oid != [1, 3, 6, 1, 4, 1, 99999, 1, 1]
  }

  /** The extension is the first with that identifier. */
  ghost predicate First(exts: seq<Extension>, x: Extension) {
    exists pre, post :: exts == pre + [x] + post && NoSifir(pre) && x.oid == [1, 3, 6, 1, 4, 1, 99999, 1, 1]
  }

  lemma {:induction false} FindFirst(pre: seq<Extension>, x: Extension, post: seq<Extension>)
    requires NoSifir(pre) && x.oid == [1, 3, 6, 1, 4, 1, 99999, 1, 1]
    ensures FindSifir(pre + [x] + post) == Some(x)
    decreases |pre|
  {
    if pre == [] {
      assert pre + [x] + post == [x] + post;
    } else {
      assert (pre + [x] + post)[1..] == pre[1..] + [x] + post;
      FindFirst(pre[1..], x, post);
    }
  }

  /** The search finds the first extension with the identifier, and nothing exactly when there is none. */
  lemma {:induction false} FindExactly(exts: seq<Extension>)
    ensures FindSifir(exts).None? <==> NoSifir(exts)
    ensures forall x :: FindSifir(exts) == Some(x) <==> First(exts, x)
  {
    if !NoSifir(exts) {
      var i := FirstIndex(exts);
      assert exts == exts[..i] + [exts[i]] + exts[i + 1..];
      FindFirst(exts[..i], exts[i], exts[i + 1..]);
    } else {
      NoneFound(exts);
    }
    forall x | First(exts, x) ensures FindSifir(exts) == Some(x) {
      var pre, post :| exts == pre + [x] + post && NoSifir(pre) && x.oid == [1, 3, 6, 1, 4, 1, 99999, 1, 1];
      FindFirst(pre, x, post);
    }
  }

  lemma {:induction false} NoneFound(exts: seq<Extension>)
    requires NoSifir(exts)
    ensures FindSifir(exts).None?
  {
    if exts != [] {
      NoneFound(exts[1..]);
    }
  }

  lemma {:induction false} FirstIndex(exts: seq<Extension>) returns (i: nat)
    requires !NoSifir(exts)
    ensures i < |exts| && exts[i].oid == [1, 3, 6, 1, 4, 1, 99999, 1, 1] && NoSifir(exts[..i])
  {
    if exts[0].oid == [1, 3, 6, 1, 4, 1, 99999, 1, 1] {
      i := 0;
    } else {
      assert NoSifir(exts[1..]) ==> NoSifir(exts);
      var j := FirstIndex(exts[1..]);
      i := j + 1;
      assert exts[..i] == [exts[0]] + exts[1..][..j];
    }
  }

  // ---------------------------------------------------------------- what acceptance means

  /** The certificate parses, its key encodes, and these are its extensions. */
  ghost predicate Shows(lib: Library, endEntity: bytes, spki: bytes, exts: seq<Extension>) {
    exists cert :: lib.certificate(endEntity) == Some(cert) && lib.spkiDer(cert.tbs.spki) == Some(spki)
      && exts == match cert.tbs.extensions case None => [] case Some(xs) => xs
  }

  /** The certificate is for the key `spki`, and its first Sifir extension is a text of `e`. */
  ghost predicate Carries(lib: Library, endEntity: bytes, spki: bytes, e: AttestExt.AttestationExtension) {
    exists exts, x :: Shows(lib, endEntity, spki, exts) && First(exts, x) && AttestExt.FromBytes(x.value) == Some(e)
  }

  lemma CarriesExactly(lib: Library, endEntity: bytes, spki: bytes, e: AttestExt.AttestationExtension)
    ensures Carries(lib, endEntity, spki, e) <==>
      && lib.certificate(endEntity).Some? && lib.spkiDer(lib.certificate(endEntity).value.tbs.spki) == Some(spki)
      && ExtractExtension(lib.certificate(endEntity).value.tbs) == Ok(e)
  {
    if lib.certificate(endEntity).Some? {
      var tbs := lib.certificate(endEntity).value.tbs;
      var exts := match tbs.extensions case None => [] case Some(xs) => xs;
      FindExactly(exts);
      if lib.spkiDer(tbs.spki) == Some(spki) {
        assert Shows(lib, endEntity, spki, exts);
      }
    }
  }

  /** The two sides speak of the same kind of attestation. */
  predicate SameMode(client: VerifierMode, server: AttestExt.Mode) {
    (client.Mock? && server.Mock?) || (client.AmdSevSnp? && server.AmdSevSnp?)
  }

  /** The trust anchor: none but the built-in key for mock attestations, the chain sent along for the others. */
  predicate AnchorFor(client: VerifierMode, e: AttestExt.AttestationExtension, key: Verify.AttestationKey) {
    || (client.Mock? && e.mode.Mock? && key == Verify.Mock)
    || (client.AmdSevSnp? && e.mode.AmdSevSnp? && key.Amd? && AttestExt.ChainIs(e, key.vcekChain))
  }

  lemma KeyForExactly(client: VerifierMode, e: AttestExt.AttestationExtension, key: Verify.AttestationKey)
    ensures KeyFor(client, e) == Ok(key) <==> AnchorFor(client, e, key)
  {
    if key.Amd? {
      AttestExt.ChainExactly(e, key.vcekChain);
    }
  }

  /** If the client asks for a token, there is one and it passes. */
  ghost predicate TokenMet(lib: Library, v: AttestationVerifier, e: AttestExt.AttestationExtension, spki: bytes) {
    v.verifyGpuCc ==> e.gpuJwt.Some? && GpuVerify.Accepted(lib, e.gpuJwt.value, spki)
  }

  lemma TokenExactly(lib: Library, v: AttestationVerifier, e: AttestExt.AttestationExtension, spki: bytes)
    ensures GpuVerdict(lib, v, e, spki).Ok? <==> TokenMet(lib, v, e, spki)
  {
    if e.gpuJwt.Some? {
      GpuVerify.AcceptedExactly(lib, e.gpuJwt.value, spki);
    }
  }

  /** The report is bound to the key, attested, of the expected measurement, and the token demand is met. */
  ghost predicate Met(
    lib: Library, v: AttestationVerifier, spki: bytes, e: AttestExt.AttestationExtension,
    report: ReportBytes, key: Verify.AttestationKey)
  {
    && report[80..112] == lib.sha256(spki) && Verify.Attested(lib, report, key)
    && (v.expected == Zeros(48) || report[144..192] == v.expected) && TokenMet(lib, v, e, spki)
  }

  /** The report and the trust anchor that the extension holds for this client. */
  ghost predicate Holds(
    e: AttestExt.AttestationExtension, client: VerifierMode, report: ReportBytes, key: Verify.AttestationKey)
  {
    e.reportB64 == AttestExt.EncodeB64(report) && AnchorFor(client, e, key)
  }

  /** What an accepted certificate presents: its key, the extension, the report in it, and the trust anchor. */
  ghost predicate Presents(
    lib: Library, v: AttestationVerifier, endEntity: bytes,
    spki: bytes, e: AttestExt.AttestationExtension, report: ReportBytes, key: Verify.AttestationKey)
  {
    Carries(lib, endEntity, spki, e) && Holds(e, v.mode, report, key)
  }

  /** The verdict on an extension that has been read. */
  lemma ExtensionAccepted(lib: Library, v: AttestationVerifier, spki: bytes, e: AttestExt.AttestationExtension)
    ensures VerifyExtension(lib, v, spki, e).Ok? <==>
      exists report: ReportBytes, key :: Holds(e, v.mode, report, key) && Met(lib, v, spki, e, report, key)
  {
    forall report: ReportBytes
      ensures AttestExt.ReportOf(e) == Ok(report) <==> e.reportB64 == AttestExt.EncodeB64(report)
    {
      AttestExt.ReportExactly(e, report);
    }
    forall key ensures KeyFor(v.mode, e) == Ok(key) <==> AnchorFor(v.mode, e, key) { KeyForExactly(v.mode, e, key); }
    TokenExactly(lib, v, e, spki);
    if AttestExt.ReportOf(e).Ok? && KeyFor(v.mode, e).Ok? {
      var report, key := AttestExt.ReportOf(e).value, KeyFor(v.mode, e).value;
      Verify.AcceptedExactly(lib, report, key, v.expected, spki);
      assert Holds(e, v.mode, report, key);
    }
  }

  /** The verdict on a certificate is that on the extension it carries. */
  lemma CertificateVerdict(lib: Library, v: AttestationVerifier, endEntity: bytes, context: Context)
    ensures VerifyServerCert(lib, v, endEntity, context).Ok? <==>
      exists spki, e :: Carries(lib, endEntity, spki, e) && VerifyExtension(lib, v, spki, e).Ok?
  {
    if VerifyServerCert(lib, v, endEntity, context).Ok? {
      var tbs := lib.certificate(endEntity).value.tbs;
      CarriesExactly(lib, endEntity, lib.spkiDer(tbs.spki).value, ExtractExtension(tbs).value);
    }
    forall spki, e | Carries(lib, endEntity, spki, e)
      ensures VerifyServerCert(lib, v, endEntity, context) == VerifyExtension(lib, v, spki, e)
    {
      CarriesExactly(lib, endEntity, spki, e);
    }
  }

  /**
    A certificate is accepted exactly when what it presents is attested for its own key, and so is
    the GPU if asked for.
   */
  lemma AcceptedExactly(lib: Library, v: AttestationVerifier, endEntity: bytes, context: Context)
    ensures VerifyServerCert(lib, v, endEntity, context).Ok? <==>
      exists spki, e, report: ReportBytes, key ::
        Presents(lib, v, endEntity, spki, e, report, key) && Met(lib, v, spki, e, report, key)
  {
    CertificateVerdict(lib, v, endEntity, context);
    if VerifyServerCert(lib, v, endEntity, context).Ok? {
      var spki, e :| Carries(lib, endEntity, spki, e) && VerifyExtension(lib, v, spki, e).Ok?;
      ExtensionAccepted(lib, v, spki, e);
      var report: ReportBytes, key :| Holds(e, v.mode, report, key) && Met(lib, v, spki, e, report, key);
      assert Presents(lib, v, endEntity, spki, e, report, key);
    }
    forall spki, e, report: ReportBytes, key
      | Presents(lib, v, endEntity, spki, e, report, key) && Met(lib, v, spki, e, report, key)
      ensures VerifyExtension(lib, v, spki, e).Ok?
    {
      ExtensionAccepted(lib, v, spki, e);
    }
  }

  /**
    With the GPU check on, an accepted certificate carries a token for the very hash its report is
    bound to, and no other.
   */
  lemma CoBinding(lib: Library, v: AttestationVerifier, endEntity: bytes, context: Context)
    returns (e: AttestExt.AttestationExtension, report: ReportBytes, claims: GpuVerify.Claims)
    requires v.verifyGpuCc && VerifyServerCert(lib, v, endEntity, context).Ok?
    ensures exists spki, key :: Presents(lib, v, endEntity, spki, e, report, key)
    ensures e.gpuJwt.Some? && GpuVerify.TokenClaims(e.gpuJwt.value) == Ok(claims)
    ensures claims.nonce == Some(Hex.Encode(report[80..112]))
    ensures forall h: bytes :: claims.nonce == Some(Hex.Encode(h)) ==> h == report[80..112]
  {
    AcceptedExactly(lib, v, endEntity, context);
    var spki, e', report', key :| Presents(lib, v, endEntity, spki, e', report', key)
      && Met(lib, v, spki, e', report', key);
    e, report := e', report';
    claims := TokenOf(lib, v, spki, e, report, key);
  }

  lemma TokenOf(
    lib: Library, v: AttestationVerifier, spki: bytes, e: AttestExt.AttestationExtension,
    report: ReportBytes, key: Verify.AttestationKey) returns (claims: GpuVerify.Claims)
    requires v.verifyGpuCc && Met(lib, v, spki, e, report, key)
    ensures e.gpuJwt.Some? && GpuVerify.TokenClaims(e.gpuJwt.value) == Ok(claims)
    ensures claims.nonce == Some(Hex.Encode(report[80..112]))
    ensures forall h: bytes :: claims.nonce == Some(Hex.Encode(h)) ==> h == report[80..112]
  {
    claims := GpuVerify.AcceptedClaims(lib, e.gpuJwt.value, spki);
    forall h: bytes | claims.nonce == Some(Hex.Encode(h)) ensures h == report[80..112] {
      Hex.EncodeInjective(h, report[80..112]);
    }
  }

  // ---------------------------------------------------------------- why a certificate is refused

  /** What each error says of the extension, once that has been read. */
  ghost predicate ExtensionRefused(
    lib: Library, v: AttestationVerifier, spki: bytes, e: AttestExt.AttestationExtension, err: TlsError)
  {
    match err
    case ReportDecode(r) => AttestExt.ReportOf(e) == Err(r)
    case ModeMismatch(client, server) =>
      && (exists report: ReportBytes :: e.reportB64 == AttestExt.EncodeB64(report))
      && client == v.mode && server == e.mode && !SameMode(client, server)
    case ChainDecode =>
      && (exists report: ReportBytes :: e.reportB64 == AttestExt.EncodeB64(report))
      && v.mode.AmdSevSnp? && e.mode.AmdSevSnp? && forall chain :: !AttestExt.ChainIs(e, chain)
    case AttestationFailed(x) =>
      exists report: ReportBytes, key ::
        Holds(e, v.mode, report, key) && Verify.Verdict(lib, report, key, v.expected, spki) == Err(x)
    case GpuFailed(g) =>
      && v.verifyGpuCc && CpuAccepted(lib, v, spki, e)
      && e.gpuJwt.Some? && GpuVerify.VerifyGpuJwt(lib, e.gpuJwt.value, spki) == Err(g)
    case NoGpuJwt => v.verifyGpuCc && CpuAccepted(lib, v, spki, e) && e.gpuJwt.None?
    case _ => false
  }

  ghost predicate CpuAccepted(lib: Library, v: AttestationVerifier, spki: bytes, e: AttestExt.AttestationExtension) {
    exists report: ReportBytes, key ::
      Holds(e, v.mode, report, key) && Verify.Verdict(lib, report, key, v.expected, spki).Ok?
  }

  lemma NoAnchor(client: VerifierMode, e: AttestExt.AttestationExtension)
    ensures KeyFor(client, e) == Err(ModeMismatch(client, e.mode)) <==> !SameMode(client, e.mode)
    ensures KeyFor(client, e) == Err(ChainDecode) <==>
      client.AmdSevSnp? && e.mode.AmdSevSnp? && forall chain :: !AttestExt.ChainIs(e, chain)
    ensures KeyFor(client, e).Err? ==> KeyFor(client, e).error in {ModeMismatch(client, e.mode), ChainDecode}
  {
    forall chain ensures AttestExt.VcekChainDer(e) == Some(chain) <==> AttestExt.ChainIs(e, chain) {
      AttestExt.ChainExactly(e, chain);
    }
    assert AttestExt.VcekChainDer(e).Some? ==> AttestExt.ChainIs(e, AttestExt.VcekChainDer(e).value);
  }

  /** What the extension holds for this client is what the program decodes. */
  lemma HoldsExactly(e: AttestExt.AttestationExtension, client: VerifierMode)
    ensures forall report: ReportBytes ::
      AttestExt.ReportOf(e) == Ok(report) <==> e.reportB64 == AttestExt.EncodeB64(report)
    ensures forall report: ReportBytes, key ::
      Holds(e, client, report, key) <==> AttestExt.ReportOf(e) == Ok(report) && KeyFor(client, e) == Ok(key)
  {
    forall report: ReportBytes
      ensures AttestExt.ReportOf(e) == Ok(report) <==> e.reportB64 == AttestExt.EncodeB64(report)
    {
      AttestExt.ReportExactly(e, report);
    }
    forall key ensures KeyFor(client, e) == Ok(key) <==> AnchorFor(client, e, key) { KeyForExactly(client, e, key); }
  }

  lemma CpuExactly(lib: Library, v: AttestationVerifier, spki: bytes, e: AttestExt.AttestationExtension)
    ensures CpuAccepted(lib, v, spki, e) <==>
      && AttestExt.ReportOf(e).Ok? && KeyFor(v.mode, e).Ok?
      && Verify.Verdict(lib, AttestExt.ReportOf(e).value, KeyFor(v.mode, e).value, v.expected, spki).Ok?
  {
    HoldsExactly(e, v.mode);
    if AttestExt.ReportOf(e).Ok? && KeyFor(v.mode, e).Ok? {
      assert Holds(e, v.mode, AttestExt.ReportOf(e).value, KeyFor(v.mode, e).value);
    }
  }

  lemma CpuRefused(
    lib: Library, v: AttestationVerifier, spki: bytes, e: AttestExt.AttestationExtension, x: Verify.VerifyError)
    ensures ExtensionRefused(lib, v, spki, e, AttestationFailed(x)) <==>
      && AttestExt.ReportOf(e).Ok? && KeyFor(v.mode, e).Ok?
      && Verify.Verdict(lib, AttestExt.ReportOf(e).value, KeyFor(v.mode, e).value, v.expected, spki) == Err(x)
  {
    HoldsExactly(e, v.mode);
    if AttestExt.ReportOf(e).Ok? && KeyFor(v.mode, e).Ok? {
      assert Holds(e, v.mode, AttestExt.ReportOf(e).value, KeyFor(v.mode, e).value);
    }
  }

  lemma ReportHeld(e: AttestExt.AttestationExtension)
    ensures AttestExt.ReportOf(e).Ok? <==> exists report: ReportBytes :: e.reportB64 == AttestExt.EncodeB64(report)
  {
    HoldsExactly(e, Mock);
    if AttestExt.ReportOf(e).Ok? {
      assert e.reportB64 == AttestExt.EncodeB64(AttestExt.ReportOf(e).value);
    }
  }

  /** Every error about an extension is returned exactly for its cause, and after the causes before it. */
  lemma ExtensionRefusedExactly(
    lib: Library, v: AttestationVerifier, spki: bytes, e: AttestExt.AttestationExtension, err: TlsError)
    ensures VerifyExtension(lib, v, spki, e) == Err(err) <==> ExtensionRefused(lib, v, spki, e, err)
  {
    ReportHeld(e);
    NoAnchor(v.mode, e);
    CpuExactly(lib, v, spki, e);
    if err.AttestationFailed? {
      CpuRefused(lib, v, spki, e, err.v);
    }
  }

  ghost predicate Refused(lib: Library, v: AttestationVerifier, endEntity: bytes, err: TlsError) {
    match err
    case CertParse => lib.certificate(endEntity).None?
    case SpkiEncode =>
      lib.certificate(endEntity).Some? && lib.spkiDer(lib.certificate(endEntity).value.tbs.spki).None?
    case NoExtension => exists spki, exts :: Shows(lib, endEntity, spki, exts) && NoSifir(exts)
    case ExtensionParse =>
      exists spki, exts, x :: Shows(lib, endEntity, spki, exts) && First(exts, x) && AttestExt.FromBytes(x.value).None?
    case _ => exists spki, e :: Carries(lib, endEntity, spki, e) && ExtensionRefused(lib, v, spki, e, err)
  }

  /** Every error of the client is returned exactly for its cause. */
  lemma RefusedExactly(lib: Library, v: AttestationVerifier, endEntity: bytes, context: Context, err: TlsError)
    ensures VerifyServerCert(lib, v, endEntity, context) == Err(err) <==> Refused(lib, v, endEntity, err)
  {
    if lib.certificate(endEntity).Some? && lib.spkiDer(lib.certificate(endEntity).value.tbs.spki).Some? {
      var tbs := lib.certificate(endEntity).value.tbs;
      var spki := lib.spkiDer(tbs.spki).value;
      var exts := match tbs.extensions case None => [] case Some(xs) => xs;
      assert Shows(lib, endEntity, spki, exts);
      FindExactly(exts);
      if ExtractExtension(tbs).Ok? {
        var e := ExtractExtension(tbs).value;
        CarriesExactly(lib, endEntity, spki, e);
        ExtensionRefusedExactly(lib, v, spki, e, err);
      }
      forall s, e | Carries(lib, endEntity, s, e) ensures s == spki && ExtractExtension(tbs) == Ok(e) {
        CarriesExactly(lib, endEntity, s, e);
      }
    } else {
      forall s, e ensures !Carries(lib, endEntity, s, e) { CarriesExactly(lib, endEntity, s, e); }
    }
  }

  // ---------------------------------------------------------------- what the verdict depends on

  /** A client that does not ask for a token never looks at one. */
  lemma TokenIgnored(lib: Library, v: AttestationVerifier, spki: bytes, e: AttestExt.AttestationExtension,
                     jwt: Option<string>)
    requires !v.verifyGpuCc
    ensures VerifyExtension(lib, v, spki, e.(gpuJwt := jwt)) == VerifyExtension(lib, v, spki, e)
  {
  }

  /**
    Certificates with the same key and the same first Sifir extension get the same verdict, whatever
    other extensions, other fields, signatures and handshake context they come with.
   */
  lemma Locality(
    lib: Library, v: AttestationVerifier, x: Extension,
    a: bytes, certA: Certificate, preA: seq<Extension>, postA: seq<Extension>, contextA: Context,
    b: bytes, certB: Certificate, preB: seq<Extension>, postB: seq<Extension>, contextB: Context)
    requires x.oid == [1, 3, 6, 1, 4, 1, 99999, 1, 1] && NoSifir(preA) && NoSifir(preB)
    requires lib.certificate(a) == Some(certA) && certA.tbs.extensions == Some(preA + [x] + postA)
    requires lib.certificate(b) == Some(certB) && certB.tbs.extensions == Some(preB + [x] + postB)
    requires certA.tbs.spki == certB.tbs.spki
    ensures VerifyServerCert(lib, v, a, contextA) == VerifyServerCert(lib, v, b, contextB)
  {
    FindFirst(preA, x, postA);
    FindFirst(preB, x, postB);
  }

  /** The client gets as far as using the decoded certificate chain. */
  predicate ReachesChain(v: AttestationVerifier, e: AttestExt.AttestationExtension) {
    && AttestExt.ReportOf(e).Ok? && v.mode.AmdSevSnp? && e.mode.AmdSevSnp?
    && AttestExt.VcekChainDer(e).Some?
  }

  lemma LongerChain(lib: Library, v: AttestationVerifier, spki: bytes, e: AttestExt.AttestationExtension,
                    longer: AttestExt.AttestationExtension)
    requires ReachesChain(v, e) && longer.(chainB64 := e.chainB64) == e
    requires AttestExt.VcekChainDer(longer).Some?
      && AttestExt.VcekChainDer(e).value <= AttestExt.VcekChainDer(longer).value
    requires |AttestExt.VcekChainDer(e).value| >= 3
    ensures VerifyExtension(lib, v, spki, longer) == VerifyExtension(lib, v, spki, e)
  {
    var chain, more := AttestExt.VcekChainDer(e).value, AttestExt.VcekChainDer(longer).value;
    assert KeyFor(v.mode, e) == Ok(Verify.Amd(chain)) && KeyFor(v.mode, longer) == Ok(Verify.Amd(more));
    SameAnchor(lib, chain, more);
    SameVerdict(lib, AttestExt.ReportOf(e).value, Verify.Amd(chain), Verify.Amd(more), v.expected, spki);
  }

  lemma SameAnchor(lib: Library, chain: seq<bytes>, more: seq<bytes>)
    requires 3 <= |chain| && chain <= more
    ensures Verify.AnchorKey(lib, Verify.Amd(chain)) == Verify.AnchorKey(lib, Verify.Amd(more))
  {
  }

  lemma SameVerdict(lib: Library, r: ReportBytes, a: Verify.AttestationKey, b: Verify.AttestationKey,
                    expected: MeasurementBytes, spki: bytes)
    requires Verify.AnchorKey(lib, a) == Verify.AnchorKey(lib, b)
    ensures Verify.Verdict(lib, r, a, expected, spki) == Verify.Verdict(lib, r, b, expected, spki)
  {
  }

  /** Extra entries that are all base64, or that the client never comes to. */
  lemma ExtraKept(
    lib: Library, v: AttestationVerifier, spki: bytes, e: AttestExt.AttestationExtension, extra: seq<string>)
    requires |e.chainB64| >= 3
    requires ReachesChain(v, e) ==> forall s :: s in extra ==> AttestExt.DecodeB64(s).Some?
    ensures VerifyExtension(lib, v, spki, e.(chainB64 := e.chainB64 + extra)) == VerifyExtension(lib, v, spki, e)
  {
    AttestExt.ChainTail(e, extra);
    if ReachesChain(v, e) {
      LongerChain(lib, v, spki, e, e.(chainB64 := e.chainB64 + extra));
    }
  }

  /** An extra entry that is no base64, where the client comes to it: any verdict becomes a decoding error. */
  lemma ExtraLost(
    lib: Library, v: AttestationVerifier, spki: bytes, e: AttestExt.AttestationExtension, extra: seq<string>, s: string)
    requires |e.chainB64| >= 3 && ReachesChain(v, e) && s in extra && AttestExt.DecodeB64(s).None?
    ensures VerifyExtension(lib, v, spki, e.(chainB64 := e.chainB64 + extra)) == Err(ChainDecode)
    ensures VerifyExtension(lib, v, spki, e) != Err(ChainDecode)
  {
    AttestExt.ChainTail(e, extra);
  }

  /**
    Chain entries behind the third leave the verdict alone exactly when they all are base64, or the
    client fails before it needs the chain.
   */
  lemma ExtraEntries(
    lib: Library, v: AttestationVerifier, spki: bytes, e: AttestExt.AttestationExtension, extra: seq<string>)
    requires |e.chainB64| >= 3
    ensures VerifyExtension(lib, v, spki, e.(chainB64 := e.chainB64 + extra)) == VerifyExtension(lib, v, spki, e) <==>
      (ReachesChain(v, e) ==> forall s :: s in extra ==> AttestExt.DecodeB64(s).Some?)
  {
    if ReachesChain(v, e) && exists s :: s in extra && AttestExt.DecodeB64(s).None? {
      var s :| s in extra && AttestExt.DecodeB64(s).None?;
      ExtraLost(lib, v, spki, e, extra, s);
    } else {
      ExtraKept(lib, v, spki, e, extra);
    }
  }

  /**
    An input that shows extra entries can matter: one that is no base64 turns any such verdict
    into a decoding error.
   */
  lemma ExtraEntryMatters(lib: Library, v: AttestationVerifier, spki: bytes, e: AttestExt.AttestationExtension)
    requires |e.chainB64| >= 3 && ReachesChain(v, e)
    ensures VerifyExtension(lib, v, spki, e.(chainB64 := e.chainB64 + ["!"])) == Err(ChainDecode)
    ensures VerifyExtension(lib, v, spki, e) != Err(ChainDecode)
  {
    assert "!" in ["!"] && AttestExt.DecodeB64("!") == None;
    ExtraLost(lib, v, spki, e, ["!"], "!");
  }
}
