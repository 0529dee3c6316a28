/** The server's side: keys, reports, chains and the certificate that carries them. */
module Server {
  import opened Basics
  import opened Crypto
  import opened Reports
  import AttestExt
  import Base64
  import GpuVerify
  import Hex
  import Json
  import Mock
  import Pem
  import PemGrammar
  import PemPrinting
  import Verifier
  import Verify

  /** The report's user data: the hash of the TLS key, then zeros. */
  function UserData(hash: Digest): bytes {
    hash + Zeros(32)
  }

  /** `generate_keypair_and_hash`, for a key pair whose encoded public key is `spki`. */
  method KeyHashAndUserData(lib: Library, spki: bytes) returns (hash: Digest, userData: array<byte>)
    ensures hash == lib.sha256(spki)
    ensures fresh(userData) && userData[..] == UserData(hash)
  {
    hash := lib.sha256(spki);
    userData := new byte[64](_ => 0);
    CopyInto(userData, 0, hash);
  }

  datatype ChainError = BadPem(e: Pem.PemError) | TooFew(got: nat)

  /** The end of `fetch_vcek_chain`: the VCEK, then the first two certificates of the bundle. */
  function AssembleChain(vcek: bytes, bundle: string): Result<seq<bytes>, ChainError> {
    match Pem.ParseBundle(bundle)
    case Err(e) => Err(BadPem(e))
    case Ok(certs) => if |certs| < 2 then Err(TooFew(|certs|)) else Ok([vcek, certs[0], certs[1]])
  }

  /** The parameters of a certificate to be issued; extensions are pushed onto them. */
  class CertificateParams {
    var customExtensions: seq<Extension>

    constructor Default()
      ensures customExtensions == []
    {
      customExtensions := [];
    }

    method Push(x: Extension)
      modifies this
      ensures customExtensions == old(customExtensions) + [x]
    {
      customExtensions := customExtensions + [x];
    }
  }

  /** The extension list that `build_server_cert` has signed. */
  method CertificateExtensions(e: AttestExt.AttestationExtension) returns (exts: seq<Extension>)
    ensures exts == [SifirExtension(e)]
  {
    var params := new CertificateParams.Default();
    params.Push(Extension(AttestExt.ATTEST_OID_ARCS, AttestExt.ToBytes(e)));
    exts := params.customExtensions;
  }

  function SifirExtension(e: AttestExt.AttestationExtension): Extension {
    Extension(AttestExt.ATTEST_OID_ARCS, AttestExt.ToBytes(e))
  }

  /** The bytes `der` are a certificate for the key `spki` that the issuer put these extensions on. */
  ghost predicate Issued(lib: Library, der: bytes, spki: bytes, exts: seq<Extension>) {
    && lib.certificate(der).Some?
    && lib.spkiDer(lib.certificate(der).value.tbs.spki) == Some(spki)
    && lib.certificate(der).value.tbs.extensions == Some(exts)
  }

  /** The extension of `build_mock_setup`; its measurement is all zeros. */
  function MockSetup(lib: Library, spki: bytes): AttestExt.AttestationExtension
    requires MockKeyWorks(lib)
  {
    AttestExt.NewMock(Mock.MockReport(lib, lib.sha256(spki), Zeros(MEASUREMENT_SIZE)))
  }

  /** `build_mock_setup`, from the generated key pair to the extensions of the certificate. */
  method BuildMockSetup(lib: Library, spki: bytes) returns (exts: seq<Extension>, measurement: MeasurementBytes)
    requires MockKeyWorks(lib)
    ensures exts == [SifirExtension(MockSetup(lib, spki))] && measurement == Zeros(MEASUREMENT_SIZE)
  {
    var hash := Mock.TlsPubkeyHash(lib, spki);
    measurement := Zeros(MEASUREMENT_SIZE);
    var report := Mock.SignMockReport(lib, hash, measurement);
    exts := CertificateExtensions(AttestExt.NewMock(report.Contents()));
  }

  /** The world of the AMD setups: the chip, AMD's key service, and the GPU sidecar when it is asked. */
  datatype World = World(
    chip: bytes -> Option<ReportBytes>,
    vcek: ReportBytes -> Option<bytes>,
    bundle: Option<string>,
    sidecar: Option<Digest -> Option<string>>
  )

  datatype SetupError = NoReport | NoVcek | NoBundle | Chain(e: ChainError) | NoJwt

  function AmdExtension(report: ReportBytes, chain: seq<bytes>, jwt: Option<string>): AttestExt.AttestationExtension {
    match jwt
    case None => AttestExt.NewAmd(report, chain)
    case Some(j) => AttestExt.WithGpuJwt(AttestExt.NewAmd(report, chain), j)
  }

  function FetchChain(w: World, report: ReportBytes): Result<seq<bytes>, SetupError> {
    var vcek :- OkOr(w.vcek(report), NoVcek);
    var bundle :- OkOr(w.bundle, NoBundle);
    match AssembleChain(vcek, bundle)
    case Ok(chain) => Ok(chain)
    case Err(e) => Err(Chain(e))
  }

  function FetchJwt(w: World, hash: Digest): Result<Option<string>, SetupError> {
    match w.sidecar
    case None => Ok(None)
    case Some(ask) =>
      var jwt :- OkOr(ask(hash), NoJwt);
      Ok(Some(jwt))
  }

  /** What a setup yields: the extensions of the certificate, and the measurement to announce. */
  datatype Setup = Setup(extensions: seq<Extension>, measurement: MeasurementBytes)

  function AmdSetup(lib: Library, spki: bytes, w: World): Result<Setup, SetupError> {
    var report :- OkOr(w.chip(UserData(lib.sha256(spki))), NoReport);
    var chain :- FetchChain(w, report);
    var jwt :- FetchJwt(w, lib.sha256(spki));
    Ok(Setup([SifirExtension(AmdExtension(report, chain, jwt))], Measurement(report)))
  }

  /** `build_amd_setup` and, with a sidecar, `build_amd_gpu_setup`: report first, then chain, then token. */
  method BuildAmdSetup(lib: Library, spki: bytes, w: World) returns (r: Result<Setup, SetupError>)
    ensures r == AmdSetup(lib, spki, w)
  {
    var hash, userData := KeyHashAndUserData(lib, spki);
    var report := w.chip(userData[..]);
    if report.None? {
      return Err(NoReport);
    }
    var chain := FetchChain(w, report.value);
    if chain.Err? {
      return Err(chain.error);
    }
    var measurement := Measurement(report.value);
    var jwt := FetchJwt(w, hash);
    if jwt.Err? {
      return Err(jwt.error);
    }
    var exts := CertificateExtensions(AmdExtension(report.value, chain.value, jwt.value));
    return Ok(Setup(exts, measurement));
  }

  // ---------------------------------------------------------------- client and server together

  /** The client sees the extension the server embedded. */
  lemma ClientReads(lib: Library, v: Verifier.AttestationVerifier, der: bytes, spki: bytes,
                    e: AttestExt.AttestationExtension, context: Verifier.Context)
    requires Issued(lib, der, spki, [SifirExtension(e)])
    ensures Verifier.VerifyServerCert(lib, v, der, context) == Verifier.VerifyExtension(lib, v, spki, e)
  {
    AttestExt.RoundTrip(e);
  }

  /** What any client decides about any certificate with a mock report: the measurement and the GPU demand settle it. */
  lemma MockAccepted(lib: Library, v: Verifier.AttestationVerifier, der: bytes, spki: bytes,
                     measurement: MeasurementBytes, context: Verifier.Context)
    requires MockKeyWorks(lib)
    requires Issued(lib, der, spki,
        [SifirExtension(AttestExt.NewMock(Mock.MockReport(lib, lib.sha256(spki), measurement)))])
    ensures Verifier.VerifyServerCert(lib, v, der, context) ==
      if v.mode.AmdSevSnp? then Err(Verifier.ModeMismatch(Verifier.AmdSevSnp, AttestExt.Mock))
      else if v.expected != Zeros(MEASUREMENT_SIZE) && v.expected != measurement then
        Err(Verifier.AttestationFailed(Verify.MeasurementMismatch(Hex.Encode(v.expected), Hex.Encode(measurement))))
      else if v.verifyGpuCc then Err(Verifier.NoGpuJwt)
      else Ok(())
  {
    var report := Mock.MockReport(lib, lib.sha256(spki), measurement);
    var e := AttestExt.NewMock(report);
    ClientReads(lib, v, der, spki, e, context);
    AttestExt.ReportExactly(e, report);
    Mock.MockVerdict(lib, spki, measurement, v.expected);
  }

  /** The mock setup satisfies a mock client without GPU check exactly when that expects the zero measurement. */
  lemma MockSetupAccepted(lib: Library, v: Verifier.AttestationVerifier, der: bytes, spki: bytes,
                          context: Verifier.Context)
    requires MockKeyWorks(lib) && v.mode.Mock? && !v.verifyGpuCc
    requires Issued(lib, der, spki, [SifirExtension(MockSetup(lib, spki))])
    ensures Verifier.VerifyServerCert(lib, v, der, context).Ok? <==> v.expected == Zeros(MEASUREMENT_SIZE)
  {
    MockAccepted(lib, v, der, spki, Zeros(MEASUREMENT_SIZE), context);
  }

  /**
    From the PEM text of the key service to the client: for every printing of ASK, ARK and any further
    certificates, the client decodes the chain VCEK, ASK, ARK and the report unchanged. With fewer
    than two certificates the server gives up.
   */
  lemma ChainTransport(vcek: bytes, bs: seq<PemPrinting.Block>, tail: seq<PemPrinting.Line>, report: ReportBytes,
                       jwt: Option<string>)
    requires forall i :: 0 <= i < |bs| ==> bs[i].Valid()
    requires PemPrinting.AllValid(tail) && forall i :: 0 <= i < |tail| ==> !PemGrammar.Boundary(tail[i].content)
    ensures var text := PemPrinting.Render(PemPrinting.BundleLines(bs) + tail);
      if |bs| < 2 then AssembleChain(vcek, text) == Err(TooFew(|bs|))
      else
        var chain := [vcek, bs[0].der, bs[1].der];
        && AssembleChain(vcek, text) == Ok(chain)
        && var sent := AttestExt.FromBytes(AttestExt.ToBytes(AmdExtension(report, chain, jwt)));
        && sent.Some? && AttestExt.VcekChainDer(sent.value) == Some(chain)
        && AttestExt.ReportOf(sent.value) == Ok(report) && sent.value.gpuJwt == jwt
  {
    PemPrinting.ParsePrinted(bs, tail);
    if |bs| >= 2 {
      var chain := [vcek, bs[0].der, bs[1].der];
      AttestExt.RoundTrip(AmdExtension(report, chain, jwt));
      AmdExtensionReads(report, chain, jwt);
    }
  }

  lemma AmdExtensionReads(report: ReportBytes, chain: seq<bytes>, jwt: Option<string>)
    ensures var e := AmdExtension(report, chain, jwt);
      && AttestExt.ReportOf(e) == Ok(report) && AttestExt.VcekChainDer(e) == Some(chain)
      && e.mode.AmdSevSnp? && e.gpuJwt == jwt
  {
    AttestExt.ChainRoundTrip(report, chain);
    assert AmdExtension(report, chain, jwt).chainB64 == AttestExt.NewAmd(report, chain).chainB64;
    AttestExt.ReportExactly(AmdExtension(report, chain, jwt), report);
  }

  /** What an AMD client decides about an AMD certificate: the report's verdict under its chain, then the token's. */
  lemma AmdVerdict(lib: Library, v: Verifier.AttestationVerifier, der: bytes, spki: bytes,
                   report: ReportBytes, chain: seq<bytes>, jwt: Option<string>, context: Verifier.Context)
    requires v.mode.AmdSevSnp?
    requires Issued(lib, der, spki, [SifirExtension(AmdExtension(report, chain, jwt))])
    ensures Verifier.VerifyServerCert(lib, v, der, context) ==
      match Verify.Verdict(lib, report, Verify.Amd(chain), v.expected, spki)
      case Err(x) => Err(Verifier.AttestationFailed(x))
      case Ok(_) => Verifier.GpuVerdict(lib, v, AmdExtension(report, chain, jwt), spki)
  {
    AmdExtensionReads(report, chain, jwt);
    ClientReads(lib, v, der, spki, AmdExtension(report, chain, jwt), context);
  }

  /** A token of any payload passes exactly when the payload's claims do. */
  lemma TokenVerdict(lib: Library, v: Verifier.AttestationVerifier, spki: bytes, e: AttestExt.AttestationExtension,
                     header: bytes, payload: bytes, ms: seq<Json.Member>, third: string)
    requires v.verifyGpuCc && '.' !in third && Json.ParseDocument(payload) == Some(Json.Obj(ms))
    requires e.gpuJwt == Some(GpuVerify.Compact(header, payload, third))
    ensures Verifier.GpuVerdict(lib, v, e, spki).Ok? <==> GpuVerify.Passes(lib, ms, spki)
  {
    GpuVerify.CompactPasses(lib, header, payload, ms, third, spki);
  }

  // ---------------------------------------------------------------- what an AMD setup publishes

  /** The world answers: the chip for this key's hash, the key service, and the sidecar if there is one. */
  predicate Answers(lib: Library, spki: bytes, w: World, report: ReportBytes, vcek: bytes, certs: seq<bytes>,
                    jwt: Option<string>)
  {
    && w.chip(lib.sha256(spki) + Zeros(32)) == Some(report) && w.vcek(report) == Some(vcek)
    && w.bundle.Some? && Pem.ParseBundle(w.bundle.value) == Ok(certs) && |certs| >= 2
    && match w.sidecar case None => jwt == None case Some(ask) => jwt.Some? && ask(lib.sha256(spki)) == jwt
  }

  /** What the one extension then says. */
  function Published(report: ReportBytes, vcek: bytes, certs: seq<bytes>, jwt: Option<string>)
    : AttestExt.AttestationExtension
    requires |certs| >= 2
  {
    AttestExt.AttestationExtension(
      Base64.Encode(Base64.Standard, report),
      [Base64.Encode(Base64.Standard, vcek), Base64.Encode(Base64.Standard, certs[0]),
       Base64.Encode(Base64.Standard, certs[1])],
      AttestExt.AmdSevSnp,
      jwt)
  }

  lemma AmdExtensionIs(report: ReportBytes, vcek: bytes, certs: seq<bytes>, jwt: Option<string>)
    requires |certs| >= 2
    ensures AmdExtension(report, [vcek, certs[0], certs[1]], jwt) == Published(report, vcek, certs, jwt)
  {
    var e := Published(report, vcek, certs, jwt);
    assert AmdExtension(report, [vcek, certs[0], certs[1]], jwt).chainB64 == e.chainB64;
  }

  lemma SetupIs(
    lib: Library, spki: bytes, w: World, report: ReportBytes, vcek: bytes, certs: seq<bytes>, jwt: Option<string>)
    returns (s: Setup)
    requires Answers(lib, spki, w, report, vcek, certs, jwt)
    ensures AmdSetup(lib, spki, w) == Ok(s) && s.measurement == report[144..192]
    ensures s.extensions == [SifirExtension(Published(report, vcek, certs, jwt))]
  {
    AmdExtensionIs(report, vcek, certs, jwt);
    Layout(report);
    s := AmdSetup(lib, spki, w).value;
  }

  /**
    When the world answers, the setup announces the report's measurement and publishes one extension with
    the Sifir identifier, a text of the report, the chain VCEK, ASK, ARK, and the sidecar's token.
   */
  lemma AmdSetupPublishes(
    lib: Library, spki: bytes, w: World, report: ReportBytes, vcek: bytes, certs: seq<bytes>, jwt: Option<string>)
    requires Answers(lib, spki, w, report, vcek, certs, jwt)
    ensures AmdSetup(lib, spki, w).Ok? && AmdSetup(lib, spki, w).value.measurement == report[144..192]
    ensures var exts := AmdSetup(lib, spki, w).value.extensions;
      && |exts| == 1 && exts[0].oid == [1, 3, 6, 1, 4, 1, 99999, 1, 1]
      && AttestExt.FromBytes(exts[0].value) == Some(Published(report, vcek, certs, jwt))
  {
    var s := SetupIs(lib, spki, w, report, vcek, certs, jwt);
    AttestExt.RoundTrip(Published(report, vcek, certs, jwt));
  }

  /** In particular for every printing of ASK, ARK and any further certificates. */
  lemma AmdSetupPrinted(
    lib: Library, spki: bytes, w: World, report: ReportBytes, vcek: bytes, jwt: Option<string>,
    bs: seq<PemPrinting.Block>, tail: seq<PemPrinting.Line>)
    requires |bs| >= 2 && forall i :: 0 <= i < |bs| ==> bs[i].Valid()
    requires PemPrinting.AllValid(tail) && forall i :: 0 <= i < |tail| ==> !PemGrammar.Boundary(tail[i].content)
    requires w.bundle == Some(PemPrinting.Render(PemPrinting.BundleLines(bs) + tail))
    requires w.chip(lib.sha256(spki) + Zeros(32)) == Some(report) && w.vcek(report) == Some(vcek)
    requires match w.sidecar case None => jwt == None case Some(ask) => jwt.Some? && ask(lib.sha256(spki)) == jwt
    ensures AmdSetup(lib, spki, w).Ok? && |AmdSetup(lib, spki, w).value.extensions| == 1
    ensures AttestExt.FromBytes(AmdSetup(lib, spki, w).value.extensions[0].value) ==
      Some(Published(report, vcek, [bs[0].der, bs[1].der], jwt))
  {
    PrintedAnswers(lib, spki, w, report, vcek, jwt, bs, tail);
    AmdSetupPublishes(lib, spki, w, report, vcek, PemPrinting.Ders(bs), jwt);
  }

  lemma PrintedAnswers(
    lib: Library, spki: bytes, w: World, report: ReportBytes, vcek: bytes, jwt: Option<string>,
    bs: seq<PemPrinting.Block>, tail: seq<PemPrinting.Line>)
    requires |bs| >= 2 && forall i :: 0 <= i < |bs| ==> bs[i].Valid()
    requires PemPrinting.AllValid(tail) && forall i :: 0 <= i < |tail| ==> !PemGrammar.Boundary(tail[i].content)
    requires w.bundle == Some(PemPrinting.Render(PemPrinting.BundleLines(bs) + tail))
    requires w.chip(lib.sha256(spki) + Zeros(32)) == Some(report) && w.vcek(report) == Some(vcek)
    requires match w.sidecar case None => jwt == None case Some(ask) => jwt.Some? && ask(lib.sha256(spki)) == jwt
    ensures Answers(lib, spki, w, report, vcek, PemPrinting.Ders(bs), jwt)
    ensures Published(report, vcek, PemPrinting.Ders(bs), jwt) == Published(report, vcek, [bs[0].der, bs[1].der], jwt)
  {
    PemPrinting.ParsePrinted(bs, tail);
  }

  lemma ChainFails(w: World, report: ReportBytes, e: SetupError)
    ensures FetchChain(w, report) == Err(e) <==>
      match e
      case NoVcek => w.vcek(report).None?
      case NoBundle => w.vcek(report).Some? && w.bundle.None?
      case Chain(BadPem(x)) => w.vcek(report).Some? && w.bundle.Some? && Pem.ParseBundle(w.bundle.value) == Err(x)
      case Chain(TooFew(n)) =>
        && w.vcek(report).Some? && w.bundle.Some? && Pem.ParseBundle(w.bundle.value).Ok?
        && |Pem.ParseBundle(w.bundle.value).value| == n && n < 2
      case _ => false
  {
  }

  lemma JwtFails(w: World, hash: Digest, e: SetupError)
    ensures FetchJwt(w, hash) == Err(e) <==> e == NoJwt && w.sidecar.Some? && w.sidecar.value(hash).None?
  {
  }

  /** The bundle is there and has two certificates at least. */
  predicate HasChain(w: World, report: ReportBytes) {
    && w.vcek(report).Some? && w.bundle.Some?
    && Pem.ParseBundle(w.bundle.value).Ok? && |Pem.ParseBundle(w.bundle.value).value| >= 2
  }

  lemma ChainFetched(w: World, report: ReportBytes)
    ensures FetchChain(w, report).Ok? <==> HasChain(w, report)
  {
  }

  /** Without an answer there is no setup, and the error tells which answer is missing. */
  lemma AmdSetupFails(lib: Library, spki: bytes, w: World, e: SetupError)
    ensures AmdSetup(lib, spki, w) == Err(e) <==>
      var r := w.chip(lib.sha256(spki) + Zeros(32));
      match e
      case NoReport => r.None?
      case NoVcek => r.Some? && w.vcek(r.value).None?
      case NoBundle => r.Some? && w.vcek(r.value).Some? && w.bundle.None?
      case Chain(BadPem(x)) =>
        r.Some? && w.vcek(r.value).Some? && w.bundle.Some? && Pem.ParseBundle(w.bundle.value) == Err(x)
      case Chain(TooFew(n)) =>
        && r.Some? && w.vcek(r.value).Some? && w.bundle.Some? && Pem.ParseBundle(w.bundle.value).Ok?
        && |Pem.ParseBundle(w.bundle.value).value| == n && n < 2
      case NoJwt =>
        r.Some? && HasChain(w, r.value) && w.sidecar.Some? && w.sidecar.value(lib.sha256(spki)).None?
  {
    var r := w.chip(lib.sha256(spki) + Zeros(32));
    if r.Some? {
      ChainFails(w, r.value, e);
      ChainFetched(w, r.value);
      JwtFails(w, lib.sha256(spki), e);
    }
  }

  /** The chip puts the user data it is given into the report. */
  ghost predicate ChipFaithful(w: World) {
    forall u :: w.chip(u).Some? ==> ReportData(w.chip(u).value) == u
  }

  /**
    A certificate issued on an AMD setup is accepted by an AMD client exactly when its report is attested
    under its chain, the client expects zero or the announced measurement, and the token passes if asked
    for: the binding to the TLS key always holds.
   */
  lemma AmdSetupAccepted(
    lib: Library, v: Verifier.AttestationVerifier, der: bytes, spki: bytes, w: World, context: Verifier.Context,
    report: ReportBytes, vcek: bytes, certs: seq<bytes>, jwt: Option<string>)
    requires v.mode.AmdSevSnp? && ChipFaithful(w) && Answers(lib, spki, w, report, vcek, certs, jwt)
    requires AmdSetup(lib, spki, w).Ok? && Issued(lib, der, spki, AmdSetup(lib, spki, w).value.extensions)
    ensures Verifier.VerifyServerCert(lib, v, der, context).Ok? <==>
      && Verify.Attested(lib, report, Verify.Amd([vcek, certs[0], certs[1]]))
      && (v.expected == Zeros(48) || v.expected == report[144..192])
      && Verifier.TokenMet(lib, v, Published(report, vcek, certs, jwt), spki)
  {
    var chain := [vcek, certs[0], certs[1]];
    var s := SetupIs(lib, spki, w, report, vcek, certs, jwt);
    AmdExtensionIs(report, vcek, certs, jwt);
    ReportBound(lib, spki, w, report);
    AmdAccepted(lib, v, der, spki, report, chain, jwt, context);
  }

  lemma ReportBound(lib: Library, spki: bytes, w: World, report: ReportBytes)
    requires ChipFaithful(w) && w.chip(lib.sha256(spki) + Zeros(32)) == Some(report)
    ensures report[80..112] == lib.sha256(spki)
  {
    Layout(report);
    assert report[80..112] == report[80..144][..32];
  }

  lemma AmdAccepted(lib: Library, v: Verifier.AttestationVerifier, der: bytes, spki: bytes,
                    report: ReportBytes, chain: seq<bytes>, jwt: Option<string>, context: Verifier.Context)
    requires v.mode.AmdSevSnp? && report[80..112] == lib.sha256(spki)
    requires Issued(lib, der, spki, [SifirExtension(AmdExtension(report, chain, jwt))])
    ensures Verifier.VerifyServerCert(lib, v, der, context).Ok? <==>
      && Verify.Attested(lib, report, Verify.Amd(chain)) && (v.expected == Zeros(48) || v.expected == report[144..192])
      && Verifier.TokenMet(lib, v, AmdExtension(report, chain, jwt), spki)
  {
    AmdVerdict(lib, v, der, spki, report, chain, jwt, context);
    Verify.AcceptedExactly(lib, report, Verify.Amd(chain), v.expected, spki);
    Verifier.TokenExactly(lib, v, AmdExtension(report, chain, jwt), spki);
  }

  /** The mock setup publishes one extension: the mock report, no chain, no token. */
  lemma MockSetupPublishes(lib: Library, spki: bytes)
    requires MockKeyWorks(lib)
    ensures var ext := SifirExtension(MockSetup(lib, spki));
      var report := Mock.MockReport(lib, lib.sha256(spki), Zeros(48));
      && ext.oid == [1, 3, 6, 1, 4, 1, 99999, 1, 1]
      && AttestExt.FromBytes(ext.value) ==
        Some(AttestExt.AttestationExtension(Base64.Encode(Base64.Standard, report), [], AttestExt.Mock, None))
  {
    AttestExt.RoundTrip(MockSetup(lib, spki));
  }
}
