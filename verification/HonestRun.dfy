/** Runs that exist: the honest one, which clients accept, and those that show a premise is needed. */
module HonestRun {
  import opened Basics
  import opened Crypto
  import opened Reports
  import opened Protocol
  import opened Guarantees
  import AmdCerts
  import AttestExt
  import GpuVerify
  import Json
  import Hex
  import Serde
  import Server
  import Verifier
  import Verify

  datatype Link = Link(der: bytes, cert: Certificate, key: VerifyingKey, sig: Signature)

  /** AMD's chain, a server, the report a chip made for it, a GPU token if there is one, and its certificate. */
  datatype Honest = Honest(
    ark: Link,
    ask: Link,
    vcek: Link,
    server: Instance,
    report: ReportBytes,
    sig: Signature,
    jwt: Option<string>,
    der: bytes
  )

  predicate LinkWorks(lib: Library, l: Link) {
    && lib.certificate(l.der) == Some(l.cert) && AmdCerts.SubjectKey(lib, l.cert.tbs) == Some(l.key)
    && lib.tbsDer(l.cert.tbs).Some? && l.cert.signature.Some? && lib.derSignature(l.cert.signature.value) == Some(l.sig)
  }

  function Chain(h: Honest): seq<bytes> {
    [h.vcek.der, h.ask.der, h.ark.der]
  }

  /** All parts parse, the keys are five different ones, and the report is bound to the server's key. */
  ghost predicate Works(cfg: Config, h: Honest) {
    var lib := cfg.lib;
    && LinkWorks(lib, h.ark) && LinkWorks(lib, h.ask) && LinkWorks(lib, h.vcek) && h.ark.key == cfg.ark
    && Distinct([cfg.ark, lib.mockKey, h.ask.key, h.vcek.key, h.server.key])
    && lib.tlsKey(h.server.spki) == Some(h.server.key)
    && lib.fixedSignature(SigR(h.report) + SigS(h.report)) == Some(h.sig)
    && ReportData(h.report) == Server.UserData(lib.sha256(h.server.spki))
  }

  function Sent(h: Honest): AttestExt.AttestationExtension {
    Server.AmdExtension(h.report, Chain(h), h.jwt)
  }

  /** The certificate carries the report, the chain and the token to the client. */
  ghost predicate Carried(cfg: Config, h: Honest) {
    Server.Issued(cfg.lib, h.der, h.server.spki, [Server.SifirExtension(Sent(h))])
  }

  /** What the client demands of the GPU token is met. */
  ghost predicate TokenWorks(cfg: Config, h: Honest, v: Verifier.AttestationVerifier) {
    Verifier.GpuVerdict(cfg.lib, v, Sent(h), h.server.spki).Ok?
  }

  predicate Distinct(ks: seq<VerifyingKey>) {
    forall i, j :: 0 <= i < j < |ks| ==> ks[i] != ks[j]
  }

  function Events(h: Honest): seq<Event> {
    [ArkSigns(h.ark.key, h.ark.cert.tbs, h.ark.sig), ArkSigns(h.ask.key, h.ask.cert.tbs, h.ask.sig),
     AskSigns(h.ask.key, h.vcek.key, h.vcek.cert.tbs, h.vcek.sig), ServerStarts(h.server),
     ChipReports(h.vcek.key, SignedRegion(h.report), h.sig)]
  }

  lemma RunSnoc(cfg: Config, run: seq<Event>, e: Event)
    requires Run(cfg, run) && Enabled(cfg, After(cfg, run), e)
    ensures Run(cfg, run + [e]) && After(cfg, run + [e]) == Apply(cfg, After(cfg, run), e)
  {
    assert (run + [e])[..|run|] == run;
  }

  /** A client can accept at the end of a run exactly when the verifier says so in its last state. */
  lemma AcceptExtends(cfg: Config, run: seq<Event>, v: Verifier.AttestationVerifier, der: bytes,
                      context: Verifier.Context)
    requires Run(cfg, run)
    ensures Run(cfg, run + [ClientAccepts(v, der, context)]) <==>
      Verifier.VerifyServerCert(Ideal(cfg, After(cfg, run)), v, der, context).Ok?
  {
    assert (run + [ClientAccepts(v, der, context)])[..|run|] == run;
  }

  /** The body of a link's certificate. */
  function Body(lib: Library, l: Link): bytes
    requires LinkWorks(lib, l)
  {
    lib.tbsDer(l.cert.tbs).value
  }

  /** The state after AMD's three certificates. */
  ghost function CertifiedState(cfg: Config, h: Honest): State
    requires Works(cfg, h)
  {
    var log := {Entry(cfg.ark, Body(cfg.lib, h.ark), h.ark.sig), Entry(cfg.ark, Body(cfg.lib, h.ask), h.ask.sig),
                Entry(h.ask.key, Body(cfg.lib, h.vcek), h.vcek.sig)};
    State(log, {cfg.lib.mockKey}, {h.ask.key}, {h.vcek.key}, {})
  }

  ghost function HonestState(cfg: Config, h: Honest): State
    requires Works(cfg, h)
  {
    var s := CertifiedState(cfg, h);
    s.(log := s.log + {Entry(h.vcek.key, SignedRegion(h.report), h.sig)}, servers := {h.server})
  }

  lemma KeysDiffer(cfg: Config, h: Honest)
    requires Works(cfg, h)
    ensures cfg.ark != cfg.lib.mockKey && h.ask.key !in {cfg.ark, cfg.lib.mockKey}
    ensures h.vcek.key !in {cfg.ark, cfg.lib.mockKey, h.ask.key}
    ensures h.server.key !in {cfg.ark, cfg.lib.mockKey, h.ask.key, h.vcek.key}
  {
    var ks := [cfg.ark, cfg.lib.mockKey, h.ask.key, h.vcek.key, h.server.key];
    assert ks[0] != ks[1] && ks[0] != ks[2] && ks[0] != ks[3] && ks[0] != ks[4] && ks[1] != ks[2];
    assert ks[1] != ks[3] && ks[1] != ks[4] && ks[2] != ks[3] && ks[2] != ks[4] && ks[3] != ks[4];
  }

  lemma CertifiedEvents(cfg: Config, h: Honest)
    requires Works(cfg, h)
    ensures Run(cfg, Events(h)[..3]) && After(cfg, Events(h)[..3]) == CertifiedState(cfg, h)
  {
    var es := Events(h);
    KeysDiffer(cfg, h);
    RunSnoc(cfg, [], es[0]);
    assert [] + [es[0]] == es[..1];
    RunSnoc(cfg, es[..1], es[1]);
    assert es[..1] + [es[1]] == es[..2];
    RunSnoc(cfg, es[..2], es[2]);
    assert es[..2] + [es[2]] == es[..3];
  }

  lemma HonestEvents(cfg: Config, h: Honest)
    requires Works(cfg, h)
    ensures Run(cfg, Events(h)) && After(cfg, Events(h)) == HonestState(cfg, h)
  {
    var es := Events(h);
    KeysDiffer(cfg, h);
    CertifiedEvents(cfg, h);
    RunSnoc(cfg, es[..3], es[3]);
    assert es[..3] + [es[3]] == es[..4];
    RunSnoc(cfg, es[..4], es[4]);
    assert es[..4] + [es[4]] == es;
  }

  lemma LinkSigned(cfg: Config, s: State, issuer: VerifyingKey, l: Link)
    requires LinkWorks(cfg.lib, l) && Entry(issuer, cfg.lib.tbsDer(l.cert.tbs).value, l.sig) in s.log
    ensures AmdCerts.SignedBy(Ideal(cfg, s), issuer, l.cert)
  {
    var lib := Ideal(cfg, s);
    assert lib.tbsDer(l.cert.tbs) == Some(lib.tbsDer(l.cert.tbs).value)
      && lib.verifies(issuer, lib.tbsDer(l.cert.tbs).value, l.sig);
  }

  lemma ChainWorks(cfg: Config, h: Honest)
    requires Works(cfg, h)
    ensures AmdCerts.VcekVerifyingKey(Ideal(cfg, HonestState(cfg, h)), Chain(h)) == Ok(h.vcek.key)
  {
    var s := HonestState(cfg, h);
    LinkSigned(cfg, s, cfg.ark, h.ark);
    LinkSigned(cfg, s, cfg.ark, h.ask);
    LinkSigned(cfg, s, h.ask.key, h.vcek);
    assert AmdCerts.LeadsTo(Ideal(cfg, s), Chain(h), cfg.ark, h.ask.key, h.vcek.key);
    AmdCerts.ReturnsExactly(Ideal(cfg, s), Chain(h), h.vcek.key);
  }

  lemma ReportWorks(cfg: Config, h: Honest, expected: MeasurementBytes)
    requires Works(cfg, h)
    ensures var lib := Ideal(cfg, HonestState(cfg, h));
      Verify.Verdict(lib, h.report, Verify.Amd(Chain(h)), expected, h.server.spki).Ok? <==>
      expected == Zeros(MEASUREMENT_SIZE) || expected == Measurement(h.report)
  {
    var lib := Ideal(cfg, HonestState(cfg, h));
    ChainWorks(cfg, h);
    Verify.AnchorExactly(lib, Verify.Amd(Chain(h)), h.vcek.key);
    Layout(h.report);
    assert lib.verifies(h.vcek.key, SignedRegion(h.report), h.sig);
    assert Verify.Attested(lib, h.report, Verify.Amd(Chain(h)));
    assert Server.UserData(lib.sha256(h.server.spki))[..32] == lib.sha256(h.server.spki);
    Verify.AcceptedExactly(lib, h.report, Verify.Amd(Chain(h)), expected, h.server.spki);
  }

  lemma CertificateWorks(cfg: Config, h: Honest, v: Verifier.AttestationVerifier, context: Verifier.Context)
    requires Works(cfg, h) && Carried(cfg, h) && v.mode.AmdSevSnp?
    ensures Verifier.VerifyServerCert(Ideal(cfg, HonestState(cfg, h)), v, h.der, context).Ok? <==>
      (v.expected == Zeros(MEASUREMENT_SIZE) || v.expected == Measurement(h.report)) && TokenWorks(cfg, h, v)
  {
    var lib := Ideal(cfg, HonestState(cfg, h));
    ReportWorks(cfg, h, v.expected);
    Server.AmdVerdict(lib, v, h.der, h.server.spki, h.report, Chain(h), h.jwt, context);
    TokenAlone(cfg, HonestState(cfg, h), v, Sent(h), h.server.spki);
  }

  /** The log of signatures has no part in the token's verdict. */
  lemma TokenAlone(cfg: Config, s: State, v: Verifier.AttestationVerifier, e: AttestExt.AttestationExtension,
                   spki: bytes)
    ensures Verifier.GpuVerdict(Ideal(cfg, s), v, e, spki) == Verifier.GpuVerdict(cfg.lib, v, e, spki)
  {
  }

  /**
    The honest parts make a run of the protocol, and a client can accept at its end exactly when it
    expects the zero measurement or the one reported and the token meets its demands.
   */
  lemma HonestRunAccepted(cfg: Config, h: Honest, v: Verifier.AttestationVerifier, context: Verifier.Context)
    requires Works(cfg, h) && Carried(cfg, h) && v.mode.AmdSevSnp?
    ensures Run(cfg, Events(h))
    ensures Run(cfg, Events(h) + [ClientAccepts(v, h.der, context)]) <==>
      (v.expected == Zeros(MEASUREMENT_SIZE) || v.expected == Measurement(h.report)) && TokenWorks(cfg, h, v)
  {
    HonestEvents(cfg, h);
    AcceptExtends(cfg, Events(h), v, h.der, context);
    CertificateWorks(cfg, h, v, context);
  }

  /**
    With a token of any payload: a client that asks for one accepts exactly when the payload's claims
    pass, and then their nonce is the hash that the report is bound to.
   */
  lemma GpuRunAccepted(
    cfg: Config, h: Honest, header: bytes, payload: bytes, ms: seq<Json.Member>, third: string,
    v: Verifier.AttestationVerifier, context: Verifier.Context)
    requires Works(cfg, h) && Carried(cfg, h) && v.mode.AmdSevSnp? && v.verifyGpuCc
    requires '.' !in third && Json.ParseDocument(payload) == Some(Json.Obj(ms))
    requires h.jwt == Some(GpuVerify.Compact(header, payload, third))
    ensures Run(cfg, Events(h) + [ClientAccepts(v, h.der, context)]) <==>
      && (v.expected == Zeros(MEASUREMENT_SIZE) || v.expected == Measurement(h.report))
      && GpuVerify.Passes(cfg.lib, ms, h.server.spki)
    ensures GpuVerify.Passes(cfg.lib, ms, h.server.spki) ==>
      Serde.Says(ms, "x-nvidia-attestation-nonce", Some(Hex.Encode(Verify.BoundHash(h.report))))
  {
    HonestRunAccepted(cfg, h, v, context);
    Server.TokenVerdict(cfg.lib, v, h.server.spki, Sent(h), header, payload, ms, third);
    BoundToServer(cfg, h);
  }

  lemma BoundToServer(cfg: Config, h: Honest)
    requires Works(cfg, h)
    ensures Verify.BoundHash(h.report) == cfg.lib.sha256(h.server.spki)
  {
    assert Server.UserData(cfg.lib.sha256(h.server.spki))[..32] == cfg.lib.sha256(h.server.spki);
  }

  lemma PresentsHonestRoot(cfg: Config, h: Honest)
    requires Works(cfg, h) && Carried(cfg, h)
    ensures PresentedRoot(cfg.lib, h.der) == Some(cfg.ark)
    ensures PresentedSpki(cfg.lib, h.der) == Some(h.server.spki)
  {
    AttestExt.RoundTrip(Sent(h));
    Server.AmdExtensionReads(h.report, Chain(h), h.jwt);
    assert Verifier.SifirExtension(cfg.lib.certificate(h.der).value.tbs) == Some(Server.SifirExtension(Sent(h)));
  }

  /** The honest events, an acceptance, and a handshake that the server signs and the client checks. */
  function Session(h: Honest, v: Verifier.AttestationVerifier, context: Verifier.Context, transcript: bytes,
                   sig: Signature): seq<Event>
  {
    Events(h) + [ClientAccepts(v, h.der, context)] + [ServerHandshakes(h.server, transcript, sig)]
      + [ClientHandshakes(h.der, transcript, sig)]
  }

  lemma SessionRuns(cfg: Config, h: Honest, v: Verifier.AttestationVerifier, context: Verifier.Context,
                    transcript: bytes, sig: Signature)
    requires Works(cfg, h) && PresentedSpki(cfg.lib, h.der) == Some(h.server.spki)
    requires Run(cfg, Events(h) + [ClientAccepts(v, h.der, context)])
    ensures Run(cfg, Session(h, v, context, transcript, sig))
  {
    var accepted := Events(h) + [ClientAccepts(v, h.der, context)];
    HonestEvents(cfg, h);
    assert accepted[..5] == Events(h);
    assert After(cfg, accepted) == HonestState(cfg, h);
    var signs := ServerHandshakes(h.server, transcript, sig);
    RunSnoc(cfg, accepted, signs);
    var s := After(cfg, accepted + [signs]);
    assert Entry(h.server.key, HandshakeContent(transcript), sig) in s.log;
    RunSnoc(cfg, accepted + [signs], ClientHandshakes(h.der, transcript, sig));
  }

  /** Certificate bodies that are no signed regions. */
  ghost predicate NormalBodies(cfg: Config, h: Honest)
    requires Works(cfg, h)
  {
    SIGNED_REGION_SIZE !in {|Body(cfg.lib, h.ark)|, |Body(cfg.lib, h.ask)|, |Body(cfg.lib, h.vcek)|}
  }

  lemma SessionPremises(cfg: Config, h: Honest, v: Verifier.AttestationVerifier, context: Verifier.Context,
                        transcript: bytes, sig: Signature)
    requires Works(cfg, h) && NormalBodies(cfg, h)
    ensures var run := Session(h, v, context, transcript, sig);
      && NoRegionSizedBody(cfg, run) && ApprovedIsServer(cfg, run, Measurement(h.report))
      && NoCollision(cfg, run, h.server.spki)
  {
    var run := Session(h, v, context, transcript, sig);
    assert run[3] == ServerStarts(h.server);
    assert RegionData(SignedRegion(h.report)) == ReportData(h.report);
  }

  /**
    The premises of the theorem about the peer hold together: honest parts whose certificate bodies are
    not as long as a report's region make a run, whole handshake included, that meets them all.
   */
  lemma SessionIsGenuine(
    cfg: Config, h: Honest, v: Verifier.AttestationVerifier, context: Verifier.Context,
    transcript: bytes, sig: Signature)
    requires Works(cfg, h) && Carried(cfg, h) && NormalBodies(cfg, h) && CanonicalTbs(cfg.lib)
    requires v.mode.AmdSevSnp? && TokenWorks(cfg, h, v)
    requires v.expected == Measurement(h.report) && v.expected != Zeros(MEASUREMENT_SIZE)
    ensures PeerPremises(cfg, Session(h, v, context, transcript, sig), 5, 7)
  {
    HonestRunAccepted(cfg, h, v, context);
    PresentsHonestRoot(cfg, h);
    SessionRuns(cfg, h, v, context, transcript, sig);
    SessionPremises(cfg, h, v, context, transcript, sig);
    KeysDiffer(cfg, h);
  }

  // ---------------------------------------------------------------- why certificate bodies must not look like reports

  /** The log holds the signature on the body of a link, by this issuer. */
  predicate Certified(cfg: Config, s: State, issuer: VerifyingKey, l: Link)
    requires LinkWorks(cfg.lib, l)
  {
    Entry(issuer, Body(cfg.lib, l), l.sig) in s.log
  }

  /** The root certified the key of `holder` (the root's own or another), and that key certified `l`. */
  predicate SignsBody(cfg: Config, s: State, root: Link, holder: Link, l: Link) {
    && LinkWorks(cfg.lib, root) && LinkWorks(cfg.lib, holder) && LinkWorks(cfg.lib, l) && root.key == cfg.ark
    && Certified(cfg, s, cfg.ark, root) && Certified(cfg, s, cfg.ark, holder) && Certified(cfg, s, holder.key, l)
  }

  /** A report that is the body of `l` with its signature. */
  predicate BodyAsReport(lib: Library, l: Link, report: ReportBytes)
    requires LinkWorks(lib, l)
  {
    SignedRegion(report) == Body(lib, l) && lib.fixedSignature(SigR(report) + SigS(report)) == Some(l.sig)
  }

  lemma ShortChainWorks(cfg: Config, s: State, root: Link, holder: Link, l: Link)
    requires SignsBody(cfg, s, root, holder, l)
    ensures AmdCerts.VcekVerifyingKey(Ideal(cfg, s), [holder.der, root.der, root.der]) == Ok(holder.key)
  {
    var lib, chain := Ideal(cfg, s), [holder.der, root.der, root.der];
    LinkSigned(cfg, s, cfg.ark, root);
    LinkSigned(cfg, s, cfg.ark, holder);
    assert AmdCerts.LeadsTo(lib, chain, cfg.ark, cfg.ark, holder.key);
    AmdCerts.ReturnsExactly(lib, chain, holder.key);
  }

  /**
    For every library: the body of an AMD certificate passes for a report exactly when its own
    bytes name key and measurement.
   */
  lemma LookalikeVerdict(
    cfg: Config, s: State, root: Link, holder: Link, l: Link, report: ReportBytes,
    expected: MeasurementBytes, spki: bytes)
    requires SignsBody(cfg, s, root, holder, l) && BodyAsReport(cfg.lib, l, report)
    ensures Verify.Verdict(Ideal(cfg, s), report, Verify.Amd([holder.der, root.der, root.der]), expected, spki).Ok? <==>
      Names(Body(cfg.lib, l), expected, cfg.lib.sha256(spki))
  {
    var lib, key := Ideal(cfg, s), Verify.Amd([holder.der, root.der, root.der]);
    ShortChainWorks(cfg, s, root, holder, l);
    Verify.AnchorExactly(lib, key, holder.key);
    Layout(report);
    assert lib.verifies(holder.key, SignedRegion(report), l.sig);
    assert Verify.Attested(lib, report, key);
    RegionFields(report);
    Verify.AcceptedExactly(lib, report, key, expected, spki);
  }

  /**
    So at the end of every run in which AMD has signed such a body, a client accepts a certificate that
    carries it exactly when the body names the presented key and the expected measurement. No chip and
    no server need be in the run: the second case of `AcceptanceIsJustified` cannot be left out.
   */
  lemma LookalikeAccepted(
    cfg: Config, run: seq<Event>, root: Link, holder: Link, l: Link, report: ReportBytes,
    der: bytes, spki: bytes, v: Verifier.AttestationVerifier, context: Verifier.Context)
    requires Run(cfg, run) && SignsBody(cfg, After(cfg, run), root, holder, l) && BodyAsReport(cfg.lib, l, report)
    requires v.mode.AmdSevSnp? && !v.verifyGpuCc
    requires Server.Issued(cfg.lib, der, spki,
                           [Server.SifirExtension(Server.AmdExtension(report, [holder.der, root.der, root.der], None))])
    ensures Run(cfg, run + [ClientAccepts(v, der, context)]) <==>
      Names(Body(cfg.lib, l), v.expected, cfg.lib.sha256(spki))
  {
    var s := After(cfg, run);
    AcceptExtends(cfg, run, v, der, context);
    LookalikeVerdict(cfg, s, root, holder, l, report, v.expected, spki);
    Server.AmdVerdict(Ideal(cfg, s), v, der, spki, report, [holder.der, root.der, root.der], None, context);
  }

  /** A certificate that carries the root three times presents the root's key. */
  lemma PresentsRootThrice(cfg: Config, root: Link, report: ReportBytes, der: bytes, spki: bytes)
    requires LinkWorks(cfg.lib, root)
    requires Server.Issued(cfg.lib, der, spki,
                           [Server.SifirExtension(Server.AmdExtension(report, [root.der, root.der, root.der], None))])
    ensures PresentedRoot(cfg.lib, der) == Some(root.key)
  {
    var e := Server.AmdExtension(report, [root.der, root.der, root.der], None);
    AttestExt.RoundTrip(e);
    Server.AmdExtensionReads(report, [root.der, root.der, root.der], None);
    assert Verifier.SifirExtension(cfg.lib.certificate(der).value.tbs) == Some(Server.SifirExtension(e));
  }

  /** Then the client's acceptance meets every premise but the one about the length of bodies. */
  lemma LookalikeGenuine(
    cfg: Config, run: seq<Event>, root: Link, report: ReportBytes,
    der: bytes, spki: bytes, v: Verifier.AttestationVerifier, context: Verifier.Context)
    requires cfg.ark != cfg.lib.mockKey && CanonicalTbs(cfg.lib)
    requires Run(cfg, run) && SignsBody(cfg, After(cfg, run), root, root, root) && BodyAsReport(cfg.lib, root, report)
    requires v.mode.AmdSevSnp? && !v.verifyGpuCc && Names(Body(cfg.lib, root), v.expected, cfg.lib.sha256(spki))
    requires Server.Issued(cfg.lib, der, spki,
                           [Server.SifirExtension(Server.AmdExtension(report, [root.der, root.der, root.der], None))])
    ensures GenuineAcceptance(cfg, run + [ClientAccepts(v, der, context)], |run|)
  {
    PresentsRootThrice(cfg, root, report, der, spki);
    LookalikeAccepted(cfg, run, root, root, root, report, der, spki, v, context);
  }
}
