/** What acceptance by a client guarantees in every run of the protocol. */
module Guarantees {
  import opened Basics
  import opened Crypto
  import opened Reports
  import opened Protocol
  import AmdCerts
  import AttestExt
  import Server
  import Verifier
  import Verify

  /** DER: one encoding for one value, and a SEQUENCE tag in front. */
  ghost predicate CanonicalTbs(lib: Library) {
    && (forall a, b :: lib.tbsDer(a).Some? && lib.tbsDer(a) == lib.tbsDer(b) ==> a == b)
    && (forall a :: lib.tbsDer(a).Some? ==> lib.tbsDer(a).value != [] && lib.tbsDer(a).value[0] == 0x30)
  }

  /** The key of the third certificate in the chain that a certificate presents. */
  function PresentedRoot(lib: Library, endEntity: bytes): Option<VerifyingKey> {
    var cert :- lib.certificate(endEntity);
    var ext :- Verifier.SifirExtension(cert.tbs);
    var e :- AttestExt.FromBytes(ext.value);
    var chain :- AttestExt.VcekChainDer(e);
    if |chain| < 3 then None
    else
      var root :- lib.certificate(chain[2]);
      AmdCerts.SubjectKey(lib, root.tbs)
  }

  // ---------------------------------------------------------------- keys keep their roles

  /** What AMD's root signs is the body of a certificate for itself or for an intermediate. */
  lemma SignedByArk(cfg: Config, run: seq<Event>, s: State, tbs: Tbs, m: bytes)
    requires Invariant(cfg, run, s) && CanonicalTbs(cfg.lib)
    requires SignedIn(cfg, run, cfg.ark, m) && cfg.lib.tbsDer(tbs) == Some(m)
    ensures AmdCerts.SubjectKey(cfg.lib, tbs).Some?
    ensures var k := AmdCerts.SubjectKey(cfg.lib, tbs).value; k == cfg.ark || k in s.asks
  {
    var i :| 0 <= i < |run| && !run[i].AdversaryMauls? && Signs(cfg, run[i]) == Some((cfg.ark, m));
    assert Placed(cfg, s, run[i]);
    assert run[i].ArkSigns?;
  }

  /** What an intermediate signs is the body of a certificate for a chip. */
  lemma SignedByAsk(cfg: Config, run: seq<Event>, s: State, ask: VerifyingKey, tbs: Tbs, m: bytes)
    requires Invariant(cfg, run, s) && CanonicalTbs(cfg.lib) && ask in s.asks
    requires SignedIn(cfg, run, ask, m) && cfg.lib.tbsDer(tbs) == Some(m)
    ensures AmdCerts.SubjectKey(cfg.lib, tbs).Some? && AmdCerts.SubjectKey(cfg.lib, tbs).value in s.chips
  {
    var i :| 0 <= i < |run| && !run[i].AdversaryMauls? && Signs(cfg, run[i]) == Some((ask, m));
    assert Placed(cfg, s, run[i]);
    assert run[i].AskSigns?;
  }

  lemma SignedCertificate(cfg: Config, run: seq<Event>, s: State, issuer: VerifyingKey, cert: Certificate)
    requires Invariant(cfg, run, s) && AmdCerts.SignedBy(Ideal(cfg, s), issuer, cert)
    ensures cfg.lib.tbsDer(cert.tbs).Some? && SignedIn(cfg, run, issuer, cfg.lib.tbsDer(cert.tbs).value)
  {
    var lib := Ideal(cfg, s);
    var m, bits, sig :| lib.tbsDer(cert.tbs) == Some(m) && cert.signature == Some(bits)
      && lib.derSignature(bits) == Some(sig) && lib.verifies(issuer, m, sig);
    assert Entry(issuer, m, sig) in s.log;
  }

  ghost predicate HasRoot(lib: Library, chain: seq<bytes>, ark: VerifyingKey) {
    && |chain| >= 3 && lib.certificate(chain[2]).Some?
    && AmdCerts.SubjectKey(lib, lib.certificate(chain[2]).value.tbs) == Some(ark)
  }

  /**
    Under AMD's root the chain function returns the root, an intermediate or a chip, for every
    chain, degenerate ones too.
   */
  lemma ChainKeyRole(cfg: Config, run: seq<Event>, s: State, chain: seq<bytes>, key: VerifyingKey)
    requires Invariant(cfg, run, s) && CanonicalTbs(cfg.lib)
    requires HasRoot(cfg.lib, chain, cfg.ark)
    requires AmdCerts.VcekVerifyingKey(Ideal(cfg, s), chain) == Ok(key)
    ensures key == cfg.ark || key in s.asks || key in s.chips
  {
    var lib := Ideal(cfg, s);
    AmdCerts.ReturnsExactly(lib, chain, key);
    var ark, ask :| AmdCerts.LeadsTo(lib, chain, ark, ask, key);
    var c0, c1 := lib.certificate(chain[0]).value, lib.certificate(chain[1]).value;
    assert ark == cfg.ark;
    SignedCertificate(cfg, run, s, ark, c1);
    SignedByArk(cfg, run, s, c1.tbs, lib.tbsDer(c1.tbs).value);
    SignedCertificate(cfg, run, s, ask, c0);
    if ask == cfg.ark {
      SignedByArk(cfg, run, s, c0.tbs, lib.tbsDer(c0.tbs).value);
    } else {
      SignedByAsk(cfg, run, s, ask, c0.tbs, lib.tbsDer(c0.tbs).value);
    }
  }

  // ---------------------------------------------------------------- reports come from chips

  function RegionHash(region: bytes): bytes
    requires |region| == SIGNED_REGION_SIZE
  {
    region[80..112]
  }

  function RegionData(region: bytes): bytes
    requires |region| == SIGNED_REGION_SIZE
  {
    region[80..144]
  }

  function RegionMeasurement(region: bytes): bytes
    requires |region| == SIGNED_REGION_SIZE
  {
    region[144..192]
  }

  predicate Names(region: bytes, expected: MeasurementBytes, hash: bytes) {
    && |region| == SIGNED_REGION_SIZE && RegionHash(region) == hash
    && (expected == Zeros(MEASUREMENT_SIZE) || RegionMeasurement(region) == expected)
  }

  /** A chip issued a report that names the hash and the measurement. */
  predicate Reported(e: Event, expected: MeasurementBytes, hash: bytes) {
    e.ChipReports? && Names(e.region, expected, hash)
  }

  /** AMD signed a certificate whose body, read as a report, names the hash and the measurement. */
  predicate Lookalike(cfg: Config, e: Event, expected: MeasurementBytes, hash: bytes) {
    (e.ArkSigns? || e.AskSigns?) && cfg.lib.tbsDer(e.tbs).Some? && Names(cfg.lib.tbsDer(e.tbs).value, expected, hash)
  }

  lemma SignerOfRegion(cfg: Config, run: seq<Event>, s: State, key: VerifyingKey, region: bytes)
    returns (i: nat)
    requires Invariant(cfg, run, s) && SignedIn(cfg, run, key, region)
    requires key == cfg.ark || key in s.asks || key in s.chips
    ensures i < |run| && Signs(cfg, run[i]) == Some((key, region))
    ensures if key in s.chips then run[i].ChipReports? else run[i].ArkSigns? || run[i].AskSigns?
  {
    i :| 0 <= i < |run| && !run[i].AdversaryMauls? && Signs(cfg, run[i]) == Some((key, region));
    assert Placed(cfg, s, run[i]);
  }

  /**
    A key that the chain function returns under AMD's root and that verifies some report is a certified
    chip key, except exactly when AMD has signed that region as the body of a certificate with that key.
   */
  lemma ReportKeyIsChip(cfg: Config, run: seq<Event>, s: State, chain: seq<bytes>, key: VerifyingKey, region: bytes,
                        sig: Signature)
    requires Invariant(cfg, run, s) && CanonicalTbs(cfg.lib)
    requires HasRoot(cfg.lib, chain, cfg.ark)
    requires AmdCerts.VcekVerifyingKey(Ideal(cfg, s), chain) == Ok(key)
    requires Ideal(cfg, s).verifies(key, region, sig)
    ensures key !in s.chips <==>
      exists i :: 0 <= i < |run| && (run[i].ArkSigns? || run[i].AskSigns?) && Signs(cfg, run[i]) == Some((key, region))
  {
    ChainKeyRole(cfg, run, s, chain, key);
    assert Entry(key, region, sig) in s.log;
    var i := SignerOfRegion(cfg, run, s, key, region);
    forall j | 0 <= j < |run| && (run[j].ArkSigns? || run[j].AskSigns?) && Signs(cfg, run[j]) == Some((key, region))
      ensures key !in s.chips
    {
      assert Placed(cfg, s, run[j]);
    }
  }

  lemma RegionFields(r: ReportBytes)
    ensures |SignedRegion(r)| == SIGNED_REGION_SIZE
    ensures RegionHash(SignedRegion(r)) == Verify.BoundHash(r) && RegionMeasurement(SignedRegion(r)) == Measurement(r)
  {
  }

  lemma PresentsRoot(lib: Library, v: Verifier.AttestationVerifier, endEntity: bytes, ark: VerifyingKey,
                     spki: bytes, e: AttestExt.AttestationExtension, report: ReportBytes, key: Verify.AttestationKey)
    requires v.mode.AmdSevSnp? && Verifier.Presents(lib, v, endEntity, spki, e, report, key)
    requires PresentedRoot(lib, endEntity) == Some(ark)
    ensures key.Amd? && HasRoot(lib, key.vcekChain, ark)
  {
    Verifier.CarriesExactly(lib, endEntity, spki, e);
    AttestExt.ChainExactly(e, key.vcekChain);
  }

  lemma PresentsKey(lib: Library, v: Verifier.AttestationVerifier, endEntity: bytes,
                    spki: bytes, e: AttestExt.AttestationExtension, report: ReportBytes, key: Verify.AttestationKey)
    requires Verifier.Presents(lib, v, endEntity, spki, e, report, key)
    ensures PresentedSpki(lib, endEntity) == Some(spki)
  {
  }

  /** What an accepted certificate under the root `ark` presents. */
  lemma AcceptedPresents(lib: Library, v: Verifier.AttestationVerifier, endEntity: bytes, ark: VerifyingKey,
                         context: Verifier.Context)
    returns (spki: bytes, e: AttestExt.AttestationExtension, report: ReportBytes, key: Verify.AttestationKey)
    requires v.mode.AmdSevSnp? && PresentedRoot(lib, endEntity) == Some(ark)
    requires Verifier.VerifyServerCert(lib, v, endEntity, context).Ok?
    ensures PresentedSpki(lib, endEntity) == Some(spki) && Verifier.Met(lib, v, spki, e, report, key)
    ensures key.Amd? && HasRoot(lib, key.vcekChain, ark)
  {
    Verifier.AcceptedExactly(lib, v, endEntity, context);
    var spki', e', report', key' :| Verifier.Presents(lib, v, endEntity, spki', e', report', key')
      && Verifier.Met(lib, v, spki', e', report', key');
    spki, e, report, key := spki', e', report', key';
    PresentsRoot(lib, v, endEntity, ark, spki, e, report, key);
    PresentsKey(lib, v, endEntity, spki, e, report, key);
  }

  lemma AttestedInState(cfg: Config, run: seq<Event>, s: State, report: ReportBytes,
                        key: Verify.AttestationKey)
    returns (i: nat)
    requires Invariant(cfg, run, s) && CanonicalTbs(cfg.lib)
    requires Verify.Attested(Ideal(cfg, s), report, key) && key.Amd? && HasRoot(cfg.lib, key.vcekChain, cfg.ark)
    ensures i < |run| && (run[i].ChipReports? || run[i].ArkSigns? || run[i].AskSigns?)
    ensures Signs(cfg, run[i]).Some? && Signs(cfg, run[i]).value.1 == SignedRegion(report)
  {
    var lib := Ideal(cfg, s);
    Layout(report);
    var vk, sig :| Verify.Anchors(lib, key, vk) && lib.fixedSignature(SigR(report) + SigS(report)) == Some(sig)
      && lib.verifies(vk, SignedRegion(report), sig);
    Verify.AnchorExactly(lib, key, vk);
    assert Entry(vk, SignedRegion(report), sig) in s.log;
    ChainKeyRole(cfg, run, s, key.vcekChain, vk);
    i := SignerOfRegion(cfg, run, s, vk, SignedRegion(report));
  }

  /** In one state: a report that meets the client's demands was signed by a chip, or is an AMD certificate body. */
  lemma MetInState(
    cfg: Config, run: seq<Event>, s: State, v: Verifier.AttestationVerifier, spki: bytes,
    e: AttestExt.AttestationExtension, report: ReportBytes, key: Verify.AttestationKey) returns (i: nat)
    requires Invariant(cfg, run, s) && CanonicalTbs(cfg.lib)
    requires Verifier.Met(Ideal(cfg, s), v, spki, e, report, key) && key.Amd?
      && HasRoot(cfg.lib, key.vcekChain, cfg.ark)
    ensures i < |run|
    ensures Reported(run[i], v.expected, cfg.lib.sha256(spki))
      || Lookalike(cfg, run[i], v.expected, cfg.lib.sha256(spki))
  {
    i := AttestedInState(cfg, run, s, report, key);
    RegionFields(report);
    Layout(report);
  }

  /** In one state: whatever an accepted certificate presents was signed by a chip, or is an AMD certificate body. */
  lemma AcceptedInState(cfg: Config, run: seq<Event>, s: State, v: Verifier.AttestationVerifier, endEntity: bytes,
                        context: Verifier.Context)
    returns (spki: bytes, i: nat)
    requires Invariant(cfg, run, s) && CanonicalTbs(cfg.lib)
    requires v.mode.AmdSevSnp? && PresentedRoot(cfg.lib, endEntity) == Some(cfg.ark)
    requires Verifier.VerifyServerCert(Ideal(cfg, s), v, endEntity, context).Ok?
    ensures PresentedSpki(cfg.lib, endEntity) == Some(spki) && i < |run|
    ensures Reported(run[i], v.expected, cfg.lib.sha256(spki))
      || Lookalike(cfg, run[i], v.expected, cfg.lib.sha256(spki))
  {
    SameRoot(cfg, s, endEntity);
    var spki', e, report, key := AcceptedPresents(Ideal(cfg, s), v, endEntity, cfg.ark, context);
    spki := spki';
    i := MetInState(cfg, run, s, v, spki, e, report, key);
  }

  lemma SameRoot(cfg: Config, s: State, endEntity: bytes)
    ensures PresentedRoot(Ideal(cfg, s), endEntity) == PresentedRoot(cfg.lib, endEntity)
  {
  }

  /** The premises of a client's acceptance under AMD's root, as event `i` of a run. */
  ghost predicate GenuineAcceptance(cfg: Config, run: seq<Event>, i: nat) {
    && cfg.ark != cfg.lib.mockKey && CanonicalTbs(cfg.lib) && Run(cfg, run)
    && i < |run| && run[i].ClientAccepts? && run[i].verifier.mode.AmdSevSnp?
    && PresentedRoot(cfg.lib, run[i].endEntity) == Some(cfg.ark)
  }

  /**
    In every run, against every adversary: a certificate accepted under AMD's root presents a key whose
    hash, with the expected measurement, a chip has reported before; or AMD has signed a certificate
    body that reads as such a report.
   */
  lemma AcceptanceIsJustified(cfg: Config, run: seq<Event>, i: nat)
    requires GenuineAcceptance(cfg, run, i)
    ensures PresentedSpki(cfg.lib, run[i].endEntity).Some?
    ensures var hash := cfg.lib.sha256(PresentedSpki(cfg.lib, run[i].endEntity).value);
      exists j :: 0 <= j < i
        && (Reported(run[j], run[i].verifier.expected, hash) || Lookalike(cfg, run[j], run[i].verifier.expected, hash))
  {
    RunPrefix(cfg, run, i);
    Reachable(cfg, run[..i]);
    var spki, j := AcceptedInState(cfg, run[..i], After(cfg, run[..i]), run[i].verifier, run[i].endEntity,
                                  run[i].context);
    assert run[..i][j] == run[j];
  }

  /** No certificate body AMD signs is as long as the signed region of a report. */
  ghost predicate NoRegionSizedBody(cfg: Config, run: seq<Event>) {
    forall i :: 0 <= i < |run| && (run[i].ArkSigns? || run[i].AskSigns?) && cfg.lib.tbsDer(run[i].tbs).Some? ==>
      |cfg.lib.tbsDer(run[i].tbs).value| != SIGNED_REGION_SIZE
  }

  /** Then only a chip's report can justify an acceptance. */
  lemma AcceptanceNeedsChip(cfg: Config, run: seq<Event>, i: nat) returns (j: nat)
    requires GenuineAcceptance(cfg, run, i) && NoRegionSizedBody(cfg, run)
    ensures PresentedSpki(cfg.lib, run[i].endEntity).Some?
    ensures j < i
      && Reported(run[j], run[i].verifier.expected, cfg.lib.sha256(PresentedSpki(cfg.lib, run[i].endEntity).value))
  {
    AcceptanceIsJustified(cfg, run, i);
    var hash := cfg.lib.sha256(PresentedSpki(cfg.lib, run[i].endEntity).value);
    j :| 0 <= j < i
      && (Reported(run[j], run[i].verifier.expected, hash) || Lookalike(cfg, run[j], run[i].verifier.expected, hash));
  }

  // ---------------------------------------------------------------- the peer is the server

  /**
    The approved software is the server of this repository: a chip reports its measurement only with
    the user data of a server that has started before.
   */
  ghost predicate ApprovedIsServer(cfg: Config, run: seq<Event>, approved: MeasurementBytes) {
    forall j :: 0 <= j < |run| && ReportsMeasurement(run[j], approved) ==>
      exists h :: 0 <= h < j && ReportsServer(cfg, run[j], run[h])
  }

  predicate ReportsMeasurement(e: Event, measurement: MeasurementBytes) {
    e.ChipReports? && |e.region| == SIGNED_REGION_SIZE && RegionMeasurement(e.region) == measurement
  }

  /** The report carries the user data of the server that starts. */
  predicate ReportsServer(cfg: Config, report: Event, start: Event)
    requires report.ChipReports? && |report.region| == SIGNED_REGION_SIZE
  {
    start.ServerStarts? && RegionData(report.region) == Server.UserData(cfg.lib.sha256(start.server.spki))
  }

  /** SHA-256 does not confuse this key with the key of a server of the run. */
  predicate NoCollision(cfg: Config, run: seq<Event>, spki: bytes) {
    forall h :: 0 <= h < |run| && run[h].ServerStarts? && cfg.lib.sha256(run[h].server.spki) == cfg.lib.sha256(spki) ==>
      run[h].server.spki == spki
  }

  lemma HandshakeContentInjective(a: bytes, b: bytes)
    requires HandshakeContent(a) == HandshakeContent(b)
    ensures a == b
  {
    assert HandshakeContent(a)[98..] == a && HandshakeContent(b)[98..] == b;
  }

  /** A valid handshake signature under a server's key was made by that server for that transcript. */
  lemma HandshakeBySameServer(cfg: Config, run: seq<Event>, s: State, server: Instance, transcript: bytes,
                              sig: Signature)
    returns (sig': Signature)
    requires Invariant(cfg, run, s) && CanonicalTbs(cfg.lib) && server in s.servers
    requires Entry(server.key, HandshakeContent(transcript), sig) in s.log
    ensures ServerHandshakes(server, transcript, sig') in run
  {
    var content := HandshakeContent(transcript);
    assert content[0] == 0x20;
    var i :| 0 <= i < |run| && !run[i].AdversaryMauls? && Signs(cfg, run[i]) == Some((server.key, content));
    assert Placed(cfg, s, run[i]);
    assert run[i].ServerHandshakes? && run[i].server == server;
    HandshakeContentInjective(run[i].transcript, transcript);
    sig' := run[i].sig;
  }

  lemma UserDataHash(region: bytes, hash: Digest)
    requires |region| == SIGNED_REGION_SIZE && RegionData(region) == Server.UserData(hash)
    ensures RegionHash(region) == hash
  {
    assert RegionHash(region) == RegionData(region)[..32] == Server.UserData(hash)[..32];
  }

  /**
    The premises about the peer: a client's acceptance under AMD's root as event `i`, for the measurement
    of the approved software, and a client's handshake for the same certificate as event `k`.
   */
  ghost predicate PeerPremises(cfg: Config, run: seq<Event>, i: nat, k: nat) {
    && GenuineAcceptance(cfg, run, i) && NoRegionSizedBody(cfg, run)
    && run[i].verifier.expected != Zeros(MEASUREMENT_SIZE) && ApprovedIsServer(cfg, run, run[i].verifier.expected)
    && i < k < |run| && run[k].ClientHandshakes? && run[k].endEntity == run[i].endEntity
    && (PresentedSpki(cfg.lib, run[i].endEntity).Some? ==>
          NoCollision(cfg, run, PresentedSpki(cfg.lib, run[i].endEntity).value))
  }

  /**
    Acceptance for an approved measurement, then a valid handshake for the same certificate: the peer is
    a server in a TEE that generated this key pair, had a chip report it, and itself signed this very
    transcript. Restarts and replayed certificates are runs like any other.
   */
  lemma PeerIsServer(cfg: Config, run: seq<Event>, i: nat, k: nat) returns (server: Instance, j: nat, sig: Signature)
    requires PeerPremises(cfg, run, i, k)
    ensures PresentedSpki(cfg.lib, run[i].endEntity) == Some(server.spki)
    ensures cfg.lib.tlsKey(server.spki) == Some(server.key)
    ensures j < i && Reported(run[j], run[i].verifier.expected, cfg.lib.sha256(server.spki))
    ensures Started(run[..j], server)
    ensures ServerHandshakes(server, run[k].transcript, sig) in run[..k]
  {
    j := AcceptanceNeedsChip(cfg, run, i);
    var spki := PresentedSpki(cfg.lib, run[i].endEntity).value;
    assert ReportsMeasurement(run[j], run[i].verifier.expected);
    var h :| 0 <= h < j && ReportsServer(cfg, run[j], run[h]);
    server := run[h].server;
    UserDataHash(run[j].region, cfg.lib.sha256(server.spki));
    assert run[..j][h] == ServerStarts(server);
    RunPrefix(cfg, run, k);
    Reachable(cfg, run[..k]);
    var s := After(cfg, run[..k]);
    assert Placed(cfg, s, run[..k][h]);
    sig := HandshakeBySameServer(cfg, run[..k], s, server, run[k].transcript, run[k].sig);
  }
}
