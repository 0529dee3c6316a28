/**
  Closed instances. One meets everything the theorem about the peer assumes, a GPU token included; in the
  other a certificate body passes for a report in a run without a chip.
 */
module Example {
  import opened Basics
  import opened Crypto
  import opened Reports
  import opened Protocol
  import opened Guarantees
  import opened HonestRun
  import GpuVerify
  import Hex
  import Server
  import Verifier

  const SPKI: bytes := [5]

  /** A hash that tells short inputs apart: the input itself, filled up or cut to 32 bytes. */
  function Sha(b: bytes): Digest {
    if |b| >= 32 then b[..32] else b + Zeros(32 - |b|)
  }

  /** A signature filled up to its fixed size. */
  function Padded(b: bytes): Signature {
    Signature(if |b| >= 96 then b else b + Zeros(96 - |b|))
  }

  function CaTbs(n: byte): Tbs {
    Tbs(Spki([], Some([n])), None, [])
  }

  function CaTbsDer(t: Tbs): Option<bytes> {
    if t in {CaTbs(1), CaTbs(2), CaTbs(3)} then Some([0x30] + t.spki.keyBits.value) else None
  }

  function CaLink(n: byte): Link {
    Link([n], Certificate(CaTbs(n), Some([n])), VerifyingKey([n]), Padded([n]))
  }

  function MeasurementOnes(): MeasurementBytes {
    seq(48, _ => 1)
  }

  function ChipReport(): ReportBytes {
    Splice(Splice(Zeros(REPORT_SIZE), OFF_REPORT_DATA, Server.UserData(Sha(SPKI))), OFF_MEASUREMENT, MeasurementOnes())
  }

  function TokenClaims(): GpuVerify.Claims {
    GpuVerify.Claims(Some(Hex.Encode(Sha(SPKI))), Some("On"), Some("H100"))
  }

  function Token(): string {
    GpuVerify.Compact([], GpuVerify.ToBytes(TokenClaims()), "")
  }

  function Parts(report: ReportBytes, jwt: string): Honest {
    Honest(CaLink(1), CaLink(2), CaLink(3), Instance(VerifyingKey(SPKI), SPKI), report,
           Signature(SigR(report) + SigS(report)), Some(jwt), [4])
  }

  function ServerCert(ext: Extension): Certificate {
    Certificate(Tbs(Spki([], Some(SPKI)), Some([ext]), []), Some([]))
  }

  /** Certificates 1 to 3 are AMD's and `[4]` is the server's, with the extension `ext`. */
  function SmallLibrary(ext: Extension, tbsDer: Tbs -> Option<bytes>): Library {
    Library(
      Sha,
      (der: bytes) =>
        if der in {[1], [2], [3]} then Some(CaLink(der[0]).cert)
        else if der == [4] then Some(ServerCert(ext)) else None,
      tbsDer,
      (s: Spki) => s.keyBits,
      b => Some(VerifyingKey(b)),
      b => Some(Signature(b)),
      b => Some(Padded(b)),
      (_, _, _) => false,
      b => Some(VerifyingKey(b)),
      VerifyingKey([6]), [6], _ => Signature(Zeros(96)))
  }

  /** The configuration in which the server's certificate carries what the parts send. */
  function Carrying(h: Honest): Config {
    Config(SmallLibrary(Server.SifirExtension(Sent(h)), CaTbsDer), VerifyingKey([1]))
  }

  function Client(): Verifier.AttestationVerifier {
    Verifier.AttestationVerifier(MeasurementOnes(), Verifier.AmdSevSnp, true)
  }

  lemma LibraryCanonical(ext: Extension)
    ensures CanonicalTbs(SmallLibrary(ext, CaTbsDer))
  {
    forall a, b | CaTbsDer(a).Some? && CaTbsDer(a) == CaTbsDer(b) ensures a == b {
      assert CaTbsDer(a).value[1] == a.spki.keyBits.value[0] && CaTbsDer(b).value[1] == b.spki.keyBits.value[0];
    }
  }

  lemma ReportFields()
    ensures ReportData(ChipReport()) == Server.UserData(Sha(SPKI)) && Measurement(ChipReport()) == MeasurementOnes()
  {
  }

  lemma LinksWork(ext: Extension, n: byte)
    requires n in {1, 2, 3}
    ensures LinkWorks(SmallLibrary(ext, CaTbsDer), CaLink(n)) && |Body(SmallLibrary(ext, CaTbsDer), CaLink(n))| == 2
  {
  }

  lemma KeysApart()
    ensures Distinct([VerifyingKey([1]), VerifyingKey([6]), VerifyingKey([2]), VerifyingKey([3]), VerifyingKey(SPKI)])
  {
    assert forall m: byte, n: byte :: m != n ==> [m][0] != [n][0];
  }

  lemma PartsWork(ext: Extension, report: ReportBytes, jwt: string)
    requires ReportData(report) == Server.UserData(Sha(SPKI))
    ensures var cfg := Config(SmallLibrary(ext, CaTbsDer), VerifyingKey([1]));
      Works(cfg, Parts(report, jwt)) && NormalBodies(cfg, Parts(report, jwt))
  {
    LinksWork(ext, 1);
    LinksWork(ext, 2);
    LinksWork(ext, 3);
    KeysApart();
  }

  lemma TokenPasses(cfg: Config, h: Honest)
    requires cfg.lib.sha256 == Sha && h.server.spki == SPKI && h.jwt == Some(Token())
    ensures TokenWorks(cfg, h, Client())
  {
    GpuVerify.CompactPayload([], GpuVerify.ToBytes(TokenClaims()), "");
    GpuVerify.ClaimsRoundTrip(TokenClaims());
    GpuVerify.PassesExactly(cfg.lib, Token(), SPKI, GpuVerify.GpuClaims("H100", "On"));
  }

  lemma CarriesParts(h: Honest)
    requires h.der == [4] && h.server.spki == SPKI
    ensures Carried(Carrying(h), h)
  {
  }

  /** All premises of the theorem about the peer are met by a client that expects a measurement and a GPU token. */
  lemma PeerTheoremApplies(context: Verifier.Context, transcript: bytes, sig: Signature)
    ensures var h := Parts(ChipReport(), Token());
      PeerPremises(Carrying(h), Session(h, Client(), context, transcript, sig), 5, 7) && Client().verifyGpuCc
  {
    ReportFields();
    PremisesHold(ChipReport(), Token(), context, transcript, sig);
  }

  lemma PremisesHold(report: ReportBytes, jwt: string, context: Verifier.Context, transcript: bytes, sig: Signature)
    requires ReportData(report) == Server.UserData(Sha(SPKI)) && Measurement(report) == MeasurementOnes()
    requires jwt == Token()
    ensures var h := Parts(report, jwt);
      PeerPremises(Carrying(h), Session(h, Client(), context, transcript, sig), 5, 7)
  {
    var h := Parts(report, jwt);
    PartsWork(Server.SifirExtension(Sent(h)), report, jwt);
    LibraryCanonical(Server.SifirExtension(Sent(h)));
    CarriesParts(h);
    TokenPasses(Carrying(h), h);
    assert Client().expected[0] == 1;
    SessionIsGenuine(Carrying(h), h, Client(), context, transcript, sig);
  }

  // ---------------------------------------------------------------- a certificate body that passes for a report

  /** 672 bytes that start like DER and name the key `SPKI` and the measurement of all ones. */
  function Lookalike672(): (b: bytes)
    ensures |b| == SIGNED_REGION_SIZE && b[0] == 0x30
    ensures Names(b, MeasurementOnes(), Sha(SPKI))
  {
    var start := [0x30] + Zeros(SIGNED_REGION_SIZE - 1);
    var b := Splice(Splice(start, OFF_REPORT_DATA, Sha(SPKI)), OFF_MEASUREMENT, MeasurementOnes());
    assert RegionHash(b) == Sha(SPKI) && RegionMeasurement(b) == MeasurementOnes();
    b
  }

  function LookalikeDer(t: Tbs): Option<bytes> {
    if t == CaTbs(1) then Some(Lookalike672()) else None
  }

  function LookalikeReport(): (r: ReportBytes)
    ensures SignedRegion(r) == Lookalike672() && SigR(r) + SigS(r) == [1] + Zeros(95)
  {
    var r := Lookalike672() + ([1] + Zeros(REPORT_SIZE - SIGNED_REGION_SIZE - 1));
    assert SigR(r) + SigS(r) == [1] + Zeros(95);
    r
  }

  function LookalikeConfig(ext: Extension): Config {
    Config(SmallLibrary(ext, LookalikeDer), VerifyingKey([1]))
  }

  function RootSigns(): Event {
    ArkSigns(VerifyingKey([1]), CaTbs(1), Padded([1]))
  }

  lemma RootBody(ext: Extension)
    ensures var cfg := LookalikeConfig(ext);
      && Run(cfg, [RootSigns()]) && LinkWorks(cfg.lib, CaLink(1)) && CanonicalTbs(cfg.lib)
      && SignsBody(cfg, After(cfg, [RootSigns()]), CaLink(1), CaLink(1), CaLink(1))
      && BodyAsReport(cfg.lib, CaLink(1), LookalikeReport()) && Body(cfg.lib, CaLink(1)) == Lookalike672()
  {
    RunSnoc(LookalikeConfig(ext), [], RootSigns());
    assert [] + [RootSigns()] == [RootSigns()];
  }

  lemma RootShown(ext: Extension, root: Link, report: ReportBytes, v: Verifier.AttestationVerifier,
                  context: Verifier.Context)
    requires root == CaLink(1) && report == LookalikeReport()
    requires ext == Server.SifirExtension(Server.AmdExtension(report, [root.der, root.der, root.der], None))
    requires v.mode.AmdSevSnp? && !v.verifyGpuCc && v.expected == MeasurementOnes()
    ensures GenuineAcceptance(LookalikeConfig(ext), [RootSigns()] + [ClientAccepts(v, [4], context)], 1)
  {
    RootBody(ext);
    CertificateShown(ext);
    LookalikeGenuine(LookalikeConfig(ext), [RootSigns()], root, report, [4], SPKI, v, context);
  }

  lemma CertificateShown(ext: Extension)
    ensures Server.Issued(LookalikeConfig(ext).lib, [4], SPKI, [ext])
  {
  }

  /**
    A run in which the root certifies itself and nothing else happens, until a client that expects a
    measurement accepts: without a bound on certificate bodies, acceptance needs no chip.
   */
  lemma LookalikeRun(context: Verifier.Context) returns (cfg: Config, run: seq<Event>)
    ensures |run| == 2 && run[0].ArkSigns? && GenuineAcceptance(cfg, run, 1)
    ensures run[1].verifier.expected != Zeros(MEASUREMENT_SIZE)
  {
    var root, report := CaLink(1), LookalikeReport();
    var ext := Server.SifirExtension(Server.AmdExtension(report, [root.der, root.der, root.der], None));
    var v := Verifier.AttestationVerifier(MeasurementOnes(), Verifier.AmdSevSnp, false);
    cfg, run := LookalikeConfig(ext), [RootSigns()] + [ClientAccepts(v, [4], context)];
    RootShown(ext, root, report, v, context);
    assert v.expected[0] == 1;
  }
}
