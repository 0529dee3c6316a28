/** Verification of an attestation report: key binding first, then the signature, then the measurement. */
module Verify {
  import opened Basics
  import opened Crypto
  import opened Reports
  import AmdCerts
  import Hex

  datatype AttestationKey = Mock | Amd(vcekChain: seq<bytes>)

  datatype VerifyError =
    | BadSignature
    | KeyBindingMismatch(report: string, computed: string)
    | MeasurementMismatch(expected: string, actual: string)
    | CertChain(e: AmdCerts.ChainError)
    | Internal

  function BoundHash(r: ReportBytes): Digest {
    ReportData(r)[..32]
  }

  function KeyBindingVerdict(lib: Library, r: ReportBytes, spki: bytes): Result<(), VerifyError> {
    var computed := lib.sha256(spki);
    if BoundHash(r) != computed then Err(KeyBindingMismatch(Hex.Encode(BoundHash(r)), Hex.Encode(computed)))
    else Ok(())
  }

  /** The trust anchor's key. */
  function AnchorKey(lib: Library, key: AttestationKey): Result<VerifyingKey, VerifyError> {
    match key
    case Mock => OkOr(lib.sec1Key(lib.mockSec1), Internal)
    case Amd(chain) =>
      match AmdCerts.VcekVerifyingKey(lib, chain)
      case Ok(k) => Ok(k)
      case Err(e) => Err(CertChain(e))
  }

  function SignatureVerdict(lib: Library, r: ReportBytes, key: AttestationKey): Result<(), VerifyError> {
    var sig :- OkOr(lib.fixedSignature(SigR(r) + SigS(r)), BadSignature);
    var vk :- AnchorKey(lib, key);
    if lib.verifies(vk, SignedRegion(r), sig) then Ok(()) else Err(BadSignature)
  }

  function MeasurementVerdict(r: ReportBytes, expected: MeasurementBytes): Result<(), VerifyError> {
    if expected == Zeros(MEASUREMENT_SIZE) || Measurement(r) == expected then Ok(())
    else Err(MeasurementMismatch(Hex.Encode(expected), Hex.Encode(Measurement(r))))
  }

  function Verdict(lib: Library, r: ReportBytes, key: AttestationKey, expected: MeasurementBytes, spki: bytes)
    : Result<(), VerifyError>
  {
    var _ :- KeyBindingVerdict(lib, r, spki);
    var _ :- SignatureVerdict(lib, r, key);
    MeasurementVerdict(r, expected)
  }

  // ---------------------------------------------------------------- the programs

  method VerifyKeyBinding(lib: Library, report: Report, spki: bytes) returns (v: Result<(), VerifyError>)
    requires report.Valid()
    ensures v == KeyBindingVerdict(lib, report.Contents(), spki)
  {
    var h := new Sha256(lib);
    h.Update(spki);
    assert h.fed == spki;
    var computed := h.Finalize();
    var inReport := ReportData(report.Contents())[..32];
    if inReport != computed {
      return Err(KeyBindingMismatch(Hex.Encode(inReport), Hex.Encode(computed)));
    }
    return Ok(());
  }

  method VerifySignature(lib: Library, report: Report, key: AttestationKey) returns (v: Result<(), VerifyError>)
    requires report.Valid()
    ensures v == SignatureVerdict(lib, report.Contents(), key)
  {
    var r: bytes, s: bytes := SigR(report.Contents()), SigS(report.Contents());
    var sigBytes := new byte[96](_ => 0);
    CopyInto(sigBytes, 0, r);
    CopyInto(sigBytes, 48, s);
    assert sigBytes[..] == r + s;
    var sig := lib.fixedSignature(sigBytes[..]);
    if sig.None? {
      return Err(BadSignature);
    }
    var vk := AnchorKey(lib, key);
    if vk.Err? {
      return Err(vk.error);
    }
    if lib.verifies(vk.value, SignedRegion(report.Contents()), sig.value) {
      return Ok(());
    }
    return Err(BadSignature);
  }

  method Verify(lib: Library, reportBytes: ReportBytes, key: AttestationKey, expected: MeasurementBytes, spki: bytes)
    returns (v: Result<(), VerifyError>)
    ensures v == Verdict(lib, reportBytes, key, expected, spki)
  {
    var report := new Report(reportBytes);
    v := VerifyKeyBinding(lib, report, spki);
    if v.Ok? {
      v := VerifySignature(lib, report, key);
      if v.Ok? {
        v := MeasurementVerdict(report.Contents(), expected);
      }
    }
  }

  // ---------------------------------------------------------------- properties

  /** The trust anchor's key is `vk`. */
  ghost predicate Anchors(lib: Library, key: AttestationKey, vk: VerifyingKey) {
    match key
    case Mock => lib.sec1Key(lib.mockSec1) == Some(vk)
    case Amd(chain) => exists ark, ask :: AmdCerts.LeadsTo(lib, chain, ark, ask, vk)
  }

  lemma AnchorExactly(lib: Library, key: AttestationKey, vk: VerifyingKey)
    ensures AnchorKey(lib, key) == Ok(vk) <==> Anchors(lib, key, vk)
  {
    if key.Amd? {
      AmdCerts.ReturnsExactly(lib, key.vcekChain, vk);
    }
  }

  /** The anchor's key accepts the signature in bytes 672-719 and 744-791 over the 672 bytes in front. */
  ghost predicate Attested(lib: Library, r: ReportBytes, key: AttestationKey) {
    exists vk, sig ::
      && Anchors(lib, key, vk) && lib.fixedSignature(r[672..720] + r[744..792]) == Some(sig)
      && lib.verifies(vk, r[..672], sig)
  }

  lemma AttestedExactly(lib: Library, r: ReportBytes, key: AttestationKey)
    ensures SignatureVerdict(lib, r, key).Ok? <==> Attested(lib, r, key)
  {
    Layout(r);
    if AnchorKey(lib, key).Ok? {
      AnchorExactly(lib, key, AnchorKey(lib, key).value);
    }
    if Attested(lib, r, key) {
      var vk, sig :| Anchors(lib, key, vk) && lib.fixedSignature(r[672..720] + r[744..792]) == Some(sig)
        && lib.verifies(vk, r[..672], sig);
      AnchorExactly(lib, key, vk);
    }
  }

  /** Exactly when a report is accepted, in terms of its bytes. */
  lemma AcceptedExactly(lib: Library, r: ReportBytes, key: AttestationKey, expected: MeasurementBytes, spki: bytes)
    ensures Verdict(lib, r, key, expected, spki).Ok? <==>
      && r[80..112] == lib.sha256(spki) && Attested(lib, r, key)
      && (expected == Zeros(48) || r[144..192] == expected)
  {
    Layout(r);
    AttestedExactly(lib, r, key);
    assert BoundHash(r) == r[80..112];
  }

  lemma SubRange(a: bytes, b: bytes, lo: nat, hi: nat, from: nat, to: nat)
    requires lo <= from <= to <= hi <= |a| && |a| == |b| && a[lo..hi] == b[lo..hi]
    ensures a[from..to] == b[from..to]
  {
    forall i | from <= i < to ensures a[i] == b[i] {
      assert a[lo..hi][i - lo] == b[lo..hi][i - lo];
    }
  }

  /** Only bytes 0-671, 672-719 and 744-791 decide the verdict, error payloads included. */
  lemma DependsOnlyOn(a: ReportBytes, b: ReportBytes, lib: Library, key: AttestationKey, expected: MeasurementBytes,
                      spki: bytes)
    requires a[..672] == b[..672] && a[672..720] == b[672..720] && a[744..792] == b[744..792]
    ensures Verdict(lib, a, key, expected, spki) == Verdict(lib, b, key, expected, spki)
  {
    assert a[0..672] == b[0..672];
    SubRange(a, b, 0, 672, OFF_REPORT_DATA, OFF_REPORT_DATA + REPORT_DATA_SIZE);
    SubRange(a, b, 0, 672, OFF_MEASUREMENT, OFF_MEASUREMENT + MEASUREMENT_SIZE);
  }

  /** Every error is returned exactly when the checks before its own pass and its own fails. */
  lemma RefusedExactly(lib: Library, r: ReportBytes, key: AttestationKey, expected: MeasurementBytes, spki: bytes)
    ensures var v, bound := Verdict(lib, r, key, expected, spki), r[80..112] == lib.sha256(spki);
      var sig := lib.fixedSignature(r[672..720] + r[744..792]);
      && (v == Err(KeyBindingMismatch(Hex.Encode(r[80..112]), Hex.Encode(lib.sha256(spki)))) <==> !bound)
      && (v == Err(Internal) <==> bound && sig.Some? && key.Mock? && lib.sec1Key(lib.mockSec1).None?)
      && (forall e :: v == Err(CertChain(e)) <==>
            bound && sig.Some? && key.Amd? && AmdCerts.FailsWith(lib, key.vcekChain, e))
      && (v == Err(BadSignature) <==>
            bound && !Attested(lib, r, key) && (sig.Some? ==> exists vk :: Anchors(lib, key, vk)))
      && (v == Err(MeasurementMismatch(Hex.Encode(expected), Hex.Encode(r[144..192]))) <==>
            bound && Attested(lib, r, key) && expected != Zeros(48) && r[144..192] != expected)
  {
    Layout(r);
    AttestedExactly(lib, r, key);
    assert BoundHash(r) == r[80..112];
    forall vk ensures AnchorKey(lib, key) == Ok(vk) <==> Anchors(lib, key, vk) { AnchorExactly(lib, key, vk); }
    if key.Amd? {
      forall e
        ensures AmdCerts.VcekVerifyingKey(lib, key.vcekChain) == Err(e) <==> AmdCerts.FailsWith(lib, key.vcekChain, e)
      {
        AmdCerts.FailsExactly(lib, key.vcekChain, e);
      }
    }
  }
}
