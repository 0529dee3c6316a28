/** The mock signer: a report built and signed in place, with a key that is public. */
module Mock {
  import opened Basics
  import opened Crypto
  import opened Reports
  import Verify
  import Hex

  /** The fields of a mock report, before its signature. */
  function Unsigned(hash: Digest, measurement: MeasurementBytes): ReportBytes {
    var a := Splice(Zeros(REPORT_SIZE), OFF_VERSION, [2, 0, 0, 0]);
    var b := Splice(a, OFF_SIG_ALGO, [1, 0, 0, 0]);
    var c := Splice(b, OFF_REPORT_DATA, hash);
    Splice(c, OFF_MEASUREMENT, measurement)
  }

  function MockSignature(lib: Library, r: ReportBytes): (sig: bytes)
    ensures MockKeyWorks(lib) ==> |sig| == 96
  {
    lib.mockSign(SignedRegion(r)).fixed
  }

  function MockReport(lib: Library, hash: Digest, measurement: MeasurementBytes): ReportBytes
    requires MockKeyWorks(lib)
  {
    var r := Unsigned(hash, measurement);
    var sig := MockSignature(lib, r);
    WriteS(WriteR(r, sig[..48]), sig[48..])
  }

  /** `sign_mock_report`: the buffer is signed, then the signature is stored in the same buffer. */
  method SignMockReport(lib: Library, hash: Digest, measurement: MeasurementBytes) returns (report: Report)
    requires MockKeyWorks(lib)
    ensures fresh(report) && fresh(report.raw) && report.Valid()
    ensures report.Contents() == MockReport(lib, hash, measurement)
  {
    report := new Report.Default();
    var raw := report.raw;
    CopyInto(raw, OFF_VERSION, [2, 0, 0, 0]);
    CopyInto(raw, OFF_SIG_ALGO, [1, 0, 0, 0]);
    CopyInto(raw, OFF_REPORT_DATA, hash);
    CopyInto(raw, OFF_MEASUREMENT, measurement);
    assert raw[..] == Unsigned(hash, measurement);
    var sig := lib.mockSign(raw[..SIGNED_REGION_SIZE]).fixed;
    assert raw[..SIGNED_REGION_SIZE] == SignedRegion(raw[..]);
    CopyInto(raw, OFF_SIG_R, sig[..48]);
    CopyInto(raw, OFF_SIG_S, sig[48..]);
  }

  method TlsPubkeyHash(lib: Library, spki: bytes) returns (d: Digest)
    ensures d == lib.sha256(spki)
  {
    var h := new Sha256(lib);
    h.Update(spki);
    assert h.fed == spki;
    d := h.Finalize();
  }

  /** Every byte of a mock report but its signature. */
  ghost predicate Drafted(r: ReportBytes, hash: Digest, measurement: MeasurementBytes) {
    && r[0..4] == [2, 0, 0, 0] && r[52..56] == [1, 0, 0, 0] && r[80..112] == hash && r[144..192] == measurement
    && forall i :: 4 <= i < 52 || 56 <= i < 80 || 112 <= i < 144 || 192 <= i < 672 || 720 <= i < 744 || 792 <= i < 1184
         ==> r[i] == 0
  }

  /** What a mock report holds, byte by byte, and that the stored signature is over the region it now lies behind. */
  lemma MockFields(lib: Library, hash: Digest, measurement: MeasurementBytes)
    requires MockKeyWorks(lib)
    ensures var r := MockReport(lib, hash, measurement);
      Drafted(r, hash, measurement) && r[672..720] + r[744..792] == lib.mockSign(r[..672]).fixed
  {
    var u := Unsigned(hash, measurement);
    var sig := MockSignature(lib, u);
    var r := MockReport(lib, hash, measurement);
    UnsignedFields(hash, measurement);
    ReplayTwo(u, sig[..48], sig[48..]);
    WriteHistory(u, [R(sig[..48]), S(sig[48..])]);
    assert LastS(u, [R(sig[..48]), S(sig[48..])]) == sig[48..];
    assert [R(sig[..48]), S(sig[48..])][..1] == [R(sig[..48])];
    assert sig == sig[..48] + sig[48..];
    Layout(r);
    Layout(u);
    SameDraft(u, r, hash, measurement);
  }

  lemma SameDraft(u: ReportBytes, r: ReportBytes, hash: Digest, measurement: MeasurementBytes)
    requires Drafted(u, hash, measurement) && forall i :: 0 <= i < 1184 && !InSlot(i) ==> r[i] == u[i]
    ensures Drafted(r, hash, measurement)
  {
    assert r[0..4] == u[0..4] && r[52..56] == u[52..56] && r[80..112] == u[80..112] && r[144..192] == u[144..192];
  }

  lemma ReplayTwo(b: ReportBytes, r: Scalar, s: Scalar)
    ensures Replay(b, [R(r), S(s)]) == WriteS(WriteR(b, r), s)
  {
    assert [R(r), S(s)][1..] == [S(s)];
    assert Replay(WriteR(b, r), [S(s)]) == Replay(WriteS(WriteR(b, r), s), []) by {
      assert [S(s)][1..] == [];
    }
  }

  lemma UnsignedFields(hash: Digest, measurement: MeasurementBytes)
    ensures Drafted(Unsigned(hash, measurement), hash, measurement)
  {
  }

  /** A mock report passes for its own key exactly when the expected measurement is zero or its own. */
  lemma MockVerdict(lib: Library, spki: bytes, measurement: MeasurementBytes, expected: MeasurementBytes)
    requires MockKeyWorks(lib)
    ensures var v := Verify.Verdict(lib, MockReport(lib, lib.sha256(spki), measurement), Verify.Mock, expected, spki);
      v == if expected == Zeros(MEASUREMENT_SIZE) || expected == measurement then Ok(())
           else Err(Verify.MeasurementMismatch(Hex.Encode(expected), Hex.Encode(measurement)))
  {
    MockFields(lib, lib.sha256(spki), measurement);
    Layout(MockReport(lib, lib.sha256(spki), measurement));
  }

  /**
    A mock report altered in its signed region, its signature kept, is never accepted unless the mock
    key also accepts the altered region; the error tells whether the bound hash was touched.
   */
  lemma Tampered(lib: Library, spki: bytes, measurement: MeasurementBytes, t: ReportBytes, expected: MeasurementBytes)
    requires MockKeyWorks(lib)
    requires var r := MockReport(lib, lib.sha256(spki), measurement);
      && t[672..720] == r[672..720] && t[744..792] == r[744..792]
      && !lib.verifies(lib.mockKey, t[..672], lib.mockSign(r[..672]))
    ensures var r := MockReport(lib, lib.sha256(spki), measurement);
      Verify.Verdict(lib, t, Verify.Mock, expected, spki) ==
        if t[80..112] != r[80..112]
        then Err(Verify.KeyBindingMismatch(Hex.Encode(t[80..112]), Hex.Encode(lib.sha256(spki))))
        else Err(Verify.BadSignature)
  {
    MockFields(lib, lib.sha256(spki), measurement);
    Layout(t);
    assert Verify.BoundHash(t) == t[80..112];
  }
}
