/** The 1184-byte attestation report (AMD SEV-SNP ABI, Rev 1.57, Table 22) and its buffer. */
module Reports {
  import opened Basics

  const REPORT_SIZE := 1184
  const SIGNED_REGION_SIZE := 0x2A0
  const OFF_VERSION := 0x000
  const OFF_SIG_ALGO := 0x034
  const OFF_REPORT_DATA := 0x050
  const OFF_MEASUREMENT := 0x090
  const OFF_SIG_R := 0x2A0
  const OFF_SIG_S := 0x2E8
  const REPORT_DATA_SIZE := 64
  const MEASUREMENT_SIZE := 48
  const SIG_SCALAR_SIZE := 48

  type ReportBytes = b: bytes | |b| == REPORT_SIZE witness Zeros(REPORT_SIZE)

  type MeasurementBytes = b: bytes | |b| == MEASUREMENT_SIZE witness Zeros(MEASUREMENT_SIZE)

  type Scalar = b: bytes | |b| == SIG_SCALAR_SIZE witness Zeros(SIG_SCALAR_SIZE)

  function ReportData(r: ReportBytes): bytes {
    r[OFF_REPORT_DATA..OFF_REPORT_DATA + REPORT_DATA_SIZE]
  }

  function Measurement(r: ReportBytes): MeasurementBytes {
    r[OFF_MEASUREMENT..OFF_MEASUREMENT + MEASUREMENT_SIZE]
  }

  function SigR(r: ReportBytes): Scalar {
    r[OFF_SIG_R..OFF_SIG_R + SIG_SCALAR_SIZE]
  }

  function SigS(r: ReportBytes): Scalar {
    r[OFF_SIG_S..OFF_SIG_S + SIG_SCALAR_SIZE]
  }

  function SignedRegion(r: ReportBytes): bytes {
    r[..SIGNED_REGION_SIZE]
  }

  /** Where the fields lie, in numbers. */
  lemma Layout(r: ReportBytes)
    ensures ReportData(r) == r[80..144] && Measurement(r) == r[144..192]
    ensures SigR(r) == r[672..720] && SigS(r) == r[744..792] && SignedRegion(r) == r[..672]
  {
  }

  /** `b` with `src` copied over the bytes from `off`. */
  function Splice(b: bytes, off: nat, src: bytes): (c: bytes)
    requires off + |src| <= |b|
    ensures |c| == |b|
    ensures forall i :: 0 <= i < |b| ==> c[i] == if off <= i < off + |src| then src[i - off] else b[i]
  {
    b[..off] + src + b[off + |src|..]
  }

  /** `copy_from_slice` into a part of a buffer. */
  method CopyInto(dst: array<byte>, off: nat, src: bytes)
    requires off + |src| <= dst.Length
    modifies dst
    ensures dst[..] == Splice(old(dst[..]), off, src)
  {
    forall i | 0 <= i < |src| {
      dst[off + i] := src[i];
    }
    assert forall i :: 0 <= i < dst.Length ==> dst[i] == Splice(old(dst[..]), off, src)[i];
  }

  /** The report buffer, written in place. */
  class Report {
    const raw: array<byte>

    ghost predicate Valid()
    {
      raw.Length == REPORT_SIZE
    }

    function Contents(): ReportBytes
      requires Valid()
      reads raw
    {
      raw[..]
    }

    constructor (b: ReportBytes)
      ensures Valid() && fresh(raw) && Contents() == b
    {
      raw := new byte[REPORT_SIZE](i requires 0 <= i < REPORT_SIZE => b[i]);
    }

    constructor Default()
      ensures Valid() && fresh(raw) && Contents() == Zeros(REPORT_SIZE)
    {
      raw := new byte[REPORT_SIZE](_ => 0);
    }

    method SetSigR(r: Scalar)
      requires Valid()
      modifies raw
      ensures Contents() == WriteR(old(Contents()), r)
    {
      CopyInto(raw, OFF_SIG_R, r);
    }

    method SetSigS(s: Scalar)
      requires Valid()
      modifies raw
      ensures Contents() == WriteS(old(Contents()), s)
    {
      CopyInto(raw, OFF_SIG_S, s);
    }
  }

  function WriteR(b: ReportBytes, r: Scalar): ReportBytes {
    Splice(b, OFF_SIG_R, r)
  }

  function WriteS(b: ReportBytes, s: Scalar): ReportBytes {
    Splice(b, OFF_SIG_S, s)
  }

  // ---------------------------------------------------------------- histories of signature writes

  datatype Write = R(v: Scalar) | S(v: Scalar)

  function Replay(b: ReportBytes, ws: seq<Write>): ReportBytes
    decreases |ws|
  {
    if ws == [] then b
    else Replay(match ws[0] case R(v) => WriteR(b, v) case S(v) => WriteS(b, v), ws[1..])
  }

  /** The R written last, or the one that was there before any write. */
  function LastR(b: ReportBytes, ws: seq<Write>): Scalar {
    if ws == [] then SigR(b)
    else if ws[|ws| - 1].R? then ws[|ws| - 1].v
    else LastR(b, ws[..|ws| - 1])
  }

  function LastS(b: ReportBytes, ws: seq<Write>): Scalar {
    if ws == [] then SigS(b)
    else if ws[|ws| - 1].S? then ws[|ws| - 1].v
    else LastS(b, ws[..|ws| - 1])
  }

  predicate InSlot(i: int) {
    OFF_SIG_R <= i < OFF_SIG_R + SIG_SCALAR_SIZE || OFF_SIG_S <= i < OFF_SIG_S + SIG_SCALAR_SIZE
  }

  lemma {:induction false} ReplaySnoc(b: ReportBytes, ws: seq<Write>, w: Write)
    ensures Replay(b, ws + [w]) == Replay(Replay(b, ws), [w])
    decreases |ws|
  {
    if ws == [] {
      assert ws + [w] == [w];
    } else {
      var next := match ws[0] case R(v) => WriteR(b, v) case S(v) => WriteS(b, v);
      assert (ws + [w])[1..] == ws[1..] + [w];
      ReplaySnoc(next, ws[1..], w);
    }
  }

  lemma ReplayOne(b: ReportBytes, w: Write)
    ensures var c := Replay(b, [w]);
      && SignedRegion(c) == SignedRegion(b)
      && (forall i :: 0 <= i < REPORT_SIZE && !InSlot(i) ==> c[i] == b[i])
      && SigR(c) == (if w.R? then w.v else SigR(b))
      && SigS(c) == (if w.S? then w.v else SigS(b))
  {
    assert [w][1..] == [];
    assert Replay(b, [w]) == match w case R(v) => WriteR(b, v) case S(v) => WriteS(b, v);
  }

  /**
    After any history of writes the signed region stands, so does every byte outside the slots,
    and each slot holds its last write.
   */
  lemma {:induction false} WriteHistory(b: ReportBytes, ws: seq<Write>)
    ensures SignedRegion(Replay(b, ws)) == SignedRegion(b)
    ensures forall i :: 0 <= i < REPORT_SIZE && !InSlot(i) ==> Replay(b, ws)[i] == b[i]
    ensures SigR(Replay(b, ws)) == LastR(b, ws) && SigS(Replay(b, ws)) == LastS(b, ws)
    decreases |ws|
  {
    if ws != [] {
      var init, w := ws[..|ws| - 1], ws[|ws| - 1];
      WriteHistory(b, init);
      ReplaySnoc(b, init, w);
      assert ws == init + [w];
      ReplayOne(Replay(b, init), w);
    }
  }
}
