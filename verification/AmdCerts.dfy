/** The AMD certificate chain: ARK signs itself and the ASK, the ASK signs the VCEK. */
module AmdCerts {
  import opened Basics
  import opened Crypto

  datatype SigError = TbsEncode | EmptySignature | DerSignature | Mismatch

  datatype ChainError =
    | TooShort(got: nat)
    | DerParse
    | EmptyKey
    | KeyParse
    | ArkSelfSignature(e: SigError)
    | AskSignature(e: SigError)
    | VcekSignature(e: SigError)

  function ExtractKey(lib: Library, cert: Certificate): Result<VerifyingKey, ChainError> {
    var bits :- OkOr(cert.tbs.spki.keyBits, EmptyKey);
    OkOr(lib.sec1Key(bits), KeyParse)
  }

  function CheckSignature(lib: Library, cert: Certificate, issuer: VerifyingKey): Result<(), SigError> {
    var tbs :- OkOr(lib.tbsDer(cert.tbs), TbsEncode);
    var bits :- OkOr(cert.signature, EmptySignature);
    var sig :- OkOr(lib.derSignature(bits), DerSignature);
    if lib.verifies(issuer, tbs, sig) then Ok(()) else Err(Mismatch)
  }

  function MapErr(r: Result<(), SigError>, f: SigError -> ChainError): Result<(), ChainError> {
    match r
    case Ok(u) => Ok(u)
    case Err(e) => Err(f(e))
  }

  /** `vcek_verifying_key`, for a chain in the order VCEK, ASK, ARK. */
  function VcekVerifyingKey(lib: Library, chain: seq<bytes>): Result<VerifyingKey, ChainError> {
    if |chain| < 3 then Err(TooShort(|chain|))
    else
      var vcek :- OkOr(lib.certificate(chain[0]), DerParse);
      var ask :- OkOr(lib.certificate(chain[1]), DerParse);
      var ark :- OkOr(lib.certificate(chain[2]), DerParse);
      var arkKey :- ExtractKey(lib, ark);
      var _ :- MapErr(CheckSignature(lib, ark, arkKey), e => ArkSelfSignature(e));
      var _ :- MapErr(CheckSignature(lib, ask, arkKey), e => AskSignature(e));
      var askKey :- ExtractKey(lib, ask);
      var _ :- MapErr(CheckSignature(lib, vcek, askKey), e => VcekSignature(e));
      ExtractKey(lib, vcek)
  }

  /** The key a certificate carries, where there is one. */
  function SubjectKey(lib: Library, tbs: Tbs): Option<VerifyingKey> {
    var bits :- tbs.spki.keyBits;
    lib.sec1Key(bits)
  }

  /** `issuer` made a signature over the re-encoded body of the certificate. */
  ghost predicate SignedBy(lib: Library, issuer: VerifyingKey, cert: Certificate) {
    exists m, bits, sig ::
      && lib.tbsDer(cert.tbs) == Some(m) && cert.signature == Some(bits)
      && lib.derSignature(bits) == Some(sig) && lib.verifies(issuer, m, sig)
  }

  predicate Parses(lib: Library, chain: seq<bytes>) {
    |chain| >= 3 && forall i :: 0 <= i < 3 ==> lib.certificate(chain[i]).Some?
  }

  function CertAt(lib: Library, chain: seq<bytes>, i: nat): Certificate
    requires Parses(lib, chain) && i < 3
  {
    lib.certificate(chain[i]).value
  }

  function KeyAt(lib: Library, chain: seq<bytes>, i: nat): Option<VerifyingKey>
    requires Parses(lib, chain) && i < 3
  {
    SubjectKey(lib, CertAt(lib, chain, i).tbs)
  }

  /** The key of certificate `i` signed certificate `j`. */
  ghost predicate Link(lib: Library, chain: seq<bytes>, i: nat, j: nat)
    requires Parses(lib, chain) && i < 3 && j < 3
  {
    KeyAt(lib, chain, i).Some? && SignedBy(lib, KeyAt(lib, chain, i).value, CertAt(lib, chain, j))
  }

  /** The chain leads from the root key `ark` through `ask` to `key`. */
  ghost predicate LeadsTo(lib: Library, chain: seq<bytes>, ark: VerifyingKey, ask: VerifyingKey, key: VerifyingKey) {
    && Parses(lib, chain)
    && KeyAt(lib, chain, 2) == Some(ark) && KeyAt(lib, chain, 1) == Some(ask) && KeyAt(lib, chain, 0) == Some(key)
    && Link(lib, chain, 2, 2) && Link(lib, chain, 2, 1) && Link(lib, chain, 1, 0)
  }

  lemma CheckIsSignedBy(lib: Library, cert: Certificate, issuer: VerifyingKey)
    ensures CheckSignature(lib, cert, issuer).Ok? <==> SignedBy(lib, issuer, cert)
  {
    if lib.tbsDer(cert.tbs).Some? && cert.signature.Some? && lib.derSignature(cert.signature.value).Some? {
      var m, sig := lib.tbsDer(cert.tbs).value, lib.derSignature(cert.signature.value).value;
      assert lib.verifies(issuer, m, sig) ==> SignedBy(lib, issuer, cert);
    }
  }

  lemma CheckIsLink(lib: Library, chain: seq<bytes>, i: nat, j: nat)
    requires Parses(lib, chain) && i < 3 && j < 3 && KeyAt(lib, chain, i).Some?
    ensures CheckSignature(lib, CertAt(lib, chain, j), KeyAt(lib, chain, i).value).Ok? <==> Link(lib, chain, i, j)
  {
    CheckIsSignedBy(lib, CertAt(lib, chain, j), KeyAt(lib, chain, i).value);
  }

  /** A key is returned exactly for the chains that lead to it, whatever follows the third certificate. */
  lemma ReturnsExactly(lib: Library, chain: seq<bytes>, key: VerifyingKey)
    ensures VcekVerifyingKey(lib, chain) == Ok(key) <==> exists ark, ask :: LeadsTo(lib, chain, ark, ask, key)
    ensures |chain| >= 3 ==> VcekVerifyingKey(lib, chain) == VcekVerifyingKey(lib, chain[..3])
  {
    if Parses(lib, chain) && KeyAt(lib, chain, 2).Some? {
      CheckIsLink(lib, chain, 2, 2);
      CheckIsLink(lib, chain, 2, 1);
      if KeyAt(lib, chain, 1).Some? {
        CheckIsLink(lib, chain, 1, 0);
        var ark, ask := KeyAt(lib, chain, 2).value, KeyAt(lib, chain, 1).value;
        assert VcekVerifyingKey(lib, chain) == Ok(key) ==> LeadsTo(lib, chain, ark, ask, key);
      }
    }
  }

  // ---------------------------------------------------------------- which error a chain draws

  /** Certificate `i` has no key: its bits are not whole bytes, or no point. */
  predicate NoKey(lib: Library, chain: seq<bytes>, i: nat, e: ChainError)
    requires Parses(lib, chain) && i < 3
  {
    && KeyAt(lib, chain, i).None?
    && e == if CertAt(lib, chain, i).tbs.spki.keyBits.None? then EmptyKey else KeyParse
  }

  /** The key of certificate `i` did not sign certificate `j`, and `e` is what that lacks. */
  ghost predicate Broken(lib: Library, chain: seq<bytes>, i: nat, j: nat, e: SigError)
    requires Parses(lib, chain) && i < 3 && j < 3
  {
    var cert := CertAt(lib, chain, j);
    && KeyAt(lib, chain, i).Some? && !Link(lib, chain, i, j)
    && (e == TbsEncode <==> lib.tbsDer(cert.tbs).None?)
    && (e == EmptySignature <==> lib.tbsDer(cert.tbs).Some? && cert.signature.None?)
    && (e == DerSignature <==>
          lib.tbsDer(cert.tbs).Some? && cert.signature.Some? && lib.derSignature(cert.signature.value).None?)
  }

  /** The error names the first thing wrong, from the root (certificate 2) to the chip (certificate 0). */
  ghost predicate FailsWith(lib: Library, chain: seq<bytes>, e: ChainError) {
    match e
    case TooShort(got) => got == |chain| && |chain| < 3
    case DerParse => |chain| >= 3 && !Parses(lib, chain)
    case ArkSelfSignature(x) => Parses(lib, chain) && Broken(lib, chain, 2, 2, x)
    case AskSignature(x) => Parses(lib, chain) && Link(lib, chain, 2, 2) && Broken(lib, chain, 2, 1, x)
    case VcekSignature(x) =>
      Parses(lib, chain) && Link(lib, chain, 2, 2) && Link(lib, chain, 2, 1) && Broken(lib, chain, 1, 0, x)
    case _ =>
      && Parses(lib, chain)
      && (|| NoKey(lib, chain, 2, e)
          || (Link(lib, chain, 2, 2) && Link(lib, chain, 2, 1) && NoKey(lib, chain, 1, e))
          || (Link(lib, chain, 2, 2) && Link(lib, chain, 2, 1) && Link(lib, chain, 1, 0) && NoKey(lib, chain, 0, e)))
  }

  lemma CheckBroken(lib: Library, chain: seq<bytes>, i: nat, j: nat)
    requires Parses(lib, chain) && i < 3 && j < 3 && KeyAt(lib, chain, i).Some?
    ensures var r := CheckSignature(lib, CertAt(lib, chain, j), KeyAt(lib, chain, i).value);
      forall e :: r == Err(e) <==> Broken(lib, chain, i, j, e)
  {
    CheckIsLink(lib, chain, i, j);
  }

  /** Every error is returned exactly when it names the first thing wrong with the chain. */
  lemma FailsExactly(lib: Library, chain: seq<bytes>, e: ChainError)
    ensures VcekVerifyingKey(lib, chain) == Err(e) <==> FailsWith(lib, chain, e)
  {
    if Parses(lib, chain) && KeyAt(lib, chain, 2).Some? {
      CheckIsLink(lib, chain, 2, 2);
      CheckBroken(lib, chain, 2, 2);
      CheckIsLink(lib, chain, 2, 1);
      CheckBroken(lib, chain, 2, 1);
      if KeyAt(lib, chain, 1).Some? {
        CheckIsLink(lib, chain, 1, 0);
        CheckBroken(lib, chain, 1, 0);
      }
    }
  }
}
