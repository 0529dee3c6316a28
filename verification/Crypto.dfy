/**
  The libraries the programs call but do not contain: SHA-256, P-384 ECDSA, SEC1 points and X.509 DER.
  They are the function-valued fields of a `Library`; what a theorem needs of them is among its
  premises, so nothing is taken for granted about a library that no theorem asks for.
 */
module Crypto {
  import opened Basics

  type Digest = d: bytes | |d| == 32 witness Zeros(32)

  datatype VerifyingKey = VerifyingKey(point: bytes)

  /** An ECDSA signature by its fixed-size form, R then S. */
  datatype Signature = Signature(fixed: bytes)

  /** Key bits are absent when the BIT STRING has unused bits, which `as_bytes` refuses. */
  datatype Spki = Spki(algorithm: bytes, keyBits: Option<bytes>)

  datatype Extension = Extension(oid: seq<nat>, value: bytes)

  /** The signed part of a certificate: its key, its extensions, and the fields no program looks at. */
  datatype Tbs = Tbs(spki: Spki, extensions: Option<seq<Extension>>, rest: bytes)

  datatype Certificate = Certificate(tbs: Tbs, signature: Option<bytes>)

  datatype Library = Library(
    sha256: bytes -> Digest,
    certificate: bytes -> Option<Certificate>,
    tbsDer: Tbs -> Option<bytes>,
    spkiDer: Spki -> Option<bytes>,
    sec1Key: bytes -> Option<VerifyingKey>,
    fixedSignature: bytes -> Option<Signature>,
    derSignature: bytes -> Option<Signature>,
    verifies: (VerifyingKey, bytes, Signature) -> bool,
    tlsKey: bytes -> Option<VerifyingKey>,
    mockKey: VerifyingKey,
    mockSec1: bytes,
    mockSign: bytes -> Signature
  )

  /** The mock key pair works: its public half parses, and accepts what its private half signs. */
  ghost predicate MockKeyWorks(lib: Library) {
    && lib.sec1Key(lib.mockSec1) == Some(lib.mockKey)
    && forall m :: var sig := lib.mockSign(m);
      |sig.fixed| == 96 && lib.fixedSignature(sig.fixed) == Some(sig) && lib.verifies(lib.mockKey, m, sig)
  }

  /** The streaming hasher: `update` appends, `finalize` hashes what was fed. */
  class Sha256 {
    const lib: Library
    var fed: bytes

    constructor (lib: Library)
      ensures this.lib == lib && fed == []
    {
      this.lib := lib;
      fed := [];
    }

    method Update(data: bytes)
      modifies this
      ensures fed == old(fed) + data
    {
      fed := fed + data;
    }

    method Finalize() returns (d: Digest)
      ensures d == lib.sha256(fed)
    {
      d := lib.sha256(fed);
    }
  }
}
