# Sifir RA-TLS, verified

This project models the attestation path of the Sifir proof of concept and proves properties of it. A
server in a TEE binds a 1184-byte report to its TLS key and puts report, certificate chain and an
optional GPU token into a certificate extension; a client decides from that extension whether to trust
the peer. `dafny verify dfyconfig.toml` checks everything.

The model has three layers.

- **Codecs.** `Base64`, `Hex`, `Utf8`, `Text` (lines, trimming, splitting), `Pem`, `Json` and `Serde` are
  real parsers and printers on bytes and characters. `PemGrammar` says what the PEM loop accepts without
  naming its variables; `PemPrinting` says what it undoes. `JsonNumbers`, `JsonStrings` and `JsonGrammar`
  hold the grammar of RFC 8259 and the proof that the parser reads exactly its texts. JSON strings stay
  raw until a field asks for them, as in serde_json, so ignored values may hold what a Rust string cannot.
- **Programs.** `Reports`, `Mock`, `Verify`, `AmdCerts`, `AttestExt`, `GpuVerify`, `Verifier` and `Server`
  follow the source file by file. The report buffer, the mock signer, the signature check, the PEM loop
  and the setups are classes and methods that write in place, each proved equal to a function; the
  properties are proved about those functions.
- **Protocol.** `Protocol` is a step system over a log of signatures. AMD's root and intermediates sign
  certificate bodies, chips sign reports for whatever software asks, servers start with fresh keys and
  sign their certificates and handshakes. The adversary signs anything with its own keys, turns any
  signature into another on the same message, and shows clients any bytes at all: a client's event
  carries an arbitrary certificate. The client's steps call the same verdict functions as the rest of
  the model, with signature checking looked up in the log. `Guarantees` holds the theorems over runs,
  `HonestRun` shows runs that exist, and `Example` closed instances of all premises.

SHA-256, ECDSA, SEC1 and X.509 DER are fields of one record, `Crypto.Library`; a theorem that needs
something of them has it as a premise. No theorem takes SHA-256 to be injective, which no function to 32
bytes is: where it matters, the premise is that the presented key does not collide with a server's.

Things the proofs brought out, all of them behaviour of the code as it stands:

- `vcek_chain_der` decodes every entry of the chain, so an entry behind the third can change the verdict,
  although `vcek_verifying_key` never looks at it. `Verifier.ExtraEntries` says exactly when it does not.
- `vcek_verifying_key` accepts chains such as root, root, root. A certificate body that AMD signs and that
  is exactly 672 bytes long passes for a report if, and only if, its bytes 80 to 111 are the hash of the
  presented key and bytes 144 to 191 the expected measurement, unless that is zero
  (`HonestRun.LookalikeAccepted`, with a concrete run in `Example`). `Guarantees.ReportKeyIsChip` shows
  that such bodies are the only exception.
- The comment at `poc/crates/sifir-attest/src/amd_certs.rs:45` speaks of issuer == subject; the code checks
  the signature only, and so does the model. The root is not pinned, so theorems name it as a premise.
- The end of a PEM block leaves the collected base64 in place; it is never read again.

## Model

| member | source | states |
|---|---|---|
| Guarantees.AcceptanceIsJustified | poc/crates/sifir-client/src/verifier.rs:50-126 | in every run, a certificate accepted under AMD's root presents a key whose hash, with the expected measurement, a chip reported earlier, or AMD signed a certificate body that reads as such a report |
| Guarantees.AcceptanceNeedsChip | poc/crates/sifir-attest/src/verify.rs:49-62 | when no AMD certificate body has the length of a signed region, only an earlier chip report justifies acceptance |
| Guarantees.PeerIsServer | poc/crates/sifir-client/src/verifier.rs:142-154 | acceptance for an approved measurement and then a valid TLS 1.3 handshake mean a server that generated this key pair, had it reported by a chip before, and signed this transcript |
| Guarantees.ChainKeyRole | poc/crates/sifir-attest/src/amd_certs.rs:45-66 | under AMD's root, for every chain, the key returned is the root's, an intermediate's or a chip's |
| Guarantees.ReportKeyIsChip | poc/crates/sifir-attest/src/verify.rs:93-102 | such a key that verifies a region is no chip key exactly when AMD signed that region as a certificate body |
| Protocol.Reachable | poc/crates/sifir-server/src/tls.rs:58-107 | in every reachable state no key has two kinds of holder, every party acted in its role, and every log entry has its signer in the run |
| Protocol.AdversaryMoves | poc/crates/sifir-attest/src/mock.rs:3-6 | after every run the adversary can sign anything with the mock key, its own or any unheld key, and turn any signature into any other on the same message |
| Guarantees.HandshakeBySameServer | poc/crates/sifir-client/src/verifier.rs:142-154 | a valid handshake signature under a server's key was made by that server for that transcript, never by its certificate signatures |
| HonestRun.HonestRunAccepted | poc/crates/sifir-server/src/tls.rs:58-76 | the honest events form a run, and a client can accept at its end exactly for the zero or the reported measurement and a token that meets its demands |
| HonestRun.GpuRunAccepted | poc/crates/sifir-server/src/tls.rs:85-107 | with a token of any payload, a GPU-checking client accepts exactly when the payload's claims pass, and their nonce is then the hash the report is bound to |
| HonestRun.SessionIsGenuine | poc/crates/sifir-client/src/verifier.rs:142-154 | the premises of the theorem about the peer hold together: an honest run for a non-zero measurement, acceptance and handshake included, meets them all |
| Example.PeerTheoremApplies | poc/crates/sifir-client/src/verifier.rs:105-126 | a closed instance of those premises, with a client that expects a measurement and a GPU token |
| HonestRun.LookalikeVerdict | poc/crates/sifir-attest/src/amd_certs.rs:45-66 | for all libraries: an AMD certificate body shown as a report with its own signature passes exactly when its bytes name the presented key and the expected measurement |
| HonestRun.LookalikeAccepted | poc/crates/sifir-client/src/verifier.rs:50-126 | at the end of any run in which AMD signed such a body, a client accepts a certificate that carries it exactly then |
| HonestRun.LookalikeGenuine | poc/crates/sifir-attest/src/amd_certs.rs:50-54 | such an acceptance meets every premise of the chip theorem but the one about the length of bodies |
| Example.LookalikeRun | poc/crates/sifir-attest/src/amd_certs.rs:33-67 | a concrete run in which the root certifies itself, no chip reports, and a client that expects a measurement accepts |
| Verifier.AcceptedExactly | poc/crates/sifir-client/src/verifier.rs:50-126 | acceptance exactly when the first Sifir extension holds the encoding of a report whose bytes 80-111 are this key's hash, attested by the anchor for equal modes, with the measurement in bytes 144-191 and the GPU demand met |
| Verifier.RefusedExactly | poc/crates/sifir-client/src/verifier.rs:59-123 | every error of the client is returned exactly for its cause, the mode mismatch with the two modes exactly when they differ |
| Verifier.TokenIgnored | poc/crates/sifir-client/src/verifier.rs:104-105 | without the GPU check the decision does not depend on the token |
| Verifier.CoBinding | poc/crates/sifir-client/src/verifier.rs:105-122 | with the GPU check on, the token's nonce is the hex of the accepted report's bound hash and of no other bytes |
| Verifier.Locality | poc/crates/sifir-client/src/verifier.rs:163-181 | the verdict depends on the key and the first Sifir extension only, for any other extensions, fields and handshake context |
| Verifier.FindExactly | poc/crates/sifir-client/src/verifier.rs:172-177 | the search returns an extension exactly when it is the first with the identifier, and nothing exactly when none has it |
| Verifier.ExtraEntries | poc/crates/sifir-client/src/verifier.rs:80-85 | chain entries behind the third keep the verdict exactly when all are base64 or the client fails before it needs the chain |
| Verifier.ExtraEntryMatters | poc/crates/sifir-attest/src/attest_ext.rs:78-83 | one extra entry that is no base64 turns any verdict into a decoding error |
| AmdCerts.ReturnsExactly | poc/crates/sifir-attest/src/amd_certs.rs:33-67 | a key is returned exactly for the chains that lead to it from a self-signed root, whatever follows the third certificate |
| AmdCerts.FailsExactly | poc/crates/sifir-attest/src/amd_certs.rs:34-66 | every error, for length, parsing, keys and signatures, is returned exactly when it names the first thing wrong with the chain, counted from the root |
| Verify.Verify | poc/crates/sifir-attest/src/verify.rs:49-62 | the program over the report buffer computes the verdict, errors included |
| Verify.VerifyKeyBinding | poc/crates/sifir-attest/src/verify.rs:64-81 | the streaming hash check computes the key-binding verdict |
| Verify.VerifySignature | poc/crates/sifir-attest/src/verify.rs:83-103 | the signature put together in a local buffer gives the signature verdict |
| Verify.AcceptedExactly | poc/crates/sifir-attest/src/verify.rs:49-122 | a report is accepted exactly when bytes 80-111 are the key's hash, the anchor's key accepts the signature in 672-719 and 744-791 over bytes 0-671, and bytes 144-191 are the expected measurement or that is zero |
| Verify.DependsOnlyOn | poc/crates/sifir-attest/src/report.rs:51-89 | reports equal on bytes 0-671, 672-719 and 744-791 get the same verdict, error payloads included |
| Verify.RefusedExactly | poc/crates/sifir-attest/src/verify.rs:49-122 | every error is returned exactly when the checks before its own pass and its own fails, chain errors included |
| Mock.SignMockReport | poc/crates/sifir-attest/src/mock.rs:42-72 | the in-place signer yields the specified mock report in a fresh buffer |
| Mock.MockFields | poc/crates/sifir-attest/src/mock.rs:46-69 | every byte of a mock report by its offset, and the stored signature is over bytes 0-671 as they finally stand |
| Mock.MockVerdict | poc/crates/sifir-attest/src/verify.rs:105-122 | a mock report passes for its key exactly when zero or its own measurement is expected |
| Mock.Tampered | poc/crates/sifir-attest/src/verify.rs:57-59 | a mock report changed under its signature is never accepted, and the error tells whether bytes 80-111 changed |
| Mock.TlsPubkeyHash | poc/crates/sifir-attest/src/mock.rs:76-80 | the streaming hash is the hash of the encoded key |
| Reports.Report.SetSigR | poc/crates/sifir-attest/src/report.rs:92-94 | the buffer becomes the old one with R in its slot |
| Reports.Report.SetSigS | poc/crates/sifir-attest/src/report.rs:97-99 | the buffer becomes the old one with S in its slot |
| Reports.Report.constructor | poc/crates/sifir-attest/src/report.rs:33-35 | a report over a fresh copy of the given bytes |
| Reports.Report.Default | poc/crates/sifir-attest/src/report.rs:102-108 | a report of zero bytes |
| Reports.WriteHistory | poc/crates/sifir-attest/src/report.rs:72-99 | after any history of signature writes the signed region and all bytes outside the two slots stand, and each slot holds its last write |
| Reports.Layout | poc/crates/sifir-attest/src/report.rs:51-89 | the offsets of the fields and of the signed region, in numbers |
| Pem.ParsePemBundle | poc/crates/sifir-server/src/amd_attestation.rs:235-265 | the loop computes the specified parse, errors included |
| PemGrammar.LoopIsGrammar | poc/crates/sifir-server/src/amd_attestation.rs:235-265 | success exactly when every END closes an open block of canonical base64 and none stays open, with the decoded bodies in order |
| PemGrammar.FailsExactly | poc/crates/sifir-server/src/amd_attestation.rs:245-262 | the error is that of the first END line that closes nothing or no canonical base64, and otherwise that of an open block |
| PemPrinting.ParseAppend | poc/crates/sifir-server/src/amd_attestation.rs:236-262 | text that ends its line and parses can be cut off in front of any text, errors of the rest included |
| PemPrinting.ErrorStays | poc/crates/sifir-server/src/amd_attestation.rs:245-262 | an error of a first text stays whatever follows exactly when it is not that of an open block |
| PemPrinting.ParsePrinted | poc/crates/sifir-server/src/amd_attestation.rs:240-258 | parsing undoes every printing: any line widths, padding, blank lines, line ends and text between blocks |
| PemPrinting.Base64Line | poc/crates/sifir-server/src/amd_attestation.rs:241-256 | trimming never removes a base64 character and no piece of base64 is a boundary line |
| PemPrinting.FinalNewline | poc/crates/sifir-server/src/amd_attestation.rs:240-258 | a missing line end on the last line makes no difference |
| PemPrinting.StandardValid | poc/crates/sifir-server/src/amd_attestation.rs:273-285 | for every width the usual printing is one of those |
| PemPrinting.ParseOneLine | poc/crates/sifir-server/src/amd_attestation.rs:242-251 | a certificate between the two boundary lines, spelled out, parses to its bytes |
| Text.LinesAppend | poc/crates/sifir-server/src/amd_attestation.rs:240-240 | lines of a concatenation, when the first text ends its last line |
| Text.LinesEnd | poc/crates/sifir-server/src/amd_attestation.rs:240-240 | a line ends at LF, which takes one CR before it along |
| Text.TrimExactly | poc/crates/sifir-server/src/amd_attestation.rs:241-241 | trimming yields exactly the tight text that only white space surrounds |
| Text.WhitespaceExactly | poc/crates/sifir-server/src/amd_attestation.rs:241-241 | white space is the 25 characters of Unicode's White_Space property |
| Base64.DecodeEncode | poc/crates/sifir-attest/src/attest_ext.rs:36-48 | decoding undoes encoding for all bytes in both engines |
| Base64.EncodeDecode | poc/crates/sifir-attest/src/attest_ext.rs:71-83 | every accepted text is the encoding of its bytes |
| Base64.AcceptsExactlyEncodings | poc/crates/sifir-client/src/gpu_verify.rs:108-111 | the engines accept exactly the canonical encodings |
| Base64.EncodeLength | poc/crates/sifir-attest/src/attest_ext.rs:36-36 | the length of an encoding under either padding rule |
| Base64.EncodeAt | poc/crates/sifir-attest/src/attest_ext.rs:36-48 | each character of an encoding without recursion: the digit its six bits are, in the engine's alphabet spelled out, or padding |
| Utf8.DecodeEncode | poc/crates/sifir-attest/src/attest_ext.rs:62-68 | every Rust string survives UTF-8 |
| Utf8.EncodeDecode | poc/crates/sifir-attest/src/attest_ext.rs:66-68 | valid UTF-8 is the one encoding of its text |
| JsonGrammar.DocumentExactly | poc/crates/sifir-attest/src/attest_ext.rs:66-68 | the parser reads a value exactly from its texts by the grammar of RFC 8259, with any space between the parts |
| JsonNumbers.NumberExactly | poc/crates/sifir-client/src/gpu_verify.rs:77-78 | the parser's numbers are exactly those of section 6 of RFC 8259 |
| JsonStrings.UnquoteExactly | poc/crates/sifir-client/src/gpu_verify.rs:77-78 | a raw string reads as a text exactly when it stands for its UTF-8 bytes piece by piece, escapes in either case and surrogates in pairs only |
| JsonGrammar.ParsePrint | poc/crates/sifir-attest/src/attest_ext.rs:62-68 | a printed document, numbers included, parses back to the value printed |
| JsonGrammar.PrintableExactly | poc/crates/sifir-client/src/gpu_verify.rs:77-78 | the values that survive printing are exactly those some document parses to |
| JsonGrammar.PrintShortest | poc/crates/sifir-attest/src/attest_ext.rs:62-64 | no text of a value is shorter than the one printed |
| JsonStrings.EscapeShortest | poc/crates/sifir-attest/src/attest_ext.rs:62-64 | no escape of a byte is shorter than the one written, and its digits are lowercase |
| JsonStrings.UnquoteQuote | poc/crates/sifir-attest/src/attest_ext.rs:62-68 | a quoted string reads back as itself, whatever needs escaping in it |
| JsonStrings.UnquoteMixed | poc/crates/sifir-client/src/gpu_verify.rs:77-78 | the text read does not depend on which characters a writer put into code units, surrogate pairs included |
| AttestExt.RoundTrip | poc/crates/sifir-attest/src/attest_ext.rs:61-68 | every extension survives serialisation |
| AttestExt.FromBytesExactly | poc/crates/sifir-attest/src/attest_ext.rs:14-34 | an extension is read exactly from texts of objects whose members say it under the source's names, or of arrays that list its fields |
| AttestExt.ReportExactly | poc/crates/sifir-attest/src/attest_ext.rs:71-75 | the report decodes exactly from the one encoding of its 1184 bytes |
| AttestExt.ReportTextLength | poc/crates/sifir-attest/src/attest_ext.rs:71-75 | only texts of 1580 characters decode to a report |
| AttestExt.ReportFails | poc/crates/sifir-attest/src/attest_ext.rs:71-75 | which of the two decoding errors a report draws, exactly |
| AttestExt.ChainExactly | poc/crates/sifir-attest/src/attest_ext.rs:78-83 | a chain decodes exactly from the encodings of its certificates in order |
| AttestExt.ChainRoundTrip | poc/crates/sifir-attest/src/attest_ext.rs:45-83 | a chain put into an extension comes out unchanged |
| AttestExt.ChainTail | poc/crates/sifir-attest/src/attest_ext.rs:78-83 | further entries leave the decoded ones alone, and all must decode |
| GpuVerify.ClaimsRoundTrip | poc/crates/sifir-client/src/gpu_verify.rs:49-57 | claims survive serialisation, whichever are present |
| Serde.FieldsExactly | poc/crates/sifir-client/src/gpu_verify.rs:49-57 | fields are found exactly when all keys are strings and no known one comes twice, whatever the order and whatever else is there |
| GpuVerify.ReadsExactly | poc/crates/sifir-client/src/gpu_verify.rs:49-57 | an object reads as given claims exactly when its members say so, among any others and in any order |
| GpuVerify.FromBytesExactly | poc/crates/sifir-client/src/gpu_verify.rs:49-57 | claims are read exactly from texts of objects whose members say them under the source's names, or of arrays that list them |
| GpuVerify.TokenExactly | poc/crates/sifir-client/src/gpu_verify.rs:65-78 | claims are read exactly from three dot-free parts whose second is the encoding of a text of them |
| GpuVerify.PayloadFails | poc/crates/sifir-client/src/gpu_verify.rs:65-75 | a token is refused for its number of parts exactly when that is not three, and for its payload exactly when that encodes nothing |
| GpuVerify.CompactPayload | poc/crates/sifir-client/src/gpu_verify.rs:65-78 | from a compact token the client reads the payload it was made of, for any header, payload bytes and third part without a dot |
| GpuVerify.CompactClaims | poc/crates/sifir-client/src/gpu_verify.rs:65-78 | the client reads given claims from such a token exactly when the payload's members say them |
| GpuVerify.PrintedClaims | poc/crates/sifir-client/src/gpu_verify.rs:65-78 | in particular for every compactly printed payload, with further claims such as numbers |
| GpuVerify.CompactPasses | poc/crates/sifir-client/src/gpu_verify.rs:63-106 | such a token passes exactly when its members give this key's nonce, "on" in any case, and a model |
| GpuVerify.PassesExactly | poc/crates/sifir-client/src/gpu_verify.rs:63-106 | any token passes exactly when its claims do, and those are the claims reported to the caller |
| GpuVerify.ClaimsFail | poc/crates/sifir-client/src/gpu_verify.rs:80-103 | exactly which complaint the claims draw, the missing claim by name: the nonce before the mode and the mode before the model |
| GpuVerify.FailsExactly | poc/crates/sifir-client/src/gpu_verify.rs:63-106 | a token fails exactly for what keeps its claims from being read, or else for what they lack |
| Hex.EncodeAt | poc/crates/sifir-client/src/gpu_verify.rs:81-81 | each byte becomes its two lowercase hexadecimal digits, the high one first |
| Hex.EncodeInjective | poc/crates/sifir-client/src/gpu_verify.rs:81-81 | a hex string names one byte string only |
| Text.SplitJoin | poc/crates/sifir-client/src/gpu_verify.rs:65-65 | splitting undoes joining when no part holds the separator |
| Text.JoinSplit | poc/crates/sifir-client/src/gpu_verify.rs:65-65 | joining undoes splitting for every text |
| Text.SplitExactly | poc/crates/sifir-client/src/gpu_verify.rs:65-65 | splitting yields exactly the separator-free parts that joined are the text |
| Server.BuildMockSetup | poc/crates/sifir-server/src/tls.rs:30-48 | the mock setup's program yields the specified extension and the zero measurement |
| Server.MockSetupPublishes | poc/crates/sifir-server/src/tls.rs:30-48 | the mock setup's extension has the Sifir identifier and reads as the mock report, no chain and no token |
| Server.BuildAmdSetup | poc/crates/sifir-server/src/tls.rs:58-107 | the AMD setups' program: report, chain, token, certificate, each failure reported |
| Server.KeyHashAndUserData | poc/crates/sifir-server/src/tls.rs:124-132 | the hash of the key, and a fresh buffer with it in front of zeros |
| Server.CertificateExtensions | poc/crates/sifir-server/src/tls.rs:141-149 | the certificate carries the one Sifir extension |
| Server.ClientReads | poc/crates/sifir-server/src/tls.rs:141-152 | the client judges the very extension the server embedded |
| Server.MockAccepted | poc/crates/sifir-server/src/tls.rs:30-48 | what any client decides about any certificate with a mock report, every outcome |
| Server.MockSetupAccepted | poc/crates/sifir-server/src/tls.rs:39-42 | a mock client without GPU check accepts the mock setup exactly when it expects zeros |
| Server.ChainTransport | poc/crates/sifir-server/src/amd_attestation.rs:215-231 | from any PEM printing of ASK, ARK and more to the client's decoded chain VCEK, ASK, ARK, with report and token unchanged; too few certificates are refused |
| Server.AmdSetupPublishes | poc/crates/sifir-server/src/tls.rs:58-107 | when chip, key service and sidecar answer, the setup announces bytes 144-191 of the report and publishes one extension that reads as report, VCEK, ASK, ARK and the sidecar's token |
| Server.AmdSetupPrinted | poc/crates/sifir-server/src/amd_attestation.rs:215-231 | the same for every printing of the key service's bundle |
| Server.AmdSetupFails | poc/crates/sifir-server/src/tls.rs:58-107 | each error of the setup is returned exactly when its answer is the first missing |
| Server.AmdVerdict | poc/crates/sifir-client/src/verifier.rs:78-122 | the decision on an AMD certificate is its report's verdict under its chain, then its token's |
| Server.TokenVerdict | poc/crates/sifir-client/src/verifier.rs:105-122 | a token of any payload passes exactly when the payload's claims do |
| Server.AmdSetupAccepted | poc/crates/sifir-server/src/tls.rs:58-107 | a certificate of such a setup is accepted exactly when its report is attested under that chain, zero or the announced measurement is expected, and the token demand is met |

## Left out

- The ioctl, the HTTP fetches, process spawning, randomness and certificate signing: parameters of the setups (`Server.World`) or premises (`Server.Issued`).
- The fields of the report beyond version, user data, measurement and signature; the chip identifier and the TCB version only build a URL.
- Elliptic-curve arithmetic, SHA-256, SEC1 and the X.509 grammar: fields of `Crypto.Library`, with what is needed of them among the premises.
- The private scalar of the mock key: its key pair is a parameter, and the protocol hands it to the adversary at the start.
- A sidecar step in the protocol: the client does not check a token's signature, so where a token comes from decides nothing; only its consistency with the report is claimed.
- The TLS 1.2 signature hook and the list of signature schemes: both go straight to the TLS library.
- The texts of error messages: errors are values with the same cases and payloads, and library error details are dropped.
- Unicode lower-casing beyond ASCII in the GPU mode: no other character has "o" or "n" for its lower case.
- The textual form of the object identifier: the model has its numbers only.
- Proxy, accept loop, command lines, inference server, governance and token economics: nothing there decides the properties above.
