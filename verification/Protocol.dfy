/**
  The attestation protocol as a step system over a log of signatures. Honest keys sign only what their
  holders sign; everyone else is the adversary, who may show the client any bytes at all. The client's
  steps run the verdict functions of the other modules, with signature checking looked up in the log.
 */
module Protocol {
  import opened Basics
  import opened Crypto
  import opened Reports
  import AmdCerts
  import Verifier

  datatype Config = Config(lib: Library, ark: VerifyingKey)

  datatype Entry = Entry(key: VerifyingKey, msg: bytes, sig: Signature)

  /** A server process in a TEE: the TLS key pair it generated at its start. */
  datatype Instance = Instance(key: VerifyingKey, spki: bytes)

  datatype State = State(
    log: set<Entry>,
    adversary: set<VerifyingKey>,
    asks: set<VerifyingKey>,
    chips: set<VerifyingKey>,
    servers: set<Instance>
  )

  datatype Event =
    /** AMD's root certifies itself or an intermediate key. */
    | ArkSigns(subject: VerifyingKey, tbs: Tbs, sig: Signature)
    /** An intermediate certifies a chip key. */
    | AskSigns(ask: VerifyingKey, subject: VerifyingKey, tbs: Tbs, sig: Signature)
    /** A chip issues a report, for whatever software asks. */
    | ChipReports(chip: VerifyingKey, region: bytes, sig: Signature)
    /** A server starts and generates its key pair. */
    | ServerStarts(server: Instance)
    /** A server signs a certificate for itself. */
    | ServerCertifies(server: Instance, tbs: Tbs, sig: Signature)
    /** A server signs a TLS 1.3 handshake. */
    | ServerHandshakes(server: Instance, transcript: bytes, sig: Signature)
    /** The adversary signs anything with any key of its own. */
    | AdversarySigns(key: VerifyingKey, msg: bytes, sig: Signature)
    /** The adversary turns a signature into another one on the same message, as ECDSA allows. */
    | AdversaryMauls(entry: Entry, sig: Signature)
    /** A client accepts a certificate. */
    | ClientAccepts(verifier: Verifier.AttestationVerifier, endEntity: bytes, context: Verifier.Context)
    /** A client accepts the handshake signature made for a certificate. */
    | ClientHandshakes(endEntity: bytes, transcript: bytes, sig: Signature)

  // ---------------------------------------------------------------- steps

  function Init(cfg: Config): State {
    State({}, {cfg.lib.mockKey}, {}, {}, {})
  }

  predicate Fresh(cfg: Config, s: State, k: VerifyingKey) {
    && k != cfg.ark && k !in s.adversary && k !in s.asks && k !in s.chips
    && forall i :: i in s.servers ==> i.key != k
  }

  /** The libraries with signature checking as it stands in this state. */
  function Ideal(cfg: Config, s: State): Library {
    cfg.lib.(verifies := (k, m, sig) => Entry(k, m, sig) in s.log)
  }

  /** What a server signs in its CertificateVerify message (section 4.4.3 of RFC 8446). */
  function HandshakeContent(transcript: bytes): bytes {
    seq(64, _ => 0x20) + Ascii("TLS 1.3, server CertificateVerify") + [0] + transcript
  }

  function PresentedSpki(lib: Library, endEntity: bytes): Option<bytes> {
    var cert :- lib.certificate(endEntity);
    lib.spkiDer(cert.tbs.spki)
  }

  /** `verify_tls13_signature`: the certificate's own key signed the handshake. */
  predicate HandshakeValid(lib: Library, endEntity: bytes, transcript: bytes, sig: Signature) {
    && PresentedSpki(lib, endEntity).Some?
    && var key := lib.tlsKey(PresentedSpki(lib, endEntity).value);
    key.Some? && lib.verifies(key.value, HandshakeContent(transcript), sig)
  }

  predicate Enabled(cfg: Config, s: State, e: Event) {
    match e
    case ArkSigns(subject, tbs, _) =>
      && (subject == cfg.ark || subject in s.asks || Fresh(cfg, s, subject))
      && AmdCerts.SubjectKey(cfg.lib, tbs) == Some(subject) && cfg.lib.tbsDer(tbs).Some?
    case AskSigns(ask, subject, tbs, _) =>
      && ask in s.asks && (subject in s.chips || Fresh(cfg, s, subject))
      && AmdCerts.SubjectKey(cfg.lib, tbs) == Some(subject) && cfg.lib.tbsDer(tbs).Some?
    case ChipReports(chip, region, _) => chip in s.chips && |region| == SIGNED_REGION_SIZE
    case ServerStarts(server) => Fresh(cfg, s, server.key) && cfg.lib.tlsKey(server.spki) == Some(server.key)
    case ServerCertifies(server, tbs, _) => server in s.servers && cfg.lib.tbsDer(tbs).Some?
    case ServerHandshakes(server, _, _) => server in s.servers
    case AdversarySigns(key, _, _) => key in s.adversary || Fresh(cfg, s, key)
    case AdversaryMauls(entry, _) => entry in s.log
    case ClientAccepts(v, endEntity, context) => Verifier.VerifyServerCert(Ideal(cfg, s), v, endEntity, context).Ok?
    case ClientHandshakes(endEntity, transcript, sig) => HandshakeValid(Ideal(cfg, s), endEntity, transcript, sig)
  }

  /** The key and the message of an event that makes a signature. */
  function Signs(cfg: Config, e: Event): Option<(VerifyingKey, bytes)> {
    match e
    case ArkSigns(_, tbs, _) =>
      var m :- cfg.lib.tbsDer(tbs);
      Some((cfg.ark, m))
    case AskSigns(ask, _, tbs, _) =>
      var m :- cfg.lib.tbsDer(tbs);
      Some((ask, m))
    case ChipReports(chip, region, _) => Some((chip, region))
    case ServerCertifies(server, tbs, _) =>
      var m :- cfg.lib.tbsDer(tbs);
      Some((server.key, m))
    case ServerHandshakes(server, transcript, _) => Some((server.key, HandshakeContent(transcript)))
    case AdversarySigns(key, msg, _) => Some((key, msg))
    case AdversaryMauls(entry, _) => Some((entry.key, entry.msg))
    case _ => None
  }

  function Apply(cfg: Config, s: State, e: Event): State {
    var log :=
      match Signs(cfg, e)
      case None => s.log
      case Some((key, msg)) => s.log + {Entry(key, msg, e.sig)};
    match e
    case ArkSigns(subject, _, _) =>
      s.(log := log, asks := if subject == cfg.ark then s.asks else s.asks + {subject})
    case AskSigns(_, subject, _, _) => s.(log := log, chips := s.chips + {subject})
    case ServerStarts(server) => s.(servers := s.servers + {server})
    case AdversarySigns(key, _, _) => s.(log := log, adversary := s.adversary + {key})
    case _ => s.(log := log)
  }

  function After(cfg: Config, run: seq<Event>): State {
    if run == [] then Init(cfg) else Apply(cfg, After(cfg, run[..|run| - 1]), run[|run| - 1])
  }

  /** A run: each event is enabled in the state that the ones before it lead to. */
  predicate Run(cfg: Config, run: seq<Event>) {
    run != [] ==>
      && Run(cfg, run[..|run| - 1])
      && Enabled(cfg, After(cfg, run[..|run| - 1]), run[|run| - 1])
  }

  // ---------------------------------------------------------------- the invariant

  /** No key has two kinds of holder, and no two servers share one. */
  predicate RolesApart(cfg: Config, s: State) {
    && cfg.ark !in s.adversary && cfg.ark !in s.asks && cfg.ark !in s.chips
    && s.asks !! s.chips && s.asks !! s.adversary && s.chips !! s.adversary
    && (forall i :: i in s.servers ==>
          i.key != cfg.ark && i.key !in s.adversary && i.key !in s.asks && i.key !in s.chips)
    && (forall i, j :: i in s.servers && j in s.servers && i.key == j.key ==> i == j)
  }

  /** The parties of an event have the roles in which they acted. */
  predicate Placed(cfg: Config, s: State, e: Event) {
    match e
    case ArkSigns(subject, tbs, _) =>
      (subject == cfg.ark || subject in s.asks) && AmdCerts.SubjectKey(cfg.lib, tbs) == Some(subject)
    case AskSigns(ask, subject, tbs, _) =>
      ask in s.asks && subject in s.chips && AmdCerts.SubjectKey(cfg.lib, tbs) == Some(subject)
    case ChipReports(chip, region, _) => chip in s.chips && |region| == SIGNED_REGION_SIZE
    case ServerStarts(server) => server in s.servers && cfg.lib.tlsKey(server.spki) == Some(server.key)
    case ServerCertifies(server, _, _) => server in s.servers
    case ServerHandshakes(server, _, _) => server in s.servers
    case AdversarySigns(key, _, _) => key in s.adversary
    case _ => true
  }

  /** The holder of the key signed the message in this run. */
  ghost predicate SignedIn(cfg: Config, run: seq<Event>, key: VerifyingKey, msg: bytes) {
    exists i :: 0 <= i < |run| && !run[i].AdversaryMauls? && Signs(cfg, run[i]) == Some((key, msg))
  }

  ghost predicate Started(run: seq<Event>, server: Instance) {
    ServerStarts(server) in run
  }

  ghost predicate Invariant(cfg: Config, run: seq<Event>, s: State) {
    && RolesApart(cfg, s)
    && (forall i :: 0 <= i < |run| ==> Placed(cfg, s, run[i]))
    && (forall e :: e in s.log ==> SignedIn(cfg, run, e.key, e.msg))
    && (forall server :: server in s.servers ==> Started(run, server))
  }

  lemma StepRoles(cfg: Config, s: State, e: Event)
    requires RolesApart(cfg, s) && Enabled(cfg, s, e)
    ensures RolesApart(cfg, Apply(cfg, s, e)) && Placed(cfg, Apply(cfg, s, e), e)
  {
  }

  lemma StepKeepsPlaces(cfg: Config, s: State, e: Event, past: Event)
    requires Placed(cfg, s, past)
    ensures Placed(cfg, Apply(cfg, s, e), past)
  {
  }

  lemma SignedInSnoc(cfg: Config, run: seq<Event>, e: Event, key: VerifyingKey, msg: bytes)
    requires SignedIn(cfg, run, key, msg)
    ensures SignedIn(cfg, run + [e], key, msg)
  {
    var i :| 0 <= i < |run| && !run[i].AdversaryMauls? && Signs(cfg, run[i]) == Some((key, msg));
    assert (run + [e])[i] == run[i];
  }

  lemma StepLog(cfg: Config, run: seq<Event>, s: State, e: Event)
    requires Invariant(cfg, run, s) && Enabled(cfg, s, e)
    ensures forall x :: x in Apply(cfg, s, e).log ==> SignedIn(cfg, run + [e], x.key, x.msg)
  {
    forall x | x in Apply(cfg, s, e).log ensures SignedIn(cfg, run + [e], x.key, x.msg) {
      if x in s.log {
        SignedInSnoc(cfg, run, e, x.key, x.msg);
      } else if e.AdversaryMauls? {
        SignedInSnoc(cfg, run, e, e.entry.key, e.entry.msg);
      } else {
        assert (run + [e])[|run|] == e;
      }
    }
  }

  lemma StepInvariant(cfg: Config, run: seq<Event>, s: State, e: Event)
    requires Invariant(cfg, run, s) && Enabled(cfg, s, e)
    ensures Invariant(cfg, run + [e], Apply(cfg, s, e))
  {
    StepRoles(cfg, s, e);
    StepLog(cfg, run, s, e);
    forall i | 0 <= i < |run + [e]| ensures Placed(cfg, Apply(cfg, s, e), (run + [e])[i]) {
      if i < |run| {
        StepKeepsPlaces(cfg, s, e, run[i]);
      }
    }
  }

  /** In every reachable state roles are apart, parties acted in their roles, and every log entry has its signer. */
  lemma {:induction false} Reachable(cfg: Config, run: seq<Event>)
    requires cfg.ark != cfg.lib.mockKey && Run(cfg, run)
    ensures Invariant(cfg, run, After(cfg, run))
    decreases |run|
  {
    if run != [] {
      var init, last := run[..|run| - 1], run[|run| - 1];
      Reachable(cfg, init);
      StepInvariant(cfg, init, After(cfg, init), last);
      assert run == init + [last];
    }
  }

  lemma {:induction false} RunPrefix(cfg: Config, run: seq<Event>, i: nat)
    requires Run(cfg, run) && i < |run|
    ensures Run(cfg, run[..i]) && Enabled(cfg, After(cfg, run[..i]), run[i])
    decreases |run|
  {
    if i < |run| - 1 {
      var init := run[..|run| - 1];
      RunPrefix(cfg, init, i);
      assert init[..i] == run[..i];
    }
  }

  // ---------------------------------------------------------------- the adversary is free

  lemma {:induction false} AdversaryKeeps(cfg: Config, run: seq<Event>)
    requires Run(cfg, run)
    ensures cfg.lib.mockKey in After(cfg, run).adversary
    decreases |run|
  {
    if run != [] {
      AdversaryKeeps(cfg, run[..|run| - 1]);
    }
  }

  /**
    At the end of every run the adversary can sign anything with the mock key, with any key it has used
    and with any key no one holds, and can turn any signature into any other on the same message.
   */
  lemma AdversaryMoves(cfg: Config, run: seq<Event>, key: VerifyingKey, entry: Entry, msg: bytes, sig: Signature)
    requires Run(cfg, run)
    ensures var s := After(cfg, run);
      var holds := key == cfg.lib.mockKey || key in s.adversary || Fresh(cfg, s, key);
      && (holds ==> Run(cfg, run + [AdversarySigns(key, msg, sig)]))
      && (entry in s.log ==> Run(cfg, run + [AdversaryMauls(entry, sig)]))
      && Entry(key, msg, sig) in After(cfg, run + [AdversarySigns(key, msg, sig)]).log
      && Entry(entry.key, entry.msg, sig) in After(cfg, run + [AdversaryMauls(entry, sig)]).log
  {
    AdversaryKeeps(cfg, run);
    assert (run + [AdversarySigns(key, msg, sig)])[..|run|] == run;
    assert (run + [AdversaryMauls(entry, sig)])[..|run|] == run;
  }
}
