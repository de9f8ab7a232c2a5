/** What two sessions have to do with one another: the keys of one say nothing about the other. */
module RatchetSessions {
  import opened Wrappers
  import opened Ratchet
  import opened RatchetSchedule
  import opened RatchetAgreement
  import opened RatchetSecrecy
  import Bytes

  /** The same identity keys, the same first ephemeral and identity key, the same two identities. */
  predicate SameAgreement(s: Session, t: Session) {
    && SamePair(s.identityA, s.identityB, t.identityA, t.identityB)
    && SamePair(s.ephemeralA, s.identityB, t.ephemeralA, t.identityB)
    && SamePair(s.iidA, s.iidB, t.iidA, t.iidB)
  }

  /** Sessions start from the same root, and from the same chain key, exactly if they agree on all
      of these. */
  lemma SessionSecretsEqualExactly(s: Session, t: Session)
    ensures SessionRoot(s) == SessionRoot(t) <==> SameAgreement(s, t)
    ensures SessionChain(s) == SessionChain(t) <==> SameAgreement(s, t)
  {
    hide KdfInitial, DiffieHellman;
    DiffieHellmanExactly(s.identityA, s.identityB, t.identityA, t.identityB);
    DiffieHellmanExactly(s.ephemeralA, s.identityB, t.ephemeralA, t.identityB);
    var (dh1, dh2) := TwoDhInitiator(s.identityA, s.ephemeralA, Public(s.identityB));
    var (dh1', dh2') := TwoDhInitiator(t.identityA, t.ephemeralA, Public(t.identityB));
    KdfInitialExactly(dh1, dh2, s.iidA, s.iidB, dh1', dh2', t.iidA, t.iidB);
  }

  /** A new ephemeral key makes it another agreement with the same responder. */
  lemma NewEphemeralNewAgreement(s: Session, t: Session)
    requires s.identityB == t.identityB && s.ephemeralA != t.ephemeralA
    ensures !SameAgreement(s, t)
  {
  }

  /** The root at the bottom of a derivation. */
  function Origin(secret: Secret): Secret {
    match secret
    case InitialRoot(_, _, _) => secret
    case InitialChain(dh1, dh2, salt) => InitialRoot(dh1, dh2, salt)
    case NextRoot(root, _) => Origin(root)
    case FirstChain(root, _) => Origin(root)
    case NextChain(chain) => Origin(chain)
    case MessageKey(chain) => Origin(chain)
  }

  lemma {:induction false} IterateOrigin(chain: Secret, n: nat)
    ensures Origin(Iterate(chain, n)) == Origin(chain)
  {
    if n > 0 {
      IterateOrigin(chain, n - 1);
    }
  }

  lemma {:induction false} EpochOrigin(s: Session, es: Epochs, k: nat)
    requires Scheduled(s, es) && k < |es|
    ensures Origin(es[k].root) == SessionRoot(s) && Origin(es[k].start) == SessionRoot(s)
  {
    hide Iterate;
    StartShape(s, es, k);
    if k > 0 {
      EpochOrigin(s, es, k - 1);
    }
  }

  lemma ChainOrigin(s: Session, es: Epochs, k: nat, n: nat)
    requires Scheduled(s, es) && k < |es|
    ensures Origin(Iterate(es[k].start, n)) == SessionRoot(s) && Origin(es[k].KeyAt(n)) == SessionRoot(s)
  {
    EpochOrigin(s, es, k);
    IterateOrigin(es[k].start, n);
  }

  /** Everything a party holds comes from the root its session started from. */
  lemma HeldOrigin(s: Session, es: Epochs, p: Party, st: Ratchet, handed: set<SkippedKeyId>)
    requires Scheduled(s, es) && PartyInv(s, es, p, st, handed)
    ensures forall secret :: secret in SecretsOf(st) ==> Origin(secret) == SessionRoot(s)
  {
    hide Scheduled, ChainsFollow, StoredRight, Positioned, Iterate, SecretsOf, SessionRoot;
    var r := ReceiveEpoch(es, p, st);
    HeldRoot(s, es, p, st);
    EpochOrigin(s, es, RootEpoch(es, p, st));
    if st.sendChain.Some? {
      var k := HeldSendChain(s, es, p, st);
      ChainOrigin(s, es, k, es[k].length);
    }
    forall dh | dh in st.chains ensures Origin(st.chains[dh].chainKey) == SessionRoot(s) {
      var j := HeldChain(es, p, r, st, dh);
      ChainOrigin(s, es, j, st.chains[dh].chainIndex);
    }
    forall id | id in st.skipped ensures Origin(st.skipped[id]) == SessionRoot(s) {
      var j := HeldStored(es, p, r, st, id);
      ChainOrigin(s, es, j, id.n);
    }
    AllHeld(st, SessionRoot(s));
  }

  lemma AllHeld(st: Ratchet, origin: Secret)
    requires Origin(st.root) == origin && (st.sendChain.Some? ==> Origin(st.sendChain.value) == origin)
    requires forall dh :: dh in st.chains ==> Origin(st.chains[dh].chainKey) == origin
    requires forall id :: id in st.skipped ==> Origin(st.skipped[id]) == origin
    ensures forall secret :: secret in SecretsOf(st) ==> Origin(secret) == origin
  {
  }

  /** In every run, and for every message key as well. */
  lemma EveryRunOrigin(s: Session, events: seq<Event>, p: Party)
    requires s.ephemeralA != s.identityB && ValidRun(Start(s), events)
    ensures
      var sys := Run(Start(s), events);
      && (forall secret :: secret in SecretsOf(StateOf(sys, p)) ==> Origin(secret) == SessionRoot(s))
      && (forall packet :: packet in sys.sent ==> Origin(packet.key) == SessionRoot(s))
      && (forall id :: id in sys.handed ==> Origin(sys.handed[id]) == SessionRoot(s))
  {
    hide Scheduled, PartyInv, SecretsOf, SessionRoot;
    EveryRunKeepsInv(s, events);
    SessionStays(Start(s), events);
    var sys := Run(Start(s), events);
    HeldOrigin(s, sys.epochs, p, StateOf(sys, p), sys.handed.Keys);
    forall packet | packet in sys.sent ensures Origin(packet.key) == SessionRoot(s) {
      assert PacketRight(sys.epochs, packet);
      ChainOrigin(s, sys.epochs, packet.epoch, packet.header.n);
    }
  }

  /** Any two runs of two sessions that do not start from the very same agreement: whatever a party
      of the one holds, no party of the other holds, and no message key was drawn, or handed out, in
      both. */
  lemma SessionsShareNothing(s: Session, events: seq<Event>, p: Party, t: Session, others: seq<Event>, q: Party)
    requires s.ephemeralA != s.identityB && ValidRun(Start(s), events)
    requires t.ephemeralA != t.identityB && ValidRun(Start(t), others)
    requires !SameAgreement(s, t)
    ensures
      var a, b := Run(Start(s), events), Run(Start(t), others);
      && SecretsOf(StateOf(a, p)) * SecretsOf(StateOf(b, q)) == {}
      && (forall x, y :: x in a.sent && y in b.sent ==> x.key != y.key)
      && (forall i, j :: i in a.handed && j in b.handed ==> a.handed[i] != b.handed[j])
  {
    hide SecretsOf, SessionRoot, SameAgreement, Run, ValidRun;
    SessionSecretsEqualExactly(s, t);
    EveryRunOrigin(s, events, p);
    EveryRunOrigin(t, others, q);
  }
}
