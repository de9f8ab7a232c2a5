/** Two parties and a network that loses and reorders headers but never hands the same
    header to a successful `ratchet_decrypt` twice.

    A run is a list of events. The system keeps, next to the two ratchet states, a record
    the parties never read: the sending chains in the order they were made, every header
    sent with the sender's message key, and every key the receivers handed out.
  */
module RatchetSchedule {
  import opened Wrappers
  import opened Ratchet
  import Bytes

  datatype Party = Alice | Bob

  function Peer(p: Party): Party {
    if p == Alice then Bob else Alice
  }

  /** The long-term keys and the first ephemeral key of a session. */
  datatype Session = Session(identityA: PrivateKey, ephemeralA: PrivateKey, identityB: PrivateKey, sendingB: PrivateKey,
                             iidA: Bytes.Bytes, iidB: Bytes.Bytes)

  function SessionRoot(s: Session): Secret {
    var (dh1, dh2) := TwoDhInitiator(s.identityA, s.ephemeralA, Public(s.identityB));
    KdfInitial(dh1, dh2, s.iidA, s.iidB).0
  }

  function SessionChain(s: Session): Secret {
    var (dh1, dh2) := TwoDhInitiator(s.identityA, s.ephemeralA, Public(s.identityB));
    KdfInitial(dh1, dh2, s.iidA, s.iidB).1
  }

  function ResponderSecrets(s: Session): (Secret, Secret) {
    var (dh1, dh2) := TwoDhResponder(s.identityB, Public(s.identityA), Public(s.ephemeralA));
    KdfInitial(dh1, dh2, s.iidB, s.iidA)
  }

  function Iterate(chain: Secret, n: nat): Secret {
    if n == 0 then chain else NextChain(Iterate(chain, n - 1))
  }

  /** One sending chain: who sends on it, its DH key, the root and chain key it started
      from, how many keys were drawn from it, and how many its owner drew from the one before. */
  datatype Epoch = Epoch(owner: Party, private: PrivateKey, root: Secret, start: Secret, length: nat, previous: nat)
  {
    /** The `n`-th message key of this chain. */
    function KeyAt(n: nat): Secret {
      MessageKey(Iterate(start, n))
    }
  }

  type Epochs = seq<Epoch>

  /** A header on the network, with the chain it belongs to and the key its sender drew. */
  datatype Packet = Packet(epoch: int, header: RatchetHeader, key: Secret)

  datatype System = System(
    session: Session,
    alice: Ratchet,
    bob: Ratchet,
    begun: bool,
    epochs: Epochs,
    sent: set<Packet>,
    handed: map<SkippedKeyId, Secret>)

  datatype Event =
    | Begin                                          // Bob processes the initial message
    | Send(from: Party, newPrivate: PrivateKey)
    | Deliver(to: Party, header: RatchetHeader)

  function Id(header: RatchetHeader): SkippedKeyId {
    SkippedKeyId(header.dhPublic, header.n)
  }

  function InitialId(s: Session): SkippedKeyId {
    SkippedKeyId(Public(s.ephemeralA), 0)
  }

  function StateOf(sys: System, p: Party): Ratchet {
    if p == Alice then sys.alice else sys.bob
  }

  function WithState(sys: System, p: Party, st: Ratchet): System {
    if p == Alice then sys.(alice := st) else sys.(bob := st)
  }

  /** The newest chain `p` sends on; -1 while Bob has none. */
  function SendEpoch(es: Epochs, p: Party): int {
    if es != [] && es[|es| - 1].owner == p then |es| - 1 else |es| - 2
  }

  /** Alice has drawn the key of the initial message; Bob has not seen it yet. */
  function Start(s: Session): System {
    var alice := Initiator(SessionRoot(s), SessionChain(s), Public(s.identityB), s.ephemeralA);
    var bob := Responder(ResponderSecrets(s).0, ResponderSecrets(s).1, Public(s.ephemeralA), s.sendingB);
    var first := Packet(0, RatchetHeader(Public(s.ephemeralA), 0, 0), MessageKey(SessionChain(s)));
    System(s, InitialMessage(alice).0, bob, false,
           [Epoch(Alice, s.ephemeralA, SessionRoot(s), SessionChain(s), 1, 0)], {first}, map[])
  }

  ghost predicate Unused(sys: System, private: PrivateKey) {
    private != sys.session.identityB && forall k :: 0 <= k < |sys.epochs| ==> sys.epochs[k].private != private
  }

  ghost predicate Enabled(sys: System, e: Event) {
    match e
    case Begin => !sys.begun
    case Send(from, newPrivate) => (from == Bob ==> sys.begun) && Unused(sys, newPrivate)
    case Deliver(to, header) =>
      && (to == Bob ==> sys.begun)
      && Id(header) !in sys.handed
      && exists packet :: packet in sys.sent && packet.header == header && SentTo(sys, packet, to)
  }

  predicate SentTo(sys: System, packet: Packet, to: Party) {
    0 <= packet.epoch < |sys.epochs| && sys.epochs[packet.epoch].owner == Peer(to)
  }

  /** The chain that follows the newest one: the schedule of the protocol. */
  function NextEpoch(es: Epochs, private: PrivateKey): Epoch
    requires es != []
  {
    var last := es[|es| - 1];
    var dh := DiffieHellman(private, Public(last.private));
    Epoch(Peer(last.owner), private, NextRoot(last.root, dh), FirstChain(last.root, dh), 1,
          if |es| >= 2 then es[|es| - 2].length else 0)
  }

  /** The record after one more message key was drawn by `from`. */
  function Recorded(es: Epochs, from: Party, newChain: bool, private: PrivateKey): Epochs {
    var k := SendEpoch(es, from);
    if newChain && es != [] then es + [NextEpoch(es, private)]
    else if 0 <= k then es[k := es[k].(length := es[k].length + 1)]
    else es
  }

  function Handed(sys: System, id: SkippedKeyId, r: Result<Secret, RatchetError>): map<SkippedKeyId, Secret> {
    if r.Success? then sys.handed[id := r.value] else sys.handed
  }

  function Next(sys: System, e: Event): System {
    match e
    case Begin =>
      var (bob, r) := InitialReceive(sys.bob);
      sys.(bob := bob, begun := true, handed := Handed(sys, InitialId(sys.session), r))
    case Send(from, newPrivate) =>
      var st := StateOf(sys, from);
      var sent := Encrypt(st, newPrivate);
      var epochs := Recorded(sys.epochs, from, st.sendChain.None?, newPrivate);
      WithState(sys, from, sent.state).(epochs := epochs,
        sent := sys.sent + {Packet(SendEpoch(epochs, from), sent.header, sent.key)})
    case Deliver(to, header) =>
      var received := Decrypt(StateOf(sys, to), header);
      WithState(sys, to, received.state).(handed := Handed(sys, Id(header), received.result))
  }

  ghost predicate ValidRun(sys: System, events: seq<Event>)
    decreases |events|
  {
    events == [] || (Enabled(sys, events[0]) && ValidRun(Next(sys, events[0]), events[1..]))
  }

  function Run(sys: System, events: seq<Event>): System
    decreases |events|
  {
    if events == [] then sys else Run(Next(sys, events[0]), events[1..])
  }

  // ----- the invariant ----------------------------------------------------------------------

  /** `b` is the chain made in answer to `a`. */
  predicate Follows(a: Epoch, b: Epoch) {
    var dh := DiffieHellman(b.private, Public(a.private));
    b.owner == Peer(a.owner) && b.root == NextRoot(a.root, dh) && b.start == FirstChain(a.root, dh)
  }

  /** The record follows the schedule: owners alternate, each root and start key comes from
      the chain before, and DH keys are distinct. */
  ghost predicate Scheduled(s: Session, es: Epochs) {
    && es != []
    && es[0].(length := 0) == Epoch(Alice, s.ephemeralA, SessionRoot(s), SessionChain(s), 0, 0)
    && (forall k :: 0 < k < |es| ==> Follows(es[k - 1], es[k]))
    && (forall k :: 2 <= k < |es| ==> es[k].previous == es[k - 2].length)
    && (|es| >= 2 ==> es[1].previous == 0)
    && (forall k :: 0 <= k < |es| ==> es[k].length >= 1 && es[k].private != s.identityB)
    && (forall i, j :: 0 <= i < j < |es| ==> es[i].private != es[j].private)
  }

  /** The newest chain `p` receives on: the one before its own newest chain while it is
      still sending, the one after it once it has seen that and dropped its sending chain. */
  function ReceiveEpoch(es: Epochs, p: Party, st: Ratchet): int {
    if st.sendChain.Some? then SendEpoch(es, p) - 1 else SendEpoch(es, p) + 1
  }

  /** Where a party is in the schedule. */
  ghost predicate Positioned(s: Session, es: Epochs, p: Party, st: Ratchet) {
    var k, r := SendEpoch(es, p), ReceiveEpoch(es, p, st);
    && es != [] && r < |es|
    && (k < 0 ==> st.sendChain.None? && st.sendIndex == 0)
    && st.root == es[if k < r then r else k].root
    && (st.sendChain.Some? ==> st.sendChain.value == Iterate(es[k].start, es[k].length))
    && (k >= 0 ==>
          st.sendPrivate == es[k].private && st.previousLength == es[k].previous && st.sendIndex == es[k].length)
    && st.dhReceiving == Public(if r >= 0 then es[r].private else s.identityB)
  }

  /** A receiving chain sits at the `chainIndex`-th iterate of its epoch's start key. */
  predicate OnChain(e: Epoch, chain: ReceivingChain) {
    chain.chainIndex <= e.length && chain.chainKey == Iterate(e.start, chain.chainIndex)
  }

  /** Chain `j` is one that a party receiving up to chain `r` has installed. */
  predicate Installed(es: Epochs, p: Party, r: int, j: int) {
    0 <= j <= r && j < |es| && es[j].owner == Peer(p)
  }

  /** The receiving chains are exactly the installed ones, each on its epoch's chain, and
      every chain but the newest has been run to its end. */
  ghost predicate ChainsFollow(es: Epochs, p: Party, r: int, chains: map<PublicKey, ReceivingChain>) {
    && (forall dh :: dh in chains ==> exists j :: Installed(es, p, r, j) && es[j].private == dh.of)
    && (forall j :: Installed(es, p, r, j) ==>
          && Public(es[j].private) in chains
          && OnChain(es[j], chains[Public(es[j].private)])
          && (j < r ==> chains[Public(es[j].private)].chainIndex == es[j].length))
  }

  /** `id` names a key of chain `j` that has been passed, and `key` is that key. */
  predicate RightKey(es: Epochs, p: Party, r: int, chains: map<PublicKey, ReceivingChain>, j: int, id: SkippedKeyId,
                     key: Secret) {
    && Installed(es, p, r, j) && es[j].private == id.dhPublic.of
    && id.dhPublic in chains && id.n < chains[id.dhPublic].chainIndex
    && key == es[j].KeyAt(id.n)
  }

  ghost predicate StoredRight(es: Epochs, p: Party, r: int, st: Ratchet) {
    forall id :: id in st.skipped ==> exists j :: RightKey(es, p, r, st.chains, j, id, st.skipped[id])
  }

  /** Every key a chain has passed is stored or was handed out. */
  ghost predicate NothingLost(st: Ratchet, handed: set<SkippedKeyId>) {
    forall dh, n :: dh in st.chains && 0 <= n < st.chains[dh].chainIndex ==>
      SkippedKeyId(dh, n) in st.skipped || SkippedKeyId(dh, n) in handed
  }

  /** The receiving half of the invariant, for a state whose newest installed chain is `r`. */
  ghost predicate Receiving(es: Epochs, p: Party, r: int, st: Ratchet, handed: set<SkippedKeyId>) {
    && ChainsFollow(es, p, r, st.chains) && StoredRight(es, p, r, st) && NothingLost(st, handed)
    && |st.skipped| <= st.maxSkip
  }

  ghost predicate PartyInv(s: Session, es: Epochs, p: Party, st: Ratchet, handed: set<SkippedKeyId>) {
    Positioned(s, es, p, st) && Receiving(es, p, ReceiveEpoch(es, p, st), st, handed)
  }

  /** A packet's header and key are those of its place in the schedule. */
  predicate PacketRight(es: Epochs, packet: Packet) {
    var k := packet.epoch;
    && 0 <= k < |es|
    && packet.header.dhPublic == Public(es[k].private)
    && packet.header.pn == es[k].previous
    && packet.header.n < es[k].length
    && packet.key == es[k].KeyAt(packet.header.n)
  }

  ghost predicate SentRight(sys: System) {
    forall packet :: packet in sys.sent ==> PacketRight(sys.epochs, packet)
  }

  /** Every key handed out is one its sender drew for that header. */
  ghost predicate HandedRight(sys: System) {
    forall id :: id in sys.handed ==>
      exists packet :: packet in sys.sent && Id(packet.header) == id && packet.key == sys.handed[id]
  }

  ghost predicate BegunRight(sys: System) {
    var first := InitialId(sys.session);
    && Packet(0, RatchetHeader(first.dhPublic, 0, 0), MessageKey(SessionChain(sys.session))) in sys.sent
    && (sys.begun ==> first in sys.handed)
    && (!sys.begun ==>
          && |sys.epochs| == 1 && sys.handed == map[]
          && first.dhPublic in sys.bob.chains && sys.bob.chains[first.dhPublic].chainIndex == 0)
  }

  ghost predicate Inv(sys: System) {
    && Scheduled(sys.session, sys.epochs)
    && PartyInv(sys.session, sys.epochs, Alice, sys.alice, sys.handed.Keys)
    && PartyInv(sys.session, sys.epochs, Bob, sys.bob, sys.handed.Keys)
    && SentRight(sys) && HandedRight(sys) && BegunRight(sys)
  }

  lemma StartInv(s: Session)
    requires s.ephemeralA != s.identityB
    ensures Inv(Start(s))
  {
    var sys := Start(s);
    InitialSecretsAgree(s.identityA, s.ephemeralA, s.identityB, s.iidA, s.iidB);
    assert Iterate(SessionChain(s), 1) == NextChain(Iterate(SessionChain(s), 0));
    assert Installed(sys.epochs, Bob, 0, 0);
  }

  // ----- sending ------------------------------------------------------------------------------

  /** Chains were added or got longer, but not the ones `p` has received and left behind. */
  ghost predicate Grows(es: Epochs, es1: Epochs, p: Party, r: int) {
    && |es| <= |es1|
    && (forall k :: 0 <= k < |es| ==>
          && es1[k] == es[k].(length := es1[k].length) && es[k].length <= es1[k].length
          && (es[k].owner == Peer(p) && k < r ==> es1[k].length == es[k].length))
  }

  /** `es1` continues `es` without `p` having sent anything. */
  ghost predicate Continues(es: Epochs, es1: Epochs, p: Party, r: int) {
    && Grows(es, es1, p, r)
    && SendEpoch(es1, p) == SendEpoch(es, p)
    && (forall k :: 0 <= k < |es| && es[k].owner == p ==> es1[k].length == es[k].length)
  }

  lemma ChainsContinue(es: Epochs, es1: Epochs, p: Party, r: int, chains: map<PublicKey, ReceivingChain>)
    requires r < |es| && Grows(es, es1, p, r) && ChainsFollow(es, p, r, chains)
    ensures ChainsFollow(es1, p, r, chains)
  {
    forall dh | dh in chains ensures exists j :: Installed(es1, p, r, j) && es1[j].private == dh.of {
      var j :| Installed(es, p, r, j) && es[j].private == dh.of;
      assert Installed(es1, p, r, j) && es1[j].private == dh.of;
    }
    forall j | Installed(es1, p, r, j)
      ensures Public(es1[j].private) in chains && OnChain(es1[j], chains[Public(es1[j].private)])
      ensures j < r ==> chains[Public(es1[j].private)].chainIndex == es1[j].length
    {
      assert Installed(es, p, r, j);
    }
  }

  lemma StoreContinues(es: Epochs, es1: Epochs, p: Party, r: int, st: Ratchet)
    requires r < |es| && Grows(es, es1, p, r) && StoredRight(es, p, r, st)
    ensures StoredRight(es1, p, r, st)
  {
    forall id | id in st.skipped ensures exists j :: RightKey(es1, p, r, st.chains, j, id, st.skipped[id]) {
      var j :| RightKey(es, p, r, st.chains, j, id, st.skipped[id]);
      assert RightKey(es1, p, r, st.chains, j, id, st.skipped[id]);
    }
  }

  lemma PositionContinues(s: Session, es: Epochs, es1: Epochs, p: Party, st: Ratchet)
    requires Positioned(s, es, p, st) && Continues(es, es1, p, ReceiveEpoch(es, p, st))
    requires SendEpoch(es, p) >= 0 ==> es[SendEpoch(es, p)].owner == p
    ensures Positioned(s, es1, p, st) && ReceiveEpoch(es1, p, st) == ReceiveEpoch(es, p, st)
  {
  }

  lemma PartyContinues(s: Session, es: Epochs, es1: Epochs, p: Party, st: Ratchet, handed: set<SkippedKeyId>)
    requires PartyInv(s, es, p, st, handed) && Continues(es, es1, p, ReceiveEpoch(es, p, st))
    requires SendEpoch(es, p) >= 0 ==> es[SendEpoch(es, p)].owner == p
    ensures PartyInv(s, es1, p, st, handed)
  {
    var r := ReceiveEpoch(es, p, st);
    PositionContinues(s, es, es1, p, st);
    ChainsContinue(es, es1, p, r, st.chains);
    StoreContinues(es, es1, p, r, st);
  }

  lemma OwnersAlternate(s: Session, es: Epochs, p: Party)
    requires Scheduled(s, es)
    ensures es != [] && es[0].owner == Alice
    ensures var k := SendEpoch(es, p);
      && -1 <= k && (k >= 0 ==> es[k].owner == p)
      && (k + 1 < |es| ==> es[k + 1].owner == Peer(p)) && (k >= 1 ==> es[k - 1].owner == Peer(p))
  {
  }

  /** Recording a message of `from` touches the last of its chains and nothing else. */
  lemma RecordedAt(es: Epochs, from: Party, newChain: bool, private: PrivateKey)
    requires es != [] && (newChain || 0 <= SendEpoch(es, from))
    ensures
      var es1, k := Recorded(es, from, newChain, private), SendEpoch(es, from);
      && |es1| == (if newChain then |es| + 1 else |es|)
      && (forall i :: 0 <= i < |es| && (newChain || i != k) ==> es1[i] == es[i])
      && (newChain ==> es1[|es|] == NextEpoch(es, private))
      && (!newChain ==> es1[k] == es[k].(length := es[k].length + 1))
  {
  }

  /** A message `p` has not received does not disturb `p`. */
  lemma PeerContinues(s: Session, es: Epochs, p: Party, st: Ratchet, private: PrivateKey, newChain: bool)
    requires Scheduled(s, es) && Positioned(s, es, p, st)
    requires if newChain then es[|es| - 1].owner == p else 0 <= SendEpoch(es, Peer(p))
    ensures Continues(es, Recorded(es, Peer(p), newChain, private), p, ReceiveEpoch(es, p, st))
  {
    hide Scheduled;
    OwnersAlternate(s, es, p);
    OwnersAlternate(s, es, Peer(p));
    RecordedAt(es, Peer(p), newChain, private);
    if !newChain {
      assert ReceiveEpoch(es, p, st) <= SendEpoch(es, Peer(p));
    }
  }

  lemma RecordScheduled(s: Session, es: Epochs, p: Party, private: PrivateKey, newChain: bool)
    requires Scheduled(s, es) && private != s.identityB
    requires forall k :: 0 <= k < |es| ==> es[k].private != private
    requires newChain || 0 <= SendEpoch(es, p)
    ensures Scheduled(s, Recorded(es, p, newChain, private))
  {
    var es1 := Recorded(es, p, newChain, private);
    RecordedAt(es, p, newChain, private);
    forall k | 0 < k < |es1| ensures Follows(es1[k - 1], es1[k]) {
      if k < |es| { assert Follows(es[k - 1], es[k]); }
    }
    forall k | 2 <= k < |es1| ensures es1[k].previous == es1[k - 2].length {
      if k < |es| { assert es[k].previous == es[k - 2].length; }
    }
  }

  /** A sender without a sending chain starts the next one of the schedule. */
  lemma NewChainPositioned(s: Session, es: Epochs, p: Party, st: Ratchet, private: PrivateKey)
    requires Scheduled(s, es) && Positioned(s, es, p, st) && st.sendChain.None?
    ensures
      var sent, es1 := Encrypt(st, private), es + [NextEpoch(es, private)];
      && es[|es| - 1].owner == Peer(p)
      && Positioned(s, es1, p, sent.state) && ReceiveEpoch(es1, p, sent.state) == ReceiveEpoch(es, p, st)
      && PacketRight(es1, Packet(|es|, sent.header, sent.key)) && SendEpoch(es1, p) == |es|
  {
    OwnersAlternate(s, es, p);
    var es1 := es + [NextEpoch(es, private)];
    assert es1[|es|] == NextEpoch(es, private);
    assert Iterate(es1[|es|].start, 1) == NextChain(Iterate(es1[|es|].start, 0));
  }

  lemma SameChainPositioned(s: Session, es: Epochs, p: Party, st: Ratchet, private: PrivateKey)
    requires Scheduled(s, es) && Positioned(s, es, p, st) && st.sendChain.Some?
    ensures
      var sent, k := Encrypt(st, private), SendEpoch(es, p);
      var es1 := Recorded(es, p, false, private);
      && 0 <= k == SendEpoch(es1, p)
      && Positioned(s, es1, p, sent.state) && ReceiveEpoch(es1, p, sent.state) == ReceiveEpoch(es, p, st)
      && PacketRight(es1, Packet(k, sent.header, sent.key))
  {
    OwnersAlternate(s, es, p);
    RecordedAt(es, p, false, private);
    var k := SendEpoch(es, p);
    assert Iterate(es[k].start, es[k].length + 1) == NextChain(Iterate(es[k].start, es[k].length));
  }

  lemma SenderGrows(s: Session, es: Epochs, p: Party, newChain: bool, private: PrivateKey, r: int)
    requires Scheduled(s, es) && (newChain || 0 <= SendEpoch(es, p))
    ensures Grows(es, Recorded(es, p, newChain, private), p, r)
  {
    OwnersAlternate(s, es, p);
    RecordedAt(es, p, newChain, private);
  }

  /** The sender stays on schedule, and its packet carries the scheduled key. */
  lemma SenderAdvances(s: Session, es: Epochs, p: Party, st: Ratchet, handed: set<SkippedKeyId>, private: PrivateKey)
    requires Scheduled(s, es) && PartyInv(s, es, p, st, handed)
    ensures
      var sent, newChain := Encrypt(st, private), st.sendChain.None?;
      var es1 := Recorded(es, p, newChain, private);
      && (if newChain then es[|es| - 1].owner == Peer(p) else 0 <= SendEpoch(es, p))
      && PartyInv(s, es1, p, sent.state, handed)
      && PacketRight(es1, Packet(SendEpoch(es1, p), sent.header, sent.key))
  {
    var sent, newChain := Encrypt(st, private), st.sendChain.None?;
    var es1 := Recorded(es, p, newChain, private);
    var r := ReceiveEpoch(es, p, st);
    if newChain {
      NewChainPositioned(s, es, p, st, private);
    } else {
      SameChainPositioned(s, es, p, st, private);
    }
    SenderGrows(s, es, p, newChain, private, r);
    ChainsContinue(es, es1, p, r, st.chains);
    StoreContinues(es, es1, p, r, st);
    StoreSame(es1, p, r, st, sent.state);
  }

  lemma StoreSame(es: Epochs, p: Party, r: int, st: Ratchet, st1: Ratchet)
    requires StoredRight(es, p, r, st) && st1.chains == st.chains && st1.skipped == st.skipped
    ensures StoredRight(es, p, r, st1)
  {
  }

  // ----- receiving ----------------------------------------------------------------------------

  lemma {:induction false} SkipFollows(e: Epoch, dh: PublicKey, chain: ReceivingChain, until: nat,
                                       skipped: map<SkippedKeyId, Secret>, maxSkip: nat)
    requires chain.chainKey == Iterate(e.start, chain.chainIndex)
    ensures
      var skip := SkipTo(dh, chain, until, skipped, maxSkip);
      var last := skip.chain.chainIndex;
      && skip.chain.chainKey == Iterate(e.start, last)
      && chain.chainIndex <= last && (last <= until || last == chain.chainIndex) && (skip.ok ==> until <= last)
    decreases until - chain.chainIndex
  {
    if chain.chainIndex < until && |skipped| < maxSkip {
      var id := SkippedKeyId(dh, chain.chainIndex);
      SkipFollows(e, dh, Advance(chain), until, skipped[id := MessageKey(chain.chainKey)], maxSkip);
    }
  }

  /** Where a key in the store after a skip comes from. */
  predicate FromSkip(e: Epoch, skipped: map<SkippedKeyId, Secret>, last: nat, id: SkippedKeyId, key: Secret) {
    || (id in skipped && key == skipped[id])
    || (id.dhPublic == Public(e.private) && id.n < last && key == e.KeyAt(id.n))
  }

  lemma {:induction false} SkipStores(e: Epoch, chain: ReceivingChain, until: nat,
                                      skipped: map<SkippedKeyId, Secret>, maxSkip: nat)
    requires chain.chainKey == Iterate(e.start, chain.chainIndex)
    ensures
      var skip := SkipTo(Public(e.private), chain, until, skipped, maxSkip);
      forall id :: id in skip.skipped ==> FromSkip(e, skipped, skip.chain.chainIndex, id, skip.skipped[id])
    decreases until - chain.chainIndex
  {
    var dh := Public(e.private);
    if chain.chainIndex < until && |skipped| < maxSkip {
      var id0 := SkippedKeyId(dh, chain.chainIndex);
      var skipped1 := skipped[id0 := MessageKey(chain.chainKey)];
      SkipStores(e, Advance(chain), until, skipped1, maxSkip);
      SkipFollows(e, dh, Advance(chain), until, skipped1, maxSkip);
      var skip := SkipTo(dh, Advance(chain), until, skipped1, maxSkip);
      forall id | id in skip.skipped ensures FromSkip(e, skipped, skip.chain.chainIndex, id, skip.skipped[id]) {
        assert FromSkip(e, skipped1, skip.chain.chainIndex, id, skip.skipped[id]);
      }
    }
  }

  lemma {:induction false} SkipKeeps(dh: PublicKey, chain: ReceivingChain, until: nat,
                                     skipped: map<SkippedKeyId, Secret>, maxSkip: nat, id: SkippedKeyId)
    requires id in skipped
    ensures id in SkipTo(dh, chain, until, skipped, maxSkip).skipped
    decreases until - chain.chainIndex
  {
    if chain.chainIndex < until && |skipped| < maxSkip {
      var id0 := SkippedKeyId(dh, chain.chainIndex);
      SkipKeeps(dh, Advance(chain), until, skipped[id0 := MessageKey(chain.chainKey)], maxSkip, id);
    }
  }

  lemma {:induction false} SkipCovers(dh: PublicKey, chain: ReceivingChain, until: nat,
                                      skipped: map<SkippedKeyId, Secret>, maxSkip: nat, n: nat)
    requires chain.chainIndex <= n < SkipTo(dh, chain, until, skipped, maxSkip).chain.chainIndex
    ensures SkippedKeyId(dh, n) in SkipTo(dh, chain, until, skipped, maxSkip).skipped
    decreases until - chain.chainIndex
  {
    if chain.chainIndex < until && |skipped| < maxSkip {
      var id0 := SkippedKeyId(dh, chain.chainIndex);
      var skipped1 := skipped[id0 := MessageKey(chain.chainKey)];
      if n == chain.chainIndex {
        SkipKeeps(dh, Advance(chain), until, skipped1, maxSkip, id0);
      } else {
        SkipCovers(dh, Advance(chain), until, skipped1, maxSkip, n);
      }
    }
  }

  lemma SkipFits(dh: PublicKey, chain: ReceivingChain, until: nat, skipped: map<SkippedKeyId, Secret>, maxSkip: nat)
    requires |skipped| <= maxSkip
    ensures |SkipTo(dh, chain, until, skipped, maxSkip).skipped| <= maxSkip
    decreases until - chain.chainIndex
  {
  }

  /** Moving one installed chain forward keeps the chains on their epochs. */
  lemma ChainMoves(s: Session, es: Epochs, p: Party, r: int, chains: map<PublicKey, ReceivingChain>,
                   chain: ReceivingChain)
    requires Scheduled(s, es) && ChainsFollow(es, p, r, chains) && Installed(es, p, r, r) && OnChain(es[r], chain)
    ensures ChainsFollow(es, p, r, chains[Public(es[r].private) := chain])
  {
    var chains1 := chains[Public(es[r].private) := chain];
    forall j | Installed(es, p, r, j)
      ensures Public(es[j].private) in chains1 && OnChain(es[j], chains1[Public(es[j].private)])
      ensures j < r ==> chains1[Public(es[j].private)].chainIndex == es[j].length
    {
      assert j != r ==> es[j].private != es[r].private;
    }
  }

  lemma RightKeyMoves(es: Epochs, p: Party, r: int, chains: map<PublicKey, ReceivingChain>, dh: PublicKey,
                      chain: ReceivingChain, j: int, id: SkippedKeyId, key: Secret)
    requires RightKey(es, p, r, chains, j, id, key)
    requires dh in chains && chains[dh].chainIndex <= chain.chainIndex
    ensures RightKey(es, p, r, chains[dh := chain], j, id, key)
  {
  }

  lemma SkipKeepsReceiving(s: Session, es: Epochs, p: Party, r: int, st: Ratchet, until: nat, handed: set<SkippedKeyId>)
    requires Scheduled(s, es) && Receiving(es, p, r, st, handed) && Installed(es, p, r, r) && until <= es[r].length
    ensures
      var dh := Public(es[r].private);
      var skip := SkipTo(dh, st.chains[dh], until, st.skipped, st.maxSkip);
      && Receiving(es, p, r, Skipped(st, dh, skip), handed)
      && OnChain(es[r], skip.chain) && (skip.ok ==> until <= skip.chain.chainIndex)
      && (skip.chain.chainIndex <= until || skip.chain == st.chains[dh])
  {
    var e := es[r];
    var dh := Public(e.private);
    var chain := st.chains[dh];
    var skip := SkipTo(dh, chain, until, st.skipped, st.maxSkip);
    var st1 := Skipped(st, dh, skip);
    SkipFollows(e, dh, chain, until, st.skipped, st.maxSkip);
    ChainMoves(s, es, p, r, st.chains, skip.chain);
    SkipFits(dh, chain, until, st.skipped, st.maxSkip);
    SkipStoredRight(s, es, p, r, st, until);
    SkipNothingLost(es, p, r, st, until, handed);
  }

  lemma SkipStoredRight(s: Session, es: Epochs, p: Party, r: int, st: Ratchet, until: nat)
    requires Scheduled(s, es) && ChainsFollow(es, p, r, st.chains)
    requires StoredRight(es, p, r, st) && Installed(es, p, r, r)
    ensures
      var dh := Public(es[r].private);
      StoredRight(es, p, r, Skipped(st, dh, SkipTo(dh, st.chains[dh], until, st.skipped, st.maxSkip)))
  {
    var e := es[r];
    var dh := Public(e.private);
    var skip := SkipTo(dh, st.chains[dh], until, st.skipped, st.maxSkip);
    var st1 := Skipped(st, dh, skip);
    SkipStores(e, st.chains[dh], until, st.skipped, st.maxSkip);
    SkipFollows(e, dh, st.chains[dh], until, st.skipped, st.maxSkip);
    forall id | id in st1.skipped ensures exists j :: RightKey(es, p, r, st1.chains, j, id, st1.skipped[id]) {
      assert FromSkip(e, st.skipped, skip.chain.chainIndex, id, skip.skipped[id]);
      if id in st.skipped && skip.skipped[id] == st.skipped[id] {
        var j :| RightKey(es, p, r, st.chains, j, id, st.skipped[id]);
        RightKeyMoves(es, p, r, st.chains, dh, skip.chain, j, id, st.skipped[id]);
      } else {
        assert RightKey(es, p, r, st1.chains, r, id, st1.skipped[id]);
      }
    }
  }

  lemma SkipNothingLost(es: Epochs, p: Party, r: int, st: Ratchet, until: nat, handed: set<SkippedKeyId>)
    requires ChainsFollow(es, p, r, st.chains) && NothingLost(st, handed) && Installed(es, p, r, r)
    ensures
      var dh := Public(es[r].private);
      NothingLost(Skipped(st, dh, SkipTo(dh, st.chains[dh], until, st.skipped, st.maxSkip)), handed)
  {
    var dh := Public(es[r].private);
    var skip := SkipTo(dh, st.chains[dh], until, st.skipped, st.maxSkip);
    var st1 := Skipped(st, dh, skip);
    forall dh1, n | dh1 in st1.chains && 0 <= n < st1.chains[dh1].chainIndex
      ensures SkippedKeyId(dh1, n) in st1.skipped || SkippedKeyId(dh1, n) in handed
    {
      if dh1 == dh && st.chains[dh].chainIndex <= n {
        SkipCovers(dh, st.chains[dh], until, st.skipped, st.maxSkip, n);
      } else if SkippedKeyId(dh1, n) in st.skipped {
        SkipKeeps(dh, st.chains[dh], until, st.skipped, st.maxSkip, SkippedKeyId(dh1, n));
      }
    }
  }

  /** Taking the next key of chain `r` hands out exactly that key. */
  lemma TakeKeepsReceiving(s: Session, es: Epochs, p: Party, r: int, st: Ratchet, handed: set<SkippedKeyId>)
    requires Scheduled(s, es) && Receiving(es, p, r, st, handed) && Installed(es, p, r, r)
    requires st.chains[Public(es[r].private)].chainIndex < es[r].length
    ensures
      var dh := Public(es[r].private);
      var n := st.chains[dh].chainIndex;
      && Receiving(es, p, r, Taken(st, dh), handed + {SkippedKeyId(dh, n)})
      && MessageKey(st.chains[dh].chainKey) == es[r].KeyAt(n)
  {
    var dh := Public(es[r].private);
    var n := st.chains[dh].chainIndex;
    var st1 := Taken(st, dh);
    assert Iterate(es[r].start, n + 1) == NextChain(Iterate(es[r].start, n));
    ChainMoves(s, es, p, r, st.chains, Advance(st.chains[dh]));
    TakeStoredRight(es, p, r, st, dh);
    TakeNothingLost(st, dh, handed);
  }

  lemma TakeStoredRight(es: Epochs, p: Party, r: int, st: Ratchet, dh: PublicKey)
    requires StoredRight(es, p, r, st) && dh in st.chains
    ensures StoredRight(es, p, r, Taken(st, dh))
  {
    var st1 := Taken(st, dh);
    forall id | id in st1.skipped ensures exists j :: RightKey(es, p, r, st1.chains, j, id, st1.skipped[id]) {
      var j :| RightKey(es, p, r, st.chains, j, id, st.skipped[id]);
      RightKeyMoves(es, p, r, st.chains, dh, Advance(st.chains[dh]), j, id, st.skipped[id]);
    }
  }

  lemma TakeNothingLost(st: Ratchet, dh: PublicKey, handed: set<SkippedKeyId>)
    requires NothingLost(st, handed) && dh in st.chains
    ensures NothingLost(Taken(st, dh), handed + {SkippedKeyId(dh, st.chains[dh].chainIndex)})
  {
  }

  /** A packet of the newest installed chain, whose key is neither stored nor handed out. */
  lemma TakeCurrent(s: Session, es: Epochs, p: Party, r: int, st: Ratchet, handed: set<SkippedKeyId>, packet: Packet)
    requires Scheduled(s, es) && Receiving(es, p, r, st, handed) && Installed(es, p, r, r)
    requires PacketRight(es, packet) && packet.epoch == r
    requires Id(packet.header) !in st.skipped && Id(packet.header) !in handed
    ensures
      var received := TakeFromChain(st, packet.header);
      && received.state == st.(chains := received.state.chains, skipped := received.state.skipped)
      && (match received.result
          case Success(key) => key == packet.key
          case Failure(error) => error == TooManySkipped)
      && Receiving(es, p, r, received.state,
                   if received.result.Success? then handed + {Id(packet.header)} else handed)
  {
    var dh, n := packet.header.dhPublic, packet.header.n;
    assert st.chains[dh].chainIndex <= n;
    SkipKeepsReceiving(s, es, p, r, st, n, handed);
    var skip := SkipTo(dh, st.chains[dh], n, st.skipped, st.maxSkip);
    if skip.ok {
      assert skip.chain.chainIndex == n;
      TakeKeepsReceiving(s, es, p, r, Skipped(st, dh, skip), handed);
    }
  }

  /** The DH key exchange of a party without its own view of the newest chain: both parties
      compute the same root and chain key. */
  lemma InstallPositioned(s: Session, es: Epochs, p: Party, st: Ratchet)
    requires Scheduled(s, es) && Positioned(s, es, p, st) && st.sendChain.Some? && SendEpoch(es, p) + 1 < |es|
    ensures
      var k := SendEpoch(es, p) + 1;
      var st1 := StartReceivingChain(st, Public(es[k].private));
      && Positioned(s, es, p, st1) && ReceiveEpoch(es, p, st1) == k
      && st1.chains[Public(es[k].private)] == ReceivingChain(es[k].start, 0)
  {
    var k := SendEpoch(es, p) + 1;
    OwnersAlternate(s, es, p);
    assert Follows(es[k - 1], es[k]);
  }

  lemma InstalledStep(s: Session, es: Epochs, p: Party, j: int)
    requires Scheduled(s, es) && SendEpoch(es, p) + 1 < |es|
    ensures
      var k := SendEpoch(es, p) + 1;
      && (Installed(es, p, k, j) <==> j == k || Installed(es, p, k - 2, j))
      && (Installed(es, p, k - 2, j) ==> es[j].private != es[k].private)
  {
    OwnersAlternate(s, es, p);
  }

  lemma InstalledChains(s: Session, es: Epochs, p: Party, chains: map<PublicKey, ReceivingChain>)
    requires Scheduled(s, es) && SendEpoch(es, p) + 1 < |es|
    requires
      var r := SendEpoch(es, p) - 1;
      && ChainsFollow(es, p, r, chains)
      && (Installed(es, p, r, r) ==> chains[Public(es[r].private)].chainIndex == es[r].length)
    ensures
      var k := SendEpoch(es, p) + 1;
      ChainsFollow(es, p, k, chains[Public(es[k].private) := ReceivingChain(es[k].start, 0)])
  {
    hide Scheduled;
    OwnersAlternate(s, es, p);
    var r, k := SendEpoch(es, p) - 1, SendEpoch(es, p) + 1;
    var chains1 := chains[Public(es[k].private) := ReceivingChain(es[k].start, 0)];
    forall j | Installed(es, p, k, j)
      ensures Public(es[j].private) in chains1 && OnChain(es[j], chains1[Public(es[j].private)])
      ensures j < k ==> chains1[Public(es[j].private)].chainIndex == es[j].length
    {
      InstalledChain(s, es, p, chains, j);
    }
    forall dh | dh in chains1 ensures exists j :: Installed(es, p, k, j) && es[j].private == dh.of {
      InstalledKnown(s, es, p, chains, dh);
    }
  }

  lemma InstalledChain(s: Session, es: Epochs, p: Party, chains: map<PublicKey, ReceivingChain>, j: int)
    requires Scheduled(s, es) && SendEpoch(es, p) + 1 < |es| && Installed(es, p, SendEpoch(es, p) + 1, j)
    requires
      var r := SendEpoch(es, p) - 1;
      && ChainsFollow(es, p, r, chains)
      && (Installed(es, p, r, r) ==> chains[Public(es[r].private)].chainIndex == es[r].length)
    ensures
      var k := SendEpoch(es, p) + 1;
      var chains1 := chains[Public(es[k].private) := ReceivingChain(es[k].start, 0)];
      && Public(es[j].private) in chains1 && OnChain(es[j], chains1[Public(es[j].private)])
      && (j < k ==> chains1[Public(es[j].private)].chainIndex == es[j].length)
  {
    InstalledStep(s, es, p, j);
  }

  lemma InstalledKnown(s: Session, es: Epochs, p: Party, chains: map<PublicKey, ReceivingChain>, dh: PublicKey)
    requires Scheduled(s, es) && SendEpoch(es, p) + 1 < |es|
    requires ChainsFollow(es, p, SendEpoch(es, p) - 1, chains)
    requires dh in chains || dh == Public(es[SendEpoch(es, p) + 1].private)
    ensures exists j :: Installed(es, p, SendEpoch(es, p) + 1, j) && es[j].private == dh.of
  {
    var k := SendEpoch(es, p) + 1;
    if dh in chains {
      var j :| Installed(es, p, k - 2, j) && es[j].private == dh.of;
      InstalledStep(s, es, p, j);
    } else {
      InstalledStep(s, es, p, k);
    }
  }

  lemma InstalledStore(s: Session, es: Epochs, p: Party, st: Ratchet)
    requires Scheduled(s, es) && SendEpoch(es, p) + 1 < |es|
    requires StoredRight(es, p, SendEpoch(es, p) - 1, st)
    ensures
      var k := SendEpoch(es, p) + 1;
      StoredRight(es, p, k, StartReceivingChain(st, Public(es[k].private)))
  {
    var r, k := SendEpoch(es, p) - 1, SendEpoch(es, p) + 1;
    var st1 := StartReceivingChain(st, Public(es[k].private));
    forall id | id in st1.skipped ensures exists j :: RightKey(es, p, k, st1.chains, j, id, st1.skipped[id]) {
      var j :| RightKey(es, p, r, st.chains, j, id, st.skipped[id]);
      InstalledStep(s, es, p, j);
      assert RightKey(es, p, k, st1.chains, j, id, st1.skipped[id]);
    }
  }

  /** A party that has finished chain `r` installs the chain its peer made in answer to its own. */
  lemma InstallNext(s: Session, es: Epochs, p: Party, st: Ratchet, handed: set<SkippedKeyId>)
    requires Scheduled(s, es) && PartyInv(s, es, p, st, handed)
    requires st.sendChain.Some? && SendEpoch(es, p) + 1 < |es|
    requires
      var r := ReceiveEpoch(es, p, st);
      Installed(es, p, r, r) ==> st.chains[Public(es[r].private)].chainIndex == es[r].length
    ensures
      var k := SendEpoch(es, p) + 1;
      var st1 := StartReceivingChain(st, Public(es[k].private));
      && Positioned(s, es, p, st1) && ReceiveEpoch(es, p, st1) == k
      && Receiving(es, p, k, st1, handed) && Installed(es, p, k, k)
  {
    var k := SendEpoch(es, p) + 1;
    InstallPositioned(s, es, p, st);
    InstalledStep(s, es, p, k);
    InstalledChains(s, es, p, st.chains);
    InstalledStore(s, es, p, st);
    InstalledNothingLost(st, Public(es[k].private), handed);
  }

  lemma InstalledNothingLost(st: Ratchet, dh: PublicKey, handed: set<SkippedKeyId>)
    requires NothingLost(st, handed)
    ensures NothingLost(StartReceivingChain(st, dh), handed)
  {
  }

  /** Where an undelivered packet can come from: the newest installed chain or the one after. */
  lemma PacketPlace(s: Session, es: Epochs, p: Party, st: Ratchet, handed: set<SkippedKeyId>, packet: Packet)
    requires Scheduled(s, es) && PartyInv(s, es, p, st, handed)
    requires PacketRight(es, packet) && es[packet.epoch].owner == Peer(p)
    requires Id(packet.header) !in st.skipped && Id(packet.header) !in handed
    ensures
      var r := ReceiveEpoch(es, p, st);
      if packet.header.dhPublic == st.dhReceiving then packet.epoch == r && Installed(es, p, r, r)
      else packet.epoch == SendEpoch(es, p) + 1 && st.sendChain.Some?
  {
    var r, j := ReceiveEpoch(es, p, st), packet.epoch;
    OwnersAlternate(s, es, p);
    assert j < r ==> Installed(es, p, r, j);
  }

  /** Running the current chain to the length the peer announced finishes it. */
  lemma FinishCurrent(s: Session, es: Epochs, p: Party, st: Ratchet, handed: set<SkippedKeyId>, pn: nat)
    requires Scheduled(s, es) && PartyInv(s, es, p, st, handed)
    requires st.sendChain.Some? && SendEpoch(es, p) + 1 < |es| && pn == es[SendEpoch(es, p) + 1].previous
    ensures
      var r, first := ReceiveEpoch(es, p, st), SkipCurrent(st, pn);
      && PartyInv(s, es, p, first.state, handed)
      && ReceiveEpoch(es, p, first.state) == r
      && (first.ok && Installed(es, p, r, r) ==> first.state.chains[Public(es[r].private)].chainIndex == es[r].length)
  {
    var r := ReceiveEpoch(es, p, st);
    OwnersAlternate(s, es, p);
    if r >= 0 {
      assert Installed(es, p, r, r);
      SkipKeepsReceiving(s, es, p, r, st, pn, handed);
    } else {
      assert st.dhReceiving !in st.chains;
    }
  }

  lemma RemoveKeepsReceiving(es: Epochs, p: Party, r: int, st: Ratchet, handed: set<SkippedKeyId>, id: SkippedKeyId)
    requires Receiving(es, p, r, st, handed) && id in st.skipped
    ensures Receiving(es, p, r, st.(skipped := st.skipped - {id}), handed + {id})
  {
    var st1 := st.(skipped := st.skipped - {id});
    assert st.skipped.Keys == st1.skipped.Keys + {id};
    forall id1 | id1 in st1.skipped ensures exists j :: RightKey(es, p, r, st1.chains, j, id1, st1.skipped[id1]) {
      var j :| RightKey(es, p, r, st.chains, j, id1, st.skipped[id1]);
      assert RightKey(es, p, r, st1.chains, j, id1, st1.skipped[id1]);
    }
  }

  /** A delivery either fails with `TooManySkipped` or yields the sender's key, and in both
      cases leaves the receiver on schedule. */
  ghost predicate Delivered(s: Session, es: Epochs, p: Party, handed: set<SkippedKeyId>, packet: Packet,
                            received: Received) {
    && PartyInv(s, es, p, received.state, if received.result.Success? then handed + {Id(packet.header)} else handed)
    && (match received.result
        case Success(key) => key == packet.key
        case Failure(error) => error == TooManySkipped)
  }

  /** The heart of the agreement: delivering a genuine header the receiver has not answered
      yet yields the sender's key or finds the store full. */
  lemma DeliverKeeps(s: Session, es: Epochs, p: Party, st: Ratchet, handed: set<SkippedKeyId>, packet: Packet)
    requires Scheduled(s, es) && PartyInv(s, es, p, st, handed)
    requires PacketRight(es, packet) && es[packet.epoch].owner == Peer(p) && Id(packet.header) !in handed
    ensures Delivered(s, es, p, handed, packet, Decrypt(st, packet.header))
  {
    hide Scheduled, PartyInv;
    if Id(packet.header) in st.skipped {
      DeliverStored(s, es, p, st, handed, packet);
    } else {
      PacketPlace(s, es, p, st, handed, packet);
      if packet.header.dhPublic == st.dhReceiving {
        DeliverCurrent(s, es, p, st, handed, packet);
      } else {
        DeliverNewChain(s, es, p, st, handed, packet);
      }
    }
  }

  lemma DeliverStored(s: Session, es: Epochs, p: Party, st: Ratchet, handed: set<SkippedKeyId>, packet: Packet)
    requires Scheduled(s, es) && PartyInv(s, es, p, st, handed)
    requires PacketRight(es, packet) && Id(packet.header) in st.skipped
    ensures Delivered(s, es, p, handed, packet, Decrypt(st, packet.header))
  {
    var r, id := ReceiveEpoch(es, p, st), Id(packet.header);
    var j :| RightKey(es, p, r, st.chains, j, id, st.skipped[id]);
    assert j == packet.epoch;
    RemoveKeepsReceiving(es, p, r, st, handed, id);
    PositionSame(s, es, p, st, st.(skipped := st.skipped - {id}));
  }

  lemma PositionSame(s: Session, es: Epochs, p: Party, st: Ratchet, st1: Ratchet)
    requires Positioned(s, es, p, st) && st1 == st.(chains := st1.chains, skipped := st1.skipped)
    ensures Positioned(s, es, p, st1) && ReceiveEpoch(es, p, st1) == ReceiveEpoch(es, p, st)
  {
  }

  lemma DeliverNewChain(s: Session, es: Epochs, p: Party, st: Ratchet, handed: set<SkippedKeyId>, packet: Packet)
    requires Scheduled(s, es) && PartyInv(s, es, p, st, handed)
    requires PacketRight(es, packet) && packet.header.dhPublic != st.dhReceiving
    requires Id(packet.header) !in st.skipped && Id(packet.header) !in handed
    requires packet.epoch == SendEpoch(es, p) + 1 && st.sendChain.Some?
    ensures Delivered(s, es, p, handed, packet, Decrypt(st, packet.header))
  {
    FinishCurrent(s, es, p, st, handed, packet.header.pn);
    var first := SkipCurrent(st, packet.header.pn);
    if first.ok {
      TakeFromNewChain(s, es, p, first.state, handed, packet);
    }
  }

  lemma TakeFromNewChain(s: Session, es: Epochs, p: Party, st: Ratchet, handed: set<SkippedKeyId>, packet: Packet)
    requires Scheduled(s, es) && PartyInv(s, es, p, st, handed)
    requires PacketRight(es, packet) && Id(packet.header) !in handed
    requires packet.epoch == SendEpoch(es, p) + 1 && st.sendChain.Some?
    requires
      var r := ReceiveEpoch(es, p, st);
      Installed(es, p, r, r) ==> st.chains[Public(es[r].private)].chainIndex == es[r].length
    ensures
      var received := TakeFromChain(StartReceivingChain(st, packet.header.dhPublic), packet.header);
      Delivered(s, es, p, handed, packet, received)
  {
    var st1 := StartReceivingChain(st, packet.header.dhPublic);
    InstallNext(s, es, p, st, handed);
    NotAhead(es, p, ReceiveEpoch(es, p, st), st, packet);
    DeliverCurrent(s, es, p, st1, handed, packet);
  }

  lemma DeliverCurrent(s: Session, es: Epochs, p: Party, st: Ratchet, handed: set<SkippedKeyId>, packet: Packet)
    requires Scheduled(s, es) && PartyInv(s, es, p, st, handed)
    requires PacketRight(es, packet) && packet.epoch == ReceiveEpoch(es, p, st)
    requires Installed(es, p, packet.epoch, packet.epoch)
    requires Id(packet.header) !in st.skipped && Id(packet.header) !in handed
    ensures Delivered(s, es, p, handed, packet, TakeFromChain(st, packet.header))
  {
    TakeCurrent(s, es, p, packet.epoch, st, handed, packet);
    PositionSame(s, es, p, st, TakeFromChain(st, packet.header).state);
  }

  lemma NotAhead(es: Epochs, p: Party, r: int, st: Ratchet, packet: Packet)
    requires StoredRight(es, p, r, st) && PacketRight(es, packet) && r < packet.epoch
    requires forall i, j :: 0 <= i < j < |es| ==> es[i].private != es[j].private
    ensures Id(packet.header) !in st.skipped
  {
  }

  // ----- every step keeps the invariant ---------------------------------------------------------

  lemma HandedGrows(s: Session, es: Epochs, p: Party, st: Ratchet, handed: set<SkippedKeyId>, more: set<SkippedKeyId>)
    requires PartyInv(s, es, p, st, handed) && handed <= more
    ensures PartyInv(s, es, p, st, more)
  {
  }

  lemma SendKeepsParties(sys: System, from: Party, private: PrivateKey)
    requires Scheduled(sys.session, sys.epochs) && Unused(sys, private)
    requires PartyInv(sys.session, sys.epochs, from, StateOf(sys, from), sys.handed.Keys)
    requires PartyInv(sys.session, sys.epochs, Peer(from), StateOf(sys, Peer(from)), sys.handed.Keys)
    ensures
      var sys1 := Next(sys, Send(from, private));
      var sent := Encrypt(StateOf(sys, from), private);
      && Scheduled(sys1.session, sys1.epochs)
      && PartyInv(sys1.session, sys1.epochs, from, StateOf(sys1, from), sys1.handed.Keys)
      && PartyInv(sys1.session, sys1.epochs, Peer(from), StateOf(sys1, Peer(from)), sys1.handed.Keys)
      && PacketRight(sys1.epochs, Packet(SendEpoch(sys1.epochs, from), sent.header, sent.key))
  {
    hide PartyInv, Scheduled;
    var sys1 := Next(sys, Send(from, private));
    var s, es, st, handed := sys.session, sys.epochs, StateOf(sys, from), sys.handed.Keys;
    var peer, newChain := Peer(from), st.sendChain.None?;
    SenderAdvances(s, es, from, st, handed, private);
    RecordScheduled(s, es, from, private, newChain);
    PeerKeeps(s, es, peer, StateOf(sys, peer), handed, private, newChain);
  }

  lemma PeerKeeps(s: Session, es: Epochs, p: Party, st: Ratchet, handed: set<SkippedKeyId>, private: PrivateKey,
                  newChain: bool)
    requires Scheduled(s, es) && PartyInv(s, es, p, st, handed)
    requires if newChain then es[|es| - 1].owner == p else 0 <= SendEpoch(es, Peer(p))
    ensures PartyInv(s, Recorded(es, Peer(p), newChain, private), p, st, handed)
  {
    OwnersAlternate(s, es, p);
    PeerContinues(s, es, p, st, private, newChain);
    PartyContinues(s, es, Recorded(es, Peer(p), newChain, private), p, st, handed);
  }

  lemma BegunStaysRight(sys: System, from: Party, private: PrivateKey)
    requires BegunRight(sys) && Enabled(sys, Send(from, private)) && sys.epochs != []
    requires PartyInv(sys.session, sys.epochs, Alice, sys.alice, sys.handed.Keys) && sys.epochs[0].owner == Alice
    ensures BegunRight(Next(sys, Send(from, private)))
  {
  }

  lemma PacketContinues(es: Epochs, from: Party, newChain: bool, private: PrivateKey, packet: Packet)
    requires PacketRight(es, packet) && (newChain || 0 <= SendEpoch(es, from))
    ensures PacketRight(Recorded(es, from, newChain, private), packet)
  {
    RecordedAt(es, from, newChain, private);
  }

  lemma SendKeepsInv(sys: System, from: Party, private: PrivateKey)
    requires Inv(sys) && Enabled(sys, Send(from, private))
    ensures Inv(Next(sys, Send(from, private)))
  {
    hide PartyInv, Scheduled;
    var sys1 := Next(sys, Send(from, private));
    var newChain := StateOf(sys, from).sendChain.None?;
    SendKeepsParties(sys, from, private);
    forall packet | packet in sys.sent ensures PacketRight(sys1.epochs, packet) {
      PacketContinues(sys.epochs, from, newChain, private, packet);
    }
    HandedStaysRight(sys, sys1);
    assert sys.epochs != [] && sys.epochs[0].owner == Alice by {
      OwnersAlternate(sys.session, sys.epochs, Alice);
    }
    BegunStaysRight(sys, from, private);
  }

  lemma HandedStaysRight(sys: System, sys1: System)
    requires HandedRight(sys) && sys1.handed == sys.handed && sys.sent <= sys1.sent
    ensures HandedRight(sys1)
  {
    forall id | id in sys1.handed
      ensures exists packet :: packet in sys1.sent && Id(packet.header) == id && packet.key == sys1.handed[id]
    {
      var packet :| packet in sys.sent && Id(packet.header) == id && packet.key == sys.handed[id];
      assert packet in sys1.sent;
    }
  }

  /** Handing out the key of a packet that was sent is right. */
  lemma HandingIsRight(sys: System, sys1: System, packet: Packet)
    requires HandedRight(sys) && sys1.sent == sys.sent && packet in sys.sent
    requires sys1.handed == sys.handed[Id(packet.header) := packet.key]
    ensures HandedRight(sys1) && sys1.handed.Keys == sys.handed.Keys + {Id(packet.header)}
  {
    forall id | id in sys1.handed
      ensures exists packet1 :: packet1 in sys1.sent && Id(packet1.header) == id && packet1.key == sys1.handed[id]
    {
      if id == Id(packet.header) {
        assert packet in sys1.sent;
      } else {
        assert id in sys.handed && sys1.handed[id] == sys.handed[id];
      }
    }
  }

  lemma BeginKeepsInv(sys: System)
    requires Inv(sys) && Enabled(sys, Begin)
    ensures Inv(Next(sys, Begin))
  {
    var sys1 := Next(sys, Begin);
    var s, es, first := sys.session, sys.epochs, InitialId(sys.session);
    var packet := Packet(0, RatchetHeader(first.dhPublic, 0, 0), MessageKey(SessionChain(s)));
    assert Installed(es, Bob, 0, 0);
    TakeKeepsReceiving(s, es, Bob, 0, sys.bob, sys.handed.Keys);
    assert sys1.bob == Taken(sys.bob, first.dhPublic);
    HandingIsRight(sys, sys1, packet);
    PositionSame(s, es, Bob, sys.bob, sys1.bob);
    HandedGrows(s, es, Alice, sys.alice, sys.handed.Keys, sys1.handed.Keys);
  }

  lemma DeliverKeepsParties(sys: System, to: Party, packet: Packet)
    requires Scheduled(sys.session, sys.epochs) && HandedRight(sys)
    requires PartyInv(sys.session, sys.epochs, to, StateOf(sys, to), sys.handed.Keys)
    requires PartyInv(sys.session, sys.epochs, Peer(to), StateOf(sys, Peer(to)), sys.handed.Keys)
    requires packet in sys.sent && PacketRight(sys.epochs, packet) && SentTo(sys, packet, to)
    requires Id(packet.header) !in sys.handed
    ensures
      var sys1 := Next(sys, Deliver(to, packet.header));
      && PartyInv(sys1.session, sys1.epochs, to, StateOf(sys1, to), sys1.handed.Keys)
      && PartyInv(sys1.session, sys1.epochs, Peer(to), StateOf(sys1, Peer(to)), sys1.handed.Keys)
      && HandedRight(sys1)
  {
    hide PartyInv, Scheduled;
    var sys1 := Next(sys, Deliver(to, packet.header));
    var s, es, handed := sys.session, sys.epochs, sys.handed.Keys;
    DeliverKeeps(s, es, to, StateOf(sys, to), handed, packet);
    if Decrypt(StateOf(sys, to), packet.header).result.Success? {
      HandingIsRight(sys, sys1, packet);
    } else {
      HandedStaysRight(sys, sys1);
    }
    HandedGrows(s, es, Peer(to), StateOf(sys, Peer(to)), handed, sys1.handed.Keys);
  }

  lemma DeliverKeepsInv(sys: System, to: Party, header: RatchetHeader)
    requires Inv(sys) && Enabled(sys, Deliver(to, header))
    ensures Inv(Next(sys, Deliver(to, header)))
  {
    hide PartyInv, Scheduled;
    var packet :| packet in sys.sent && packet.header == header && SentTo(sys, packet, to);
    OwnersAlternate(sys.session, sys.epochs, to);
    assert sys.begun;
    DeliverKeepsParties(sys, to, packet);
  }

  lemma {:induction false} RunKeepsInv(sys: System, events: seq<Event>)
    requires Inv(sys) && ValidRun(sys, events)
    ensures Inv(Run(sys, events))
    decreases |events|
  {
    if events != [] {
      match events[0] {
        case Begin => BeginKeepsInv(sys);
        case Send(from, private) => SendKeepsInv(sys, from, private);
        case Deliver(to, header) => DeliverKeepsInv(sys, to, header);
      }
      RunKeepsInv(Next(sys, events[0]), events[1..]);
    }
  }
}
