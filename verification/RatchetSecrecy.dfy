/** Forward secrecy and break-in recovery: what the state of a party, once it is exposed, gives away
    of the messages sent in the run before and after. */
module RatchetSecrecy {
  import opened Wrappers
  import opened Ratchet
  import opened RatchetSchedule
  import opened RatchetAgreement

  /** The output that authenticates a session: that of the two identity keys. */
  function IdentitySecret(s: Session): SharedSecret {
    DiffieHellman(s.identityA, Public(s.identityB))
  }

  /** What can be worked out from known secrets by anyone who also has every Diffie-Hellman output
      but one. KDFs cannot be undone, so a secret is worked out from what it is made of. */
  ghost predicate Derivable(known: set<Secret>, hidden: SharedSecret, secret: Secret) {
    secret in known ||
    match secret
    case InitialRoot(dh1, dh2, _) => dh1 != hidden && dh2 != hidden
    case InitialChain(dh1, dh2, _) => dh1 != hidden && dh2 != hidden
    case NextRoot(root, _) => Derivable(known, hidden, root)
    case FirstChain(root, _) => Derivable(known, hidden, root)
    case NextChain(chain) => Derivable(known, hidden, chain)
    case MessageKey(chain) => Derivable(known, hidden, chain)
  }

  /** All secrets a state holds. Its private key is worth a Diffie-Hellman output at most. */
  ghost function SecretsOf(st: Ratchet): set<Secret> {
    {st.root} + (if st.sendChain.Some? then {st.sendChain.value} else {}) +
    (set dh | dh in st.chains :: st.chains[dh].chainKey) + (set id | id in st.skipped :: st.skipped[id])
  }

  // ----- keys that were handed out are gone ------------------------------------------------------

  /** The keys of these ids have been passed and are not stored. */
  ghost predicate Gone(st: Ratchet, ids: set<SkippedKeyId>) {
    forall id :: id in ids ==>
      id.dhPublic in st.chains && id.n < st.chains[id.dhPublic].chainIndex && id !in st.skipped
  }

  lemma {:induction false} SkipAdds(dh: PublicKey, chain: ReceivingChain, until: nat,
                                    skipped: map<SkippedKeyId, Secret>, maxSkip: nat, id: SkippedKeyId)
    ensures
      var skip := SkipTo(dh, chain, until, skipped, maxSkip);
      && chain.chainIndex <= skip.chain.chainIndex
      && (skip.chain.chainIndex <= until || skip.chain == chain) && (skip.ok ==> until <= skip.chain.chainIndex)
      && (id in skip.skipped ==>
            id in skipped || (id.dhPublic == dh && chain.chainIndex <= id.n < skip.chain.chainIndex))
    decreases until - chain.chainIndex
  {
    if chain.chainIndex < until && |skipped| < maxSkip {
      var id0 := SkippedKeyId(dh, chain.chainIndex);
      SkipAdds(dh, Advance(chain), until, skipped[id0 := MessageKey(chain.chainKey)], maxSkip, id);
    }
  }

  lemma SkipGone(st: Ratchet, dh: PublicKey, until: nat, ids: set<SkippedKeyId>)
    requires Gone(st, ids) && dh in st.chains
    ensures Gone(Skipped(st, dh, SkipTo(dh, st.chains[dh], until, st.skipped, st.maxSkip)), ids)
  {
    hide SkipTo;
    var st1 := Skipped(st, dh, SkipTo(dh, st.chains[dh], until, st.skipped, st.maxSkip));
    forall id | id in ids
      ensures id.dhPublic in st1.chains && id.n < st1.chains[id.dhPublic].chainIndex && id !in st1.skipped
    {
      SkipAdds(dh, st.chains[dh], until, st.skipped, st.maxSkip, id);
    }
  }

  lemma TakeGone(st: Ratchet, header: RatchetHeader, ids: set<SkippedKeyId>)
    requires Gone(st, ids) && header.dhPublic in st.chains && Id(header) !in st.skipped
    requires st.chains[header.dhPublic].chainIndex <= header.n
    ensures
      var received := TakeFromChain(st, header);
      Gone(received.state, if received.result.Success? then ids + {Id(header)} else ids)
  {
    hide SkipTo;
    SkipGone(st, header.dhPublic, header.n, ids);
    SkipAdds(header.dhPublic, st.chains[header.dhPublic], header.n, st.skipped, st.maxSkip, Id(header));
  }

  /** Delivering a header whose chain is new, or current and not past it, or whose key is stored. */
  lemma DecryptGone(st: Ratchet, header: RatchetHeader, ids: set<SkippedKeyId>)
    requires Gone(st, ids)
    requires
      if Id(header) in st.skipped then
        header.dhPublic in st.chains && header.n < st.chains[header.dhPublic].chainIndex
      else if header.dhPublic == st.dhReceiving then
        header.dhPublic in st.chains && st.chains[header.dhPublic].chainIndex <= header.n
      else header.dhPublic !in st.chains
    ensures
      var received := Decrypt(st, header);
      Gone(received.state, if received.result.Success? then ids + {Id(header)} else ids)
  {
    hide SkipTo;
    if Id(header) !in st.skipped {
      if header.dhPublic == st.dhReceiving {
        TakeGone(st, header, ids);
      } else {
        var first := SkipCurrent(st, header.pn);
        if st.dhReceiving in st.chains {
          SkipGone(st, st.dhReceiving, header.pn, ids);
          SkipAdds(st.dhReceiving, st.chains[st.dhReceiving], header.pn, st.skipped, st.maxSkip, Id(header));
        }
        if first.ok {
          TakeGone(StartReceivingChain(first.state, header.dhPublic), header, ids);
        }
      }
    }
  }

  /** The ids among these that the other party sends under. */
  ghost function SentBy(es: Epochs, p: Party, handed: set<SkippedKeyId>): set<SkippedKeyId> {
    set id | id in handed && exists j :: SentOn(es, p, j, id.dhPublic)
  }

  ghost predicate Consumed(es: Epochs, p: Party, st: Ratchet, handed: set<SkippedKeyId>) {
    Gone(st, SentBy(es, p, handed))
  }

  ghost predicate BothConsumed(sys: System) {
    Consumed(sys.epochs, Alice, sys.alice, sys.handed.Keys) && Consumed(sys.epochs, Bob, sys.bob, sys.handed.Keys)
  }

  lemma SentOnce(s: Session, es: Epochs, p: Party, packet: Packet, j: int)
    requires Scheduled(s, es) && PacketRight(es, packet) && SentOn(es, p, j, packet.header.dhPublic)
    ensures j == packet.epoch
  {
  }

  lemma DeliverConsumes(s: Session, es: Epochs, p: Party, st: Ratchet, handed: set<SkippedKeyId>, packet: Packet)
    requires Scheduled(s, es) && PartyInv(s, es, p, st, handed) && Consumed(es, p, st, handed)
    requires PacketRight(es, packet) && es[packet.epoch].owner == Peer(p) && Id(packet.header) !in handed
    ensures
      var received := Decrypt(st, packet.header);
      Consumed(es, p, received.state, if received.result.Success? then handed + {Id(packet.header)} else handed)
  {
    var header := packet.header;
    PlaceOf(s, es, p, st, handed, packet);
    DecryptGone(st, header, SentBy(es, p, handed));
    assert SentBy(es, p, handed + {Id(header)}) <= SentBy(es, p, handed) + {Id(header)};
  }

  lemma PlaceOf(s: Session, es: Epochs, p: Party, st: Ratchet, handed: set<SkippedKeyId>, packet: Packet)
    requires Scheduled(s, es) && PartyInv(s, es, p, st, handed)
    requires PacketRight(es, packet) && es[packet.epoch].owner == Peer(p) && Id(packet.header) !in handed
    ensures
      var header := packet.header;
      if Id(header) in st.skipped then
        header.dhPublic in st.chains && header.n < st.chains[header.dhPublic].chainIndex
      else if header.dhPublic == st.dhReceiving then
        header.dhPublic in st.chains && st.chains[header.dhPublic].chainIndex <= header.n
      else header.dhPublic !in st.chains
  {
    var header, r := packet.header, ReceiveEpoch(es, p, st);
    if Id(header) in st.skipped {
      var j :| RightKey(es, p, r, st.chains, j, Id(header), st.skipped[Id(header)]);
    } else {
      PacketPlace(s, es, p, st, handed, packet);
      if header.dhPublic != st.dhReceiving {
        OwnersAlternate(s, es, p);
        forall j | Installed(es, p, r, j) ensures es[j].private != header.dhPublic.of { }
      }
    }
  }

  lemma OthersKeyNotMine(s: Session, es: Epochs, p: Party, st: Ratchet, handed: set<SkippedKeyId>, packet: Packet)
    requires Scheduled(s, es) && PacketRight(es, packet) && es[packet.epoch].owner == p && Consumed(es, p, st, handed)
    ensures Consumed(es, p, st, handed + {Id(packet.header)})
  {
    forall j | SentOn(es, p, j, packet.header.dhPublic) ensures false {
      SentOnce(s, es, p, packet, j);
    }
    assert SentBy(es, p, handed + {Id(packet.header)}) == SentBy(es, p, handed);
  }

  lemma BeginConsumes(sys: System)
    requires Inv(sys) && BothConsumed(sys) && Enabled(sys, Begin)
    ensures BothConsumed(Next(sys, Begin))
  {
    var sys1, first := Next(sys, Begin), InitialId(sys.session);
    assert first !in sys.bob.skipped;
    assert sys1.handed.Keys == {first};
    assert SentBy(sys.epochs, Alice, {first}) == {};
  }

  lemma SendConsumes(sys: System, from: Party, private: PrivateKey)
    requires Inv(sys) && BothConsumed(sys) && Enabled(sys, Send(from, private))
    ensures BothConsumed(Next(sys, Send(from, private)))
  {
    hide Inv, SentBy, Recorded, Gone, Encrypt, Unused;
    var sys1, handed := Next(sys, Send(from, private)), sys.handed.Keys;
    EncryptKeeps(StateOf(sys, from), private);
    SentByOlder(sys, from, private, Alice);
    SentByOlder(sys, from, private, Bob);
    GoneStill(sys.alice, sys1.alice, SentBy(sys.epochs, Alice, handed), SentBy(sys1.epochs, Alice, handed));
    GoneStill(sys.bob, sys1.bob, SentBy(sys.epochs, Bob, handed), SentBy(sys1.epochs, Bob, handed));
  }

  lemma EncryptKeeps(st: Ratchet, private: PrivateKey)
    ensures Encrypt(st, private).state.chains == st.chains && Encrypt(st, private).state.skipped == st.skipped
  {
  }

  lemma GoneStill(st: Ratchet, st1: Ratchet, ids: set<SkippedKeyId>, fewer: set<SkippedKeyId>)
    requires Gone(st, ids) && fewer <= ids && st1.chains == st.chains && st1.skipped == st.skipped
    ensures Gone(st1, fewer)
  {
  }

  lemma SentByOlder(sys: System, from: Party, private: PrivateKey, p: Party)
    requires Inv(sys) && Enabled(sys, Send(from, private))
    ensures SentBy(Next(sys, Send(from, private)).epochs, p, sys.handed.Keys) <= SentBy(sys.epochs, p, sys.handed.Keys)
  {
    var es, newChain := sys.epochs, StateOf(sys, from).sendChain.None?;
    var es1 := Recorded(es, from, newChain, private);
    assert Next(sys, Send(from, private)).epochs == es1;
    CanSend(sys, from);
    forall id | id in SentBy(es1, p, sys.handed.Keys) ensures id in SentBy(es, p, sys.handed.Keys) {
      var j :| SentOn(es1, p, j, id.dhPublic);
      var i := HandedEpoch(sys, id);
      SentOnOlder(es, from, newChain, private, p, j, id.dhPublic, i);
    }
  }

  lemma CanSend(sys: System, from: Party)
    requires Inv(sys)
    ensures sys.epochs != [] && (StateOf(sys, from).sendChain.None? || 0 <= SendEpoch(sys.epochs, from))
  {
  }

  lemma HandedEpoch(sys: System, id: SkippedKeyId) returns (i: int)
    requires SentRight(sys) && HandedRight(sys) && id in sys.handed
    ensures 0 <= i < |sys.epochs| && sys.epochs[i].private == id.dhPublic.of
  {
    var packet :| packet in sys.sent && Id(packet.header) == id && packet.key == sys.handed[id];
    assert PacketRight(sys.epochs, packet);
    i := packet.epoch;
  }

  lemma SentOnOlder(es: Epochs, from: Party, newChain: bool, private: PrivateKey, p: Party, j: int, dh: PublicKey,
                    i: int)
    requires es != [] && (newChain || 0 <= SendEpoch(es, from))
    requires SentOn(Recorded(es, from, newChain, private), p, j, dh)
    requires 0 <= i < |es| && es[i].private == dh.of && forall k :: 0 <= k < |es| ==> es[k].private != private
    ensures SentOn(es, p, j, dh)
  {
    RecordedAt(es, from, newChain, private);
  }

  lemma DeliverKeepsConsumed(sys: System, to: Party, header: RatchetHeader)
    requires Inv(sys) && BothConsumed(sys) && Enabled(sys, Deliver(to, header))
    ensures BothConsumed(Next(sys, Deliver(to, header)))
  {
    hide Scheduled, PartyInv, Consumed, Decrypt, PacketRight;
    var packet :| packet in sys.sent && packet.header == header && SentTo(sys, packet, to);
    var es, handed := sys.epochs, sys.handed.Keys;
    assert PacketRight(es, packet);
    DeliverConsumes(sys.session, es, to, StateOf(sys, to), handed, packet);
    OthersKeyNotMine(sys.session, es, Peer(to), StateOf(sys, Peer(to)), handed, packet);
    var received := Decrypt(StateOf(sys, to), header);
    assert Handed(sys, Id(header), received.result).Keys ==
      if received.result.Success? then handed + {Id(header)} else handed;
  }

  lemma StepConsumes(sys: System, e: Event)
    requires Inv(sys) && BothConsumed(sys) && Enabled(sys, e)
    ensures Inv(Next(sys, e)) && BothConsumed(Next(sys, e))
  {
    hide Inv, BothConsumed, Next, Enabled;
    match e {
      case Begin =>
        BeginKeepsInv(sys);
        BeginConsumes(sys);
      case Send(from, private) =>
        SendKeepsInv(sys, from, private);
        SendConsumes(sys, from, private);
      case Deliver(to, header) =>
        DeliverKeepsInv(sys, to, header);
        DeliverKeepsConsumed(sys, to, header);
    }
  }

  lemma {:induction false} RunConsumes(sys: System, events: seq<Event>)
    requires Inv(sys) && BothConsumed(sys) && ValidRun(sys, events)
    ensures BothConsumed(Run(sys, events))
    decreases |events|
  {
    hide Inv, BothConsumed, Next, Enabled;
    if events != [] {
      StepConsumes(sys, events[0]);
      RunConsumes(Next(sys, events[0]), events[1..]);
    }
  }

  /** In every run a key that was handed out is neither stored nor ahead of its chain any more. */
  lemma EveryRunConsumes(s: Session, events: seq<Event>)
    requires s.ephemeralA != s.identityB && ValidRun(Start(s), events)
    ensures Inv(Run(Start(s), events)) && BothConsumed(Run(Start(s), events))
  {
    hide Inv, BothConsumed;
    StartInv(s);
    EveryRunKeepsInv(s, events);
    StartConsumed(s);
    RunConsumes(Start(s), events);
  }

  lemma StartConsumed(s: Session)
    ensures BothConsumed(Start(s))
  {
  }

  // ----- what cannot be worked out -----------------------------------------------------------------

  /** Which root a party holds: that of the newest chain it has seen. */
  function RootEpoch(es: Epochs, p: Party, st: Ratchet): int {
    var k, r := SendEpoch(es, p), ReceiveEpoch(es, p, st);
    if k < r then r else k
  }

  predicate IsRoot(secret: Secret) {
    secret.InitialRoot? || secret.NextRoot?
  }

  predicate IsChainKey(secret: Secret) {
    secret.InitialChain? || secret.FirstChain? || secret.NextChain?
  }

  lemma StartShape(s: Session, es: Epochs, j: nat)
    requires Scheduled(s, es) && j < |es|
    ensures if j == 0 then es[0].start == SessionChain(s) && es[0].root == SessionRoot(s)
            else es[j].start.FirstChain? && es[j].start.root == es[j - 1].root
                 && es[j].root.NextRoot? && es[j].root.root == es[j - 1].root
  {
    assert j > 0 ==> Follows(es[j - 1], es[j]);
  }

  lemma {:induction false} IterateShape(s: Session, es: Epochs, j: nat, m: nat)
    requires Scheduled(s, es) && j < |es|
    ensures IsChainKey(Iterate(es[j].start, m))
  {
    StartShape(s, es, j);
  }

  /** Of the roots, only the newest is known. */
  ghost predicate OnlyRoot(known: set<Secret>, root: Secret) {
    forall secret :: secret in known && IsRoot(secret) ==> secret == root
  }

  lemma {:induction false} OlderRootsHidden(s: Session, es: Epochs, known: set<Secret>, k: nat, i: nat)
    requires Scheduled(s, es) && i < k < |es| && OnlyRoot(known, es[k].root)
    ensures !Derivable(known, IdentitySecret(s), es[i].root)
  {
    StartShape(s, es, i);
    RootDepthAt(s, es, i);
    RootDepthAt(s, es, k);
    if i > 0 {
      OlderRootsHidden(s, es, known, k, i - 1);
    }
  }

  lemma {:induction false} ChainHidden(s: Session, es: Epochs, known: set<Secret>, k: nat, j: nat, m: nat)
    requires Scheduled(s, es) && j < |es| && k < |es| && j - 1 < k && OnlyRoot(known, es[k].root)
    requires forall i: nat :: i <= m ==> Iterate(es[j].start, i) !in known
    ensures !Derivable(known, IdentitySecret(s), Iterate(es[j].start, m))
  {
    assert Iterate(es[j].start, m) !in known;
    if m > 0 {
      ChainHidden(s, es, known, k, j, m - 1);
    } else {
      StartShape(s, es, j);
      assert Iterate(es[j].start, 0) == es[j].start;
      if j > 0 {
        OlderRootsHidden(s, es, known, k, j - 1);
      }
    }
  }

  // ----- what can ------------------------------------------------------------------------------------

  lemma {:induction false} ChainDerivable(known: set<Secret>, hidden: SharedSecret, start: Secret, m: nat, n: nat)
    requires m <= n && Derivable(known, hidden, Iterate(start, m))
    ensures Derivable(known, hidden, Iterate(start, n))
  {
    if m < n {
      ChainDerivable(known, hidden, start, m, n - 1);
    }
  }

  lemma NewerChainDerivable(s: Session, es: Epochs, known: set<Secret>, hidden: SharedSecret, j: nat)
    requires Scheduled(s, es) && 0 < j < |es| && es[j - 1].root in known
    ensures Derivable(known, hidden, Iterate(es[j].start, 0))
  {
    StartShape(s, es, j);
  }

  // ----- the secrets of a state on schedule ------------------------------------------------------------

  lemma HeldRoot(s: Session, es: Epochs, p: Party, st: Ratchet)
    requires Scheduled(s, es) && Positioned(s, es, p, st)
    ensures 0 <= RootEpoch(es, p, st) < |es| && st.root == es[RootEpoch(es, p, st)].root
  {
    OwnersAlternate(s, es, p);
  }

  lemma HeldSendChain(s: Session, es: Epochs, p: Party, st: Ratchet) returns (k: nat)
    requires Scheduled(s, es) && Positioned(s, es, p, st) && st.sendChain.Some?
    ensures k < |es| && k == SendEpoch(es, p) && es[k].owner == p
    ensures st.sendChain.value == Iterate(es[k].start, es[k].length)
  {
    OwnersAlternate(s, es, p);
    k := SendEpoch(es, p);
  }

  lemma HeldChain(es: Epochs, p: Party, r: int, st: Ratchet, dh: PublicKey) returns (j: nat)
    requires ChainsFollow(es, p, r, st.chains) && dh in st.chains
    ensures j < |es| && es[j].owner == Peer(p) && Public(es[j].private) == dh
    ensures st.chains[dh].chainKey == Iterate(es[j].start, st.chains[dh].chainIndex)
  {
    var i :| Installed(es, p, r, i) && es[i].private == dh.of;
    assert Public(es[i].private) == dh;
    j := i;
  }

  lemma HeldStored(es: Epochs, p: Party, r: int, st: Ratchet, id: SkippedKeyId) returns (j: nat)
    requires StoredRight(es, p, r, st) && id in st.skipped
    ensures j < |es| && es[j].owner == Peer(p) && Public(es[j].private) == id.dhPublic
    ensures st.skipped[id] == es[j].KeyAt(id.n)
  {
    var i :| RightKey(es, p, r, st.chains, i, id, st.skipped[id]);
    assert Public(es[i].private) == id.dhPublic;
    j := i;
  }

  lemma HeldOnlyRoot(s: Session, es: Epochs, p: Party, st: Ratchet, handed: set<SkippedKeyId>)
    requires Scheduled(s, es) && PartyInv(s, es, p, st, handed)
    ensures OnlyRoot(SecretsOf(st), st.root)
  {
    hide Scheduled, ChainsFollow, StoredRight, Positioned, Iterate, SecretsOf, OnlyRoot;
    var r := ReceiveEpoch(es, p, st);
    if st.sendChain.Some? {
      var k := HeldSendChain(s, es, p, st);
      IterateShape(s, es, k, es[k].length);
    }
    forall dh | dh in st.chains ensures !IsRoot(st.chains[dh].chainKey) {
      var j := HeldChain(es, p, r, st, dh);
      IterateShape(s, es, j, st.chains[dh].chainIndex);
    }
    forall id | id in st.skipped ensures !IsRoot(st.skipped[id]) {
      var j := HeldStored(es, p, r, st, id);
    }
    OneRoot(st);
  }

  lemma OneRoot(st: Ratchet)
    requires st.sendChain.Some? ==> !IsRoot(st.sendChain.value)
    requires forall dh :: dh in st.chains ==> !IsRoot(st.chains[dh].chainKey)
    requires forall id :: id in st.skipped ==> !IsRoot(st.skipped[id])
    ensures OnlyRoot(SecretsOf(st), st.root)
  {
  }

  lemma RootsAreNoChains(s: Session, es: Epochs, k: nat, j: nat, m: nat)
    requires Scheduled(s, es) && k < |es| && j < |es|
    ensures es[k].root != Iterate(es[j].start, m) && es[k].root != es[j].KeyAt(m)
  {
    StartShape(s, es, k);
    IterateShape(s, es, j, m);
  }

  lemma ChainsDiffer(s: Session, es: Epochs, i: nat, j: nat, n: nat, m: nat)
    requires Scheduled(s, es) && i < |es| && j < |es| && Iterate(es[i].start, n) == Iterate(es[j].start, m)
    ensures i == j && n == m
  {
    assert es[i].KeyAt(n) == es[j].KeyAt(m);
    KeysDiffer(s, es, i, j, n, m);
  }

  /** No chain key from which the `m`-th of chain `j` follows is held. */
  lemma ChainNotHeld(s: Session, es: Epochs, p: Party, st: Ratchet, handed: set<SkippedKeyId>, j: nat, m: nat)
    requires Scheduled(s, es) && PartyInv(s, es, p, st, handed) && j < |es|
    requires j == SendEpoch(es, p) && st.sendChain.Some? ==> m < es[j].length
    requires es[j].owner == Peer(p) ==>
      Public(es[j].private) in st.chains && m < st.chains[Public(es[j].private)].chainIndex
    ensures Iterate(es[j].start, m) !in SecretsOf(st)
  {
    hide Scheduled, ChainsFollow, StoredRight, Positioned, Iterate;
    var r, secret := ReceiveEpoch(es, p, st), Iterate(es[j].start, m);
    HeldRoot(s, es, p, st);
    RootsAreNoChains(s, es, RootEpoch(es, p, st), j, m);
    if st.sendChain == Some(secret) {
      var k := HeldSendChain(s, es, p, st);
      ChainsDiffer(s, es, k, j, es[k].length, m);
    }
    forall dh | dh in st.chains ensures st.chains[dh].chainKey != secret {
      var i := HeldChain(es, p, r, st, dh);
      if st.chains[dh].chainKey == secret {
        ChainsDiffer(s, es, i, j, st.chains[dh].chainIndex, m);
      }
    }
    forall id | id in st.skipped ensures st.skipped[id] != secret {
      var i := HeldStored(es, p, r, st, id);
      IterateShape(s, es, j, m);
    }
  }

  lemma KeyNotHeld(s: Session, es: Epochs, p: Party, st: Ratchet, handed: set<SkippedKeyId>, j: nat, n: nat)
    requires Scheduled(s, es) && PartyInv(s, es, p, st, handed) && j < |es|
    requires SkippedKeyId(Public(es[j].private), n) !in st.skipped
    ensures es[j].KeyAt(n) !in SecretsOf(st)
  {
    hide Scheduled, ChainsFollow, StoredRight, Positioned, Iterate;
    var r, key := ReceiveEpoch(es, p, st), es[j].KeyAt(n);
    HeldRoot(s, es, p, st);
    RootsAreNoChains(s, es, RootEpoch(es, p, st), j, n);
    if st.sendChain.Some? {
      var k := HeldSendChain(s, es, p, st);
      IterateShape(s, es, k, es[k].length);
    }
    forall dh | dh in st.chains ensures st.chains[dh].chainKey != key {
      var i := HeldChain(es, p, r, st, dh);
      IterateShape(s, es, i, st.chains[dh].chainIndex);
    }
    forall id | id in st.skipped ensures st.skipped[id] != key {
      var i := HeldStored(es, p, r, st, id);
      if st.skipped[id] == key {
        KeysDiffer(s, es, i, j, id.n, n);
      }
    }
  }

  /** The key of a message that is behind its chain and not stored cannot be worked out. */
  lemma KeyHidden(s: Session, es: Epochs, p: Party, st: Ratchet, handed: set<SkippedKeyId>, j: nat, n: nat)
    requires Scheduled(s, es) && PartyInv(s, es, p, st, handed) && j < |es| && j <= RootEpoch(es, p, st)
    requires j == SendEpoch(es, p) && st.sendChain.Some? ==> n < es[j].length
    requires es[j].owner == Peer(p) ==>
      Public(es[j].private) in st.chains && n < st.chains[Public(es[j].private)].chainIndex
    requires SkippedKeyId(Public(es[j].private), n) !in st.skipped
    ensures !Derivable(SecretsOf(st), IdentitySecret(s), es[j].KeyAt(n))
  {
    hide Scheduled, PartyInv, SecretsOf, Iterate;
    HeldRootOf(s, es, p, st, handed);
    HeldOnlyRoot(s, es, p, st, handed);
    KeyNotHeld(s, es, p, st, handed, j, n);
    forall m: nat | m <= n ensures Iterate(es[j].start, m) !in SecretsOf(st) {
      ChainNotHeld(s, es, p, st, handed, j, m);
    }
    ChainHidden(s, es, SecretsOf(st), RootEpoch(es, p, st), j, n);
  }

  lemma HeldRootOf(s: Session, es: Epochs, p: Party, st: Ratchet, handed: set<SkippedKeyId>)
    requires Scheduled(s, es) && PartyInv(s, es, p, st, handed)
    ensures 0 <= RootEpoch(es, p, st) < |es| && st.root == es[RootEpoch(es, p, st)].root && st.root in SecretsOf(st)
  {
    HeldRoot(s, es, p, st);
  }

  /** What is stored, or still ahead of an installed chain, can be worked out. */
  lemma InstalledDerivable(s: Session, es: Epochs, p: Party, st: Ratchet, handed: set<SkippedKeyId>, packet: Packet)
    requires Scheduled(s, es) && PartyInv(s, es, p, st, handed)
    requires PacketRight(es, packet) && es[packet.epoch].owner == Peer(p) && Id(packet.header) !in handed
    requires packet.header.dhPublic in st.chains
    ensures Derivable(SecretsOf(st), IdentitySecret(s), packet.key)
  {
    var dh, n, r := packet.header.dhPublic, packet.header.n, ReceiveEpoch(es, p, st);
    if n < st.chains[dh].chainIndex {
      var j := HeldStored(es, p, r, st, Id(packet.header));
      assert j == packet.epoch;
      assert st.skipped[Id(packet.header)] in SecretsOf(st);
    } else {
      var j := HeldChain(es, p, r, st, dh);
      assert j == packet.epoch && st.chains[dh].chainKey in SecretsOf(st);
      ChainDerivable(SecretsOf(st), IdentitySecret(s), es[j].start, st.chains[dh].chainIndex, n);
    }
  }

  /** A chain that is not installed is the one after the newest root, which is held. */
  lemma NotInstalledYet(s: Session, es: Epochs, p: Party, st: Ratchet, handed: set<SkippedKeyId>, j: int)
    requires Scheduled(s, es) && PartyInv(s, es, p, st, handed)
    requires 0 <= j < |es| && es[j].owner == Peer(p)
    ensures Public(es[j].private) in st.chains ==> j <= RootEpoch(es, p, st)
    ensures Public(es[j].private) !in st.chains ==> j > 0 && j - 1 == RootEpoch(es, p, st)
  {
    var r := ReceiveEpoch(es, p, st);
    OwnersAlternate(s, es, p);
    assert j <= r ==> Installed(es, p, r, j);
    if Public(es[j].private) in st.chains {
      var i :| Installed(es, p, r, i) && es[i].private == es[j].private;
      assert i == j;
    }
  }

  // ----- main results -----------------------------------------------------------------------------------

  lemma ReceivedExactly(s: Session, es: Epochs, p: Party, st: Ratchet, handed: set<SkippedKeyId>, packet: Packet)
    requires Scheduled(s, es) && PartyInv(s, es, p, st, handed) && Consumed(es, p, st, handed)
    requires PacketRight(es, packet) && es[packet.epoch].owner == Peer(p)
    ensures Derivable(SecretsOf(st), IdentitySecret(s), packet.key) <==> Id(packet.header) !in handed
  {
    hide Scheduled, PartyInv, Derivable, SecretsOf;
    var id, j := Id(packet.header), packet.epoch;
    NotInstalledYet(s, es, p, st, handed, j);
    if id in handed {
      assert SentOn(es, p, j, id.dhPublic);
      assert id in SentBy(es, p, handed);
      KeyHidden(s, es, p, st, handed, j, id.n);
    } else if id.dhPublic in st.chains {
      InstalledDerivable(s, es, p, st, handed, packet);
    } else {
      HeldRootOf(s, es, p, st, handed);
      NewerChainDerivable(s, es, SecretsOf(st), IdentitySecret(s), j);
      ChainDerivable(SecretsOf(st), IdentitySecret(s), es[j].start, 0, id.n);
      MessageKeyDerivable(SecretsOf(st), IdentitySecret(s), Iterate(es[j].start, id.n));
    }
  }

  lemma MessageKeyDerivable(known: set<Secret>, hidden: SharedSecret, chain: Secret)
    requires Derivable(known, hidden, chain)
    ensures Derivable(known, hidden, MessageKey(chain))
  {
  }

  /** In every run, whoever gets hold of all of a party's secrets, and of every Diffie-Hellman output
      but that of the identity keys, can work out the key of a message sent to that party if and only
      if the party was not given that key yet. */
  lemma ForwardSecrecyExactly(s: Session, events: seq<Event>, p: Party, packet: Packet)
    requires s.ephemeralA != s.identityB && ValidRun(Start(s), events)
    requires packet in Run(Start(s), events).sent && SentTo(Run(Start(s), events), packet, p)
    ensures
      var sys := Run(Start(s), events);
      Derivable(SecretsOf(StateOf(sys, p)), IdentitySecret(s), packet.key) <==> Id(packet.header) !in sys.handed
  {
    hide Scheduled, PartyInv, Derivable, SecretsOf, Consumed, PacketRight;
    EveryRunConsumes(s, events);
    SessionStays(Start(s), events);
    var sys := Run(Start(s), events);
    assert PacketRight(sys.epochs, packet);
    ReceivedExactly(s, sys.epochs, p, StateOf(sys, p), sys.handed.Keys, packet);
  }

  /** And no key of a message the party sent itself. */
  lemma SentKeysForgotten(s: Session, events: seq<Event>, p: Party, packet: Packet)
    requires s.ephemeralA != s.identityB && ValidRun(Start(s), events)
    requires packet in Run(Start(s), events).sent && SentTo(Run(Start(s), events), packet, Peer(p))
    ensures
      var sys := Run(Start(s), events);
      !Derivable(SecretsOf(StateOf(sys, p)), IdentitySecret(s), packet.key)
  {
    hide Scheduled, PartyInv, Derivable, SecretsOf, Consumed;
    EveryRunConsumes(s, events);
    SessionStays(Start(s), events);
    var sys := Run(Start(s), events);
    assert PacketRight(sys.epochs, packet);
    OwnNotStored(s, sys.epochs, p, StateOf(sys, p), sys.handed.Keys, packet);
    KeyHidden(s, sys.epochs, p, StateOf(sys, p), sys.handed.Keys, packet.epoch, packet.header.n);
  }

  lemma OwnNotStored(s: Session, es: Epochs, p: Party, st: Ratchet, handed: set<SkippedKeyId>, packet: Packet)
    requires Scheduled(s, es) && PartyInv(s, es, p, st, handed)
    requires PacketRight(es, packet) && es[packet.epoch].owner == p
    ensures Id(packet.header) !in st.skipped && packet.epoch <= RootEpoch(es, p, st)
  {
    OwnersAlternate(s, es, p);
    StoredIsPeers(s, es, p, ReceiveEpoch(es, p, st), st, Id(packet.header), packet.epoch);
  }

  lemma StoredIsPeers(s: Session, es: Epochs, p: Party, r: int, st: Ratchet, id: SkippedKeyId, k: nat)
    requires Scheduled(s, es) && StoredRight(es, p, r, st) && k < |es| && Public(es[k].private) == id.dhPublic
    ensures id in st.skipped ==> es[k].owner == Peer(p)
  {
    if id in st.skipped {
      var j := HeldStored(es, p, r, st, id);
      assert j == k;
    }
  }

  lemma {:induction false} SessionStays(sys: System, events: seq<Event>)
    requires ValidRun(sys, events)
    ensures Run(sys, events).session == sys.session
    decreases |events|
  {
    if events != [] {
      SessionStays(Next(sys, events[0]), events[1..]);
    }
  }

  // ----- recovery ------------------------------------------------------------------------------------------

  predicate KnownOutput(privates: set<PrivateKey>, dh: SharedSecret) {
    dh.lo in privates || dh.hi in privates
  }

  /** What can be worked out from known secrets and private keys by anyone who sees all public keys. */
  ghost predicate Computable(known: set<Secret>, privates: set<PrivateKey>, secret: Secret) {
    secret in known ||
    match secret
    case InitialRoot(dh1, dh2, _) => KnownOutput(privates, dh1) && KnownOutput(privates, dh2)
    case InitialChain(dh1, dh2, _) => KnownOutput(privates, dh1) && KnownOutput(privates, dh2)
    case NextRoot(root, dh) => KnownOutput(privates, dh) && Computable(known, privates, root)
    case FirstChain(root, dh) => KnownOutput(privates, dh) && Computable(known, privates, root)
    case NextChain(chain) => Computable(known, privates, chain)
    case MessageKey(chain) => Computable(known, privates, chain)
  }

  lemma {:induction false} ComputableIsDerivable(known: set<Secret>, privates: set<PrivateKey>, hidden: SharedSecret,
                                                 secret: Secret)
    requires !KnownOutput(privates, hidden) && Computable(known, privates, secret)
    ensures Derivable(known, hidden, secret)
  {
    if secret !in known {
      match secret
      case NextRoot(root, _) => ComputableIsDerivable(known, privates, hidden, root);
      case FirstChain(root, _) => ComputableIsDerivable(known, privates, hidden, root);
      case NextChain(chain) => ComputableIsDerivable(known, privates, hidden, chain);
      case MessageKey(chain) => ComputableIsDerivable(known, privates, hidden, chain);
      case _ =>
    }
  }

  lemma {:induction false} ChainComputable(known: set<Secret>, privates: set<PrivateKey>, start: Secret, m: nat, n: nat)
    requires m <= n && Computable(known, privates, Iterate(start, m))
    ensures Computable(known, privates, Iterate(start, n))
  {
    if m < n {
      ChainComputable(known, privates, start, m, n - 1);
    }
  }

  lemma {:induction false} ChainNotComputable(known: set<Secret>, privates: set<PrivateKey>, start: Secret, n: nat)
    requires start.FirstChain? && !KnownOutput(privates, start.dh)
    requires forall m: nat :: m <= n ==> Iterate(start, m) !in known
    ensures !Computable(known, privates, Iterate(start, n))
  {
    assert Iterate(start, n) !in known;
    if n > 0 {
      ChainNotComputable(known, privates, start, n - 1);
    } else {
      assert Iterate(start, 0) == start;
    }
  }

  /** The record of a run that goes on: chains are added and get longer. */
  ghost predicate Extends(es: Epochs, es1: Epochs) {
    |es| <= |es1| && forall i :: 0 <= i < |es| ==> es1[i] == es[i].(length := es1[i].length)
  }

  lemma RecordExtends(es: Epochs, from: Party, newChain: bool, private: PrivateKey)
    requires es != [] && (newChain || 0 <= SendEpoch(es, from))
    ensures Extends(es, Recorded(es, from, newChain, private))
  {
    RecordedAt(es, from, newChain, private);
  }

  lemma StepExtends(sys: System, e: Event)
    requires Inv(sys) && Enabled(sys, e)
    ensures Extends(sys.epochs, Next(sys, e).epochs)
  {
    hide Inv, Enabled, Extends, Recorded, Encrypt, Decrypt, InitialReceive;
    if e.Send? {
      CanSend(sys, e.from);
      RecordExtends(sys.epochs, e.from, StateOf(sys, e.from).sendChain.None?, e.newPrivate);
    } else {
      ExtendsItself(sys.epochs);
    }
  }

  lemma {:induction false} RunExtends(sys: System, events: seq<Event>)
    requires Inv(sys) && BothConsumed(sys) && ValidRun(sys, events)
    ensures Inv(Run(sys, events)) && Extends(sys.epochs, Run(sys, events).epochs)
    decreases |events|
  {
    hide Inv, BothConsumed, Next, Enabled, Extends;
    if events == [] {
      ExtendsItself(sys.epochs);
    } else {
      StepConsumes(sys, events[0]);
      StepExtends(sys, events[0]);
      RunExtends(Next(sys, events[0]), events[1..]);
      ExtendsTwice(sys.epochs, Next(sys, events[0]).epochs, Run(sys, events).epochs);
    }
  }

  lemma ExtendsItself(es: Epochs)
    ensures Extends(es, es)
  {
  }

  lemma ExtendsAt(es: Epochs, es1: Epochs, i: int)
    requires Extends(es, es1) && 0 <= i < |es|
    ensures i < |es1| && es1[i] == es[i].(length := es1[i].length)
  {
  }

  lemma ExtendsTwice(a: Epochs, b: Epochs, c: Epochs)
    requires Extends(a, b) && Extends(b, c)
    ensures Extends(a, c)
  {
  }

  /** Nothing of a chain that came after is held. */
  lemma LaterChainNotHeld(s: Session, es: Epochs, es1: Epochs, p: Party, st: Ratchet, handed: set<SkippedKeyId>,
                          j: nat, m: nat)
    requires Scheduled(s, es) && PartyInv(s, es, p, st, handed) && Scheduled(s, es1) && Extends(es, es1)
    requires SendEpoch(es, p) + 1 < j < |es1|
    ensures Iterate(es1[j].start, m) !in SecretsOf(st) && es1[j].KeyAt(m) !in SecretsOf(st)
  {
    hide Scheduled, StoredRight, Positioned, Iterate;
    var r, secret := ReceiveEpoch(es, p, st), Iterate(es1[j].start, m);
    HeldRoot(s, es, p, st);
    RootsAreNoChains(s, es1, RootEpoch(es, p, st), j, m);
    if st.sendChain.Some? {
      var k := HeldSendChain(s, es, p, st);
      IterateShape(s, es, k, es[k].length);
      if st.sendChain.value == secret {
        ChainsDiffer(s, es1, k, j, es[k].length, m);
      }
    }
    forall dh | dh in st.chains ensures st.chains[dh].chainKey != secret && !st.chains[dh].chainKey.MessageKey? {
      var i := HeldChainBefore(es, p, r, st, dh);
      IterateShape(s, es, i, st.chains[dh].chainIndex);
      if st.chains[dh].chainKey == secret {
        ChainsDiffer(s, es1, i, j, st.chains[dh].chainIndex, m);
      }
    }
    forall id | id in st.skipped ensures st.skipped[id] != secret && st.skipped[id] != es1[j].KeyAt(m) {
      var i := HeldStoredBefore(es, p, r, st, id);
      IterateShape(s, es1, j, m);
      if st.skipped[id] == es1[j].KeyAt(m) {
        KeysDiffer(s, es1, i, j, id.n, m);
      }
    }
  }

  lemma HeldChainBefore(es: Epochs, p: Party, r: int, st: Ratchet, dh: PublicKey) returns (j: nat)
    requires ChainsFollow(es, p, r, st.chains) && dh in st.chains
    ensures j < |es| && j <= r && st.chains[dh].chainKey == Iterate(es[j].start, st.chains[dh].chainIndex)
  {
    var i :| Installed(es, p, r, i) && es[i].private == dh.of;
    assert Public(es[i].private) == dh;
    j := i;
  }

  lemma HeldStoredBefore(es: Epochs, p: Party, r: int, st: Ratchet, id: SkippedKeyId) returns (j: nat)
    requires StoredRight(es, p, r, st) && id in st.skipped
    ensures j < |es| && j <= r && st.skipped[id] == es[j].KeyAt(id.n)
  {
    var i :| RightKey(es, p, r, st.chains, i, id, st.skipped[id]);
    j := i;
  }

  /** Once both parties have made new keys, what comes is out of reach. */
  lemma LaterKeyNotComputable(s: Session, es: Epochs, es1: Epochs, p: Party, st: Ratchet, handed: set<SkippedKeyId>,
                              j: nat, n: nat)
    requires Scheduled(s, es) && PartyInv(s, es, p, st, handed) && Scheduled(s, es1) && Extends(es, es1)
    requires SendEpoch(es, p) + 1 < j < |es1|
    requires es1[j].private != st.sendPrivate && es1[j - 1].private != st.sendPrivate
    ensures !Computable(SecretsOf(st), {st.sendPrivate}, es1[j].KeyAt(n))
  {
    hide PartyInv, SecretsOf, Iterate;
    assert Follows(es1[j - 1], es1[j]);
    forall m: nat | m <= n ensures Iterate(es1[j].start, m) !in SecretsOf(st) {
      LaterChainNotHeld(s, es, es1, p, st, handed, j, m);
    }
    LaterChainNotHeld(s, es, es1, p, st, handed, j, n);
    ChainNotComputable(SecretsOf(st), {st.sendPrivate}, es1[j].start, n);
  }

  /** The exposed private key is in no chain after its own. */
  lemma ExposedOnce(s: Session, es: Epochs, es1: Epochs, p: Party, st: Ratchet, j: int)
    requires Scheduled(s, es) && Positioned(s, es, p, st) && Scheduled(s, es1) && Extends(es, es1)
    requires SendEpoch(es, p) < 0 ==> forall i :: 0 <= i < |es1| ==> es1[i].private != st.sendPrivate
    requires SendEpoch(es, p) < j < |es1|
    ensures es1[j].private != st.sendPrivate
  {
    OwnersAlternate(s, es, p);
  }

  /** The public key of a chain names it in the longer record too. */
  lemma SameChain(s: Session, es: Epochs, es1: Epochs, i: int, j: int)
    requires Scheduled(s, es1) && Extends(es, es1) && 0 <= i < |es| && 0 <= j < |es1|
    requires es[i].private == es1[j].private
    ensures i == j && es[i].start == es1[j].start
  {
    assert es1[i].private == es1[j].private;
  }

  lemma InstalledComputable(s: Session, es: Epochs, es1: Epochs, p: Party, st: Ratchet, handed: set<SkippedKeyId>,
                            packet: Packet)
    requires PartyInv(s, es, p, st, handed) && Scheduled(s, es1) && Extends(es, es1)
    requires PacketRight(es1, packet) && Id(packet.header) !in handed && packet.header.dhPublic in st.chains
    ensures Computable(SecretsOf(st), {st.sendPrivate}, packet.key)
  {
    hide Scheduled, Positioned, StoredRight, ChainsFollow, Extends, Iterate;
    var dh, n, j, r := packet.header.dhPublic, packet.header.n, packet.epoch, ReceiveEpoch(es, p, st);
    if n < st.chains[dh].chainIndex {
      assert Id(packet.header) == SkippedKeyId(dh, n) && Id(packet.header) in st.skipped;
      var i := HeldStored(es, p, r, st, Id(packet.header));
      SameChain(s, es, es1, i, j);
      assert st.skipped[Id(packet.header)] in SecretsOf(st);
    } else {
      var i := HeldChain(es, p, r, st, dh);
      SameChain(s, es, es1, i, j);
      assert st.chains[dh].chainKey in SecretsOf(st);
      ChainComputable(SecretsOf(st), {st.sendPrivate}, es1[j].start, st.chains[dh].chainIndex, n);
    }
  }

  /** Up to the chain that answers the exposed key, what was not handed out can be worked out. */
  lemma NearKeyComputable(s: Session, es: Epochs, es1: Epochs, p: Party, st: Ratchet, handed: set<SkippedKeyId>,
                          packet: Packet)
    requires Scheduled(s, es) && PartyInv(s, es, p, st, handed) && Scheduled(s, es1) && Extends(es, es1)
    requires PacketRight(es1, packet) && es1[packet.epoch].owner == Peer(p) && Id(packet.header) !in handed
    requires packet.epoch <= SendEpoch(es, p) + 1
    ensures Computable(SecretsOf(st), {st.sendPrivate}, packet.key)
  {
    hide PartyInv, Extends, SecretsOf;
    if packet.header.dhPublic in st.chains {
      InstalledComputable(s, es, es1, p, st, handed, packet);
    } else {
      AnswersExposed(s, es, es1, p, st, handed, packet.epoch);
      AnswerComputable(es1[packet.epoch - 1], es1[packet.epoch], SecretsOf(st), st.sendPrivate, packet.header.n);
    }
  }

  lemma AnswerComputable(a: Epoch, b: Epoch, known: set<Secret>, private: PrivateKey, n: nat)
    requires Follows(a, b) && a.private == private && a.root in known
    ensures Computable(known, {private}, b.KeyAt(n))
  {
    assert Computable(known, {private}, Iterate(b.start, 0));
    ChainComputable(known, {private}, b.start, 0, n);
  }

  lemma AnswersExposed(s: Session, es: Epochs, es1: Epochs, p: Party, st: Ratchet, handed: set<SkippedKeyId>, j: int)
    requires Scheduled(s, es) && PartyInv(s, es, p, st, handed) && Scheduled(s, es1) && Extends(es, es1)
    requires 0 <= j < |es1| && es1[j].owner == Peer(p) && j <= SendEpoch(es, p) + 1
    requires Public(es1[j].private) !in st.chains
    ensures 0 < j && es1[j - 1].private == st.sendPrivate && es1[j - 1].root == st.root && st.root in SecretsOf(st)
  {
    hide Scheduled, Receiving, Extends, SecretsOf;
    OwnersAlternate(s, es, p);
    HeldRootOf(s, es, p, st, handed);
    if j < |es| {
      ExtendsAt(es, es1, j);
      NotInstalledYet(s, es, p, st, handed, j);
    }
    ExtendsAt(es, es1, j - 1);
  }

  lemma HandedBefore(sys: System, es1: Epochs, packet: Packet) returns (earlier: Packet)
    requires Inv(sys) && Scheduled(sys.session, es1) && Extends(sys.epochs, es1)
    requires PacketRight(es1, packet) && Id(packet.header) in sys.handed
    ensures earlier in sys.sent && earlier.epoch == packet.epoch && packet.epoch < |sys.epochs|
    ensures Id(earlier.header) == Id(packet.header) && earlier.key == packet.key
  {
    var id := Id(packet.header);
    earlier :| earlier in sys.sent && Id(earlier.header) == id && earlier.key == sys.handed[id];
    assert PacketRight(sys.epochs, earlier);
    assert es1[earlier.epoch].private == es1[packet.epoch].private;
  }

  /** In every run that goes on after a party's state was exposed, its private key included, the key
      of a message sent to that party, before or after, can be worked out from that state if and only
      if the message is on a chain up to the one that answers the exposed key and its key had not been
      handed out. The chains that follow are safe again. */
  lemma BreakInRecoveryExactly(s: Session, events: seq<Event>, more: seq<Event>, p: Party, packet: Packet)
    requires s.ephemeralA != s.identityB && ValidRun(Start(s), events) && ValidRun(Run(Start(s), events), more)
    requires
      var sys, later := Run(Start(s), events), Run(Run(Start(s), events), more);
      && packet in later.sent && SentTo(later, packet, p)
      && StateOf(sys, p).sendPrivate != s.identityA && StateOf(sys, p).sendPrivate != s.identityB
      && (SendEpoch(sys.epochs, p) < 0 ==>
            forall i :: 0 <= i < |later.epochs| ==> later.epochs[i].private != StateOf(sys, p).sendPrivate)
    ensures
      var sys := Run(Start(s), events);
      var st := StateOf(sys, p);
      Computable(SecretsOf(st), {st.sendPrivate}, packet.key) <==>
      packet.epoch <= SendEpoch(sys.epochs, p) + 1 && Id(packet.header) !in sys.handed
  {
    hide Scheduled, PartyInv, Computable, Derivable, SecretsOf, BothConsumed, PacketRight, Extends;
    EveryRunConsumes(s, events);
    SessionStays(Start(s), events);
    var sys := Run(Start(s), events);
    RunExtends(sys, more);
    SessionStays(sys, more);
    var later, st, k := Run(sys, more), StateOf(sys, p), SendEpoch(sys.epochs, p);
    assert PacketRight(later.epochs, packet);
    if packet.epoch > k + 1 {
      LaterKey(s, sys.epochs, later.epochs, p, st, sys.handed.Keys, packet);
    } else if Id(packet.header) in sys.handed {
      var earlier := HandedBefore(sys, later.epochs, packet);
      ExtendsAt(sys.epochs, later.epochs, packet.epoch);
      ForwardSecrecyExactly(s, events, p, earlier);
      if Computable(SecretsOf(st), {st.sendPrivate}, packet.key) {
        ComputableIsDerivable(SecretsOf(st), {st.sendPrivate}, IdentitySecret(s), packet.key);
      }
    } else {
      NearKeyComputable(s, sys.epochs, later.epochs, p, st, sys.handed.Keys, packet);
    }
  }

  lemma LaterKey(s: Session, es: Epochs, es1: Epochs, p: Party, st: Ratchet, handed: set<SkippedKeyId>, packet: Packet)
    requires Scheduled(s, es) && PartyInv(s, es, p, st, handed) && Scheduled(s, es1) && Extends(es, es1)
    requires PacketRight(es1, packet) && packet.epoch > SendEpoch(es, p) + 1
    requires SendEpoch(es, p) < 0 ==> forall i :: 0 <= i < |es1| ==> es1[i].private != st.sendPrivate
    ensures !Computable(SecretsOf(st), {st.sendPrivate}, packet.key)
  {
    hide Scheduled, Computable, SecretsOf, Extends;
    OwnersAlternate(s, es, p);
    ExposedOnce(s, es, es1, p, st, packet.epoch);
    ExposedOnce(s, es, es1, p, st, packet.epoch - 1);
    LaterKeyNotComputable(s, es, es1, p, st, handed, packet.epoch, packet.header.n);
  }

  /** The same for what the exposed party sends, before or after: its key can be worked out if and
      only if it is drawn after the exposure from the sending chain the party still had. */
  lemma SentRecoveryExactly(s: Session, events: seq<Event>, more: seq<Event>, p: Party, packet: Packet)
    requires s.ephemeralA != s.identityB && ValidRun(Start(s), events) && ValidRun(Run(Start(s), events), more)
    requires
      var sys, later := Run(Start(s), events), Run(Run(Start(s), events), more);
      && packet in later.sent && SentTo(later, packet, Peer(p))
      && StateOf(sys, p).sendPrivate != s.identityA && StateOf(sys, p).sendPrivate != s.identityB
      && (SendEpoch(sys.epochs, p) < 0 ==>
            forall i :: 0 <= i < |later.epochs| ==> later.epochs[i].private != StateOf(sys, p).sendPrivate)
    ensures
      var st := StateOf(Run(Start(s), events), p);
      Computable(SecretsOf(st), {st.sendPrivate}, packet.key) <==>
      st.sendChain.Some? && packet.header.dhPublic == Public(st.sendPrivate) && st.sendIndex <= packet.header.n
  {
    hide Scheduled, PartyInv, Computable, Derivable, SecretsOf, BothConsumed, PacketRight, Extends;
    EveryRunConsumes(s, events);
    SessionStays(Start(s), events);
    var sys := Run(Start(s), events);
    RunExtends(sys, more);
    SessionStays(sys, more);
    var later, st := Run(sys, more), StateOf(sys, p);
    assert PacketRight(later.epochs, packet);
    SentOnChain(s, sys.epochs, later.epochs, p, st, sys.handed.Keys, packet);
    if packet.epoch > SendEpoch(sys.epochs, p) {
      LaterKey(s, sys.epochs, later.epochs, p, st, sys.handed.Keys, packet);
    } else {
      SentKey(s, sys.epochs, later.epochs, p, st, sys.handed.Keys, packet);
    }
  }

  /** The chain the exposed key belongs to, and the chain after it is not the party's own. */
  lemma SentOnChain(s: Session, es: Epochs, es1: Epochs, p: Party, st: Ratchet, handed: set<SkippedKeyId>,
                    packet: Packet)
    requires Scheduled(s, es) && PartyInv(s, es, p, st, handed) && Scheduled(s, es1) && Extends(es, es1)
    requires PacketRight(es1, packet) && es1[packet.epoch].owner == p
    requires SendEpoch(es, p) < 0 ==> forall i :: 0 <= i < |es1| ==> es1[i].private != st.sendPrivate
    ensures packet.epoch != SendEpoch(es, p) + 1
    ensures packet.header.dhPublic == Public(st.sendPrivate) <==> packet.epoch == SendEpoch(es, p)
  {
    hide Receiving, Extends;
    var k := SendEpoch(es, p);
    OwnersAlternate(s, es, p);
    if k >= 0 {
      ExtendsAt(es, es1, k);
      assert k + 1 < |es1| ==> Follows(es1[k], es1[k + 1]);
    }
  }

  lemma SentKey(s: Session, es: Epochs, es1: Epochs, p: Party, st: Ratchet, handed: set<SkippedKeyId>, packet: Packet)
    requires Scheduled(s, es) && PartyInv(s, es, p, st, handed) && Scheduled(s, es1) && Extends(es, es1)
    requires PacketRight(es1, packet) && es1[packet.epoch].owner == p && packet.epoch <= SendEpoch(es, p)
    requires st.sendPrivate != s.identityA && st.sendPrivate != s.identityB
    ensures
      Computable(SecretsOf(st), {st.sendPrivate}, packet.key) <==>
      st.sendChain.Some? && packet.epoch == SendEpoch(es, p) && st.sendIndex <= packet.header.n
  {
    hide Scheduled, StoredRight, ChainsFollow, NothingLost, Computable, Derivable, Extends, SecretsOf, Iterate;
    var known, j, n := SecretsOf(st), packet.epoch, packet.header.n;
    OwnersAlternate(s, es, p);
    ExtendsAt(es, es1, j);
    if st.sendChain.Some? && j == SendEpoch(es, p) && st.sendIndex <= n {
      SendChainHeld(st);
      ChainComputable(known, {st.sendPrivate}, es[j].start, st.sendIndex, n);
      MessageKeyComputable(known, {st.sendPrivate}, Iterate(es[j].start, n));
    } else {
      StoredIsPeers(s, es, p, ReceiveEpoch(es, p, st), st, Id(packet.header), j);
      KeyHidden(s, es, p, st, handed, j, n);
      if Computable(known, {st.sendPrivate}, packet.key) {
        ComputableIsDerivable(known, {st.sendPrivate}, IdentitySecret(s), packet.key);
      }
    }
  }

  lemma SendChainHeld(st: Ratchet)
    requires st.sendChain.Some?
    ensures forall privates :: Computable(SecretsOf(st), privates, st.sendChain.value)
  {
  }

  lemma MessageKeyComputable(known: set<Secret>, privates: set<PrivateKey>, chain: Secret)
    requires Computable(known, privates, chain)
    ensures Computable(known, privates, MessageKey(chain))
  {
  }
}
