/** What the schedule invariant means for every run of two parties: receivers get their
    senders' keys, delivery succeeds exactly when the skipped keys fit, and no key is handed
    out twice.
  */
module RatchetAgreement {
  import opened Wrappers
  import opened Ratchet
  import RatchetBounds
  import opened RatchetSchedule

  // ----- the theorems -----------------------------------------------------------------------------

  lemma EveryRunKeepsInv(s: Session, events: seq<Event>)
    requires s.ephemeralA != s.identityB && ValidRun(Start(s), events)
    ensures Inv(Run(Start(s), events))
  {
    StartInv(s);
    RunKeepsInv(Start(s), events);
  }

  /** Sending chain `j` is the other party's, and the one the DH key names. */
  predicate SentOn(es: Epochs, p: Party, j: int, dh: PublicKey) {
    0 <= j < |es| && es[j].owner == Peer(p) && es[j].private == dh.of
  }

  /** The chain is the `chainIndex`-th step of sending chain `j`. */
  predicate OnPeersChain(es: Epochs, p: Party, j: int, dh: PublicKey, chain: ReceivingChain) {
    SentOn(es, p, j, dh) && chain.chainKey == Iterate(es[j].start, chain.chainIndex)
  }

  /** In every run, for either party: every receiving chain key is the `chainIndex`-th iterate of
      the key its peer's sending chain started from; every stored key lies behind its chain and is
      the message key its id names; and every key a chain has passed is stored or was handed out. */
  lemma EveryRunOnSchedule(s: Session, events: seq<Event>, p: Party)
    requires s.ephemeralA != s.identityB && ValidRun(Start(s), events)
    ensures
      var sys := Run(Start(s), events);
      var es, st := sys.epochs, StateOf(sys, p);
      && (forall dh :: dh in st.chains ==> exists j :: OnPeersChain(es, p, j, dh, st.chains[dh]))
      && (forall id :: id in st.skipped ==>
            && id.dhPublic in st.chains && id.n < st.chains[id.dhPublic].chainIndex
            && exists j :: SentOn(es, p, j, id.dhPublic) && st.skipped[id] == es[j].KeyAt(id.n))
      && (forall dh, n: nat :: dh in st.chains && n < st.chains[dh].chainIndex ==>
            SkippedKeyId(dh, n) in st.skipped || SkippedKeyId(dh, n) in sys.handed)
  {
    EveryRunKeepsInv(s, events);
    var sys := Run(Start(s), events);
    ReceivingFacts(sys.epochs, p, ReceiveEpoch(sys.epochs, p, StateOf(sys, p)), StateOf(sys, p), sys.handed.Keys);
  }

  lemma ReceivingFacts(es: Epochs, p: Party, r: int, st: Ratchet, handed: set<SkippedKeyId>)
    requires Receiving(es, p, r, st, handed)
    ensures forall dh :: dh in st.chains ==> exists j :: OnPeersChain(es, p, j, dh, st.chains[dh])
    ensures forall id :: id in st.skipped ==>
      && id.dhPublic in st.chains && id.n < st.chains[id.dhPublic].chainIndex
      && exists j :: SentOn(es, p, j, id.dhPublic) && st.skipped[id] == es[j].KeyAt(id.n)
    ensures forall dh, n: nat :: dh in st.chains && n < st.chains[dh].chainIndex ==>
      SkippedKeyId(dh, n) in st.skipped || SkippedKeyId(dh, n) in handed
  {
    forall dh | dh in st.chains
      ensures exists j :: OnPeersChain(es, p, j, dh, st.chains[dh])
    {
      var j :| Installed(es, p, r, j) && es[j].private == dh.of;
      assert Public(es[j].private) == dh;
      assert OnPeersChain(es, p, j, dh, st.chains[dh]);
    }
    forall id | id in st.skipped
      ensures id.dhPublic in st.chains && id.n < st.chains[id.dhPublic].chainIndex
      ensures exists j :: SentOn(es, p, j, id.dhPublic) && st.skipped[id] == es[j].KeyAt(id.n)
    {
      var j :| RightKey(es, p, r, st.chains, j, id, st.skipped[id]);
      assert SentOn(es, p, j, id.dhPublic);
    }
  }

  lemma HandedIsSent(sys: System, packet: Packet)
    requires Scheduled(sys.session, sys.epochs) && SentRight(sys) && HandedRight(sys)
    requires packet in sys.sent && Id(packet.header) in sys.handed
    ensures sys.handed[Id(packet.header)] == packet.key
  {
    var id := Id(packet.header);
    var other :| other in sys.sent && Id(other.header) == id && other.key == sys.handed[id];
    assert PacketRight(sys.epochs, packet) && PacketRight(sys.epochs, other);
    assert packet.epoch == other.epoch;
  }

  /** In every run, every key a receiver was given for a header is exactly the key its
      sender drew with that header, late messages from chains long left behind included. */
  lemma AgreementInEveryRun(s: Session, events: seq<Event>, packet: Packet)
    requires s.ephemeralA != s.identityB && ValidRun(Start(s), events)
    requires packet in Run(Start(s), events).sent && Id(packet.header) in Run(Start(s), events).handed
    ensures Run(Start(s), events).handed[Id(packet.header)] == packet.key
  {
    EveryRunKeepsInv(s, events);
    HandedIsSent(Run(Start(s), events), packet);
  }

  lemma FreshWalkFinishes(entries: seq<RatchetBounds.Entry>, stored: RatchetBounds.Store, maxSkip: nat)
    requires |stored| <= maxSkip && RatchetBounds.Distinct(entries)
    requires forall i :: 0 <= i < |entries| ==> entries[i].id !in stored
    ensures RatchetBounds.Walk(entries, stored, maxSkip).steps == |entries| <==> |stored| + |entries| <= maxSkip
  {
    RatchetBounds.WalkSteps(entries, stored, maxSkip);
    RatchetBounds.WalkWithinRoom(entries, stored, maxSkip);
  }

  /** Nothing an answered schedule still has ahead of it is already stored. */
  lemma WantedIsFresh(s: Session, es: Epochs, p: Party, st: Ratchet, handed: set<SkippedKeyId>, packet: Packet)
    requires Scheduled(s, es) && PartyInv(s, es, p, st, handed)
    requires PacketRight(es, packet) && es[packet.epoch].owner == Peer(p)
    requires Id(packet.header) !in st.skipped && Id(packet.header) !in handed
    ensures
      var wanted := RatchetBounds.Wanted(st, packet.header);
      forall i :: 0 <= i < |wanted| ==> wanted[i].id !in st.skipped
  {
    var header, wanted := packet.header, RatchetBounds.Wanted(st, packet.header);
    PacketPlace(s, es, p, st, handed, packet);
    forall i | 0 <= i < |wanted| ensures wanted[i].id !in st.skipped {
      var earlier := if header.dhPublic != st.dhReceiving then RatchetBounds.WantedOfCurrent(st, header.pn) else [];
      var k := i - |earlier|;
      if header.dhPublic == st.dhReceiving || k < 0 {
        RatchetBounds.AheadAt(st.dhReceiving, st.chains[st.dhReceiving],
                              if k < 0 then header.pn else header.n, i);
        PassedIsBehind(es, p, ReceiveEpoch(es, p, st), st, wanted[i].id);
      } else {
        var chain := ReceivingChain(FirstChain(st.root, DiffieHellman(st.sendPrivate, header.dhPublic)), 0);
        RatchetBounds.AheadAt(header.dhPublic, chain, header.n, k);
        NewIsNotStored(s, es, p, ReceiveEpoch(es, p, st), st, packet.epoch, wanted[i].id);
      }
    }
  }

  lemma PassedIsBehind(es: Epochs, p: Party, r: int, st: Ratchet, id: SkippedKeyId)
    requires StoredRight(es, p, r, st) && id.dhPublic in st.chains && st.chains[id.dhPublic].chainIndex <= id.n
    ensures id !in st.skipped
  {
  }

  lemma NewIsNotStored(s: Session, es: Epochs, p: Party, r: int, st: Ratchet, k: int, id: SkippedKeyId)
    requires Scheduled(s, es) && StoredRight(es, p, r, st) && r < k && 0 <= k < |es|
    requires id.dhPublic == Public(es[k].private)
    ensures id !in st.skipped
  {
  }

  lemma DeliverExactly(s: Session, es: Epochs, p: Party, st: Ratchet, handed: set<SkippedKeyId>, packet: Packet)
    requires Scheduled(s, es) && PartyInv(s, es, p, st, handed)
    requires PacketRight(es, packet) && es[packet.epoch].owner == Peer(p) && Id(packet.header) !in handed
    ensures
      Decrypt(st, packet.header).result ==
      if Id(packet.header) in st.skipped || |st.skipped| + |RatchetBounds.Wanted(st, packet.header)| <= st.maxSkip
      then Success(packet.key) else Failure(TooManySkipped)
  {
    DeliverKeeps(s, es, p, st, handed, packet);
    if Id(packet.header) !in st.skipped {
      var wanted := RatchetBounds.Wanted(st, packet.header);
      WantedIsFresh(s, es, p, st, handed, packet);
      RatchetBounds.WantedDistinct(st, packet.header);
      RatchetBounds.DecryptWalks(st, packet.header);
      FreshWalkFinishes(wanted, st.skipped, st.maxSkip);
      PacketPlace(s, es, p, st, handed, packet);
    }
  }

  /** In every run, delivering a header that was not answered yet succeeds with its sender's
      key exactly when that key is stored or the keys to be skipped first fit in the store;
      otherwise the call reports `TooManySkipped`, and the header can be delivered again. */
  lemma DeliveryInEveryRun(s: Session, events: seq<Event>, to: Party, packet: Packet)
    requires s.ephemeralA != s.identityB && ValidRun(Start(s), events)
    requires
      var sys := Run(Start(s), events);
      packet in sys.sent && SentTo(sys, packet, to) && Id(packet.header) !in sys.handed
    ensures
      var st := StateOf(Run(Start(s), events), to);
      Decrypt(st, packet.header).result ==
      if Id(packet.header) in st.skipped || |st.skipped| + |RatchetBounds.Wanted(st, packet.header)| <= st.maxSkip
      then Success(packet.key) else Failure(TooManySkipped)
  {
    hide PartyInv, Scheduled;
    EveryRunKeepsInv(s, events);
    var sys := Run(Start(s), events);
    assert PacketRight(sys.epochs, packet);
    DeliverExactly(sys.session, sys.epochs, to, StateOf(sys, to), sys.handed.Keys, packet);
  }

  // ----- no message key twice -----------------------------------------------------------------------

  lemma {:induction false} IterateInjective(c: Secret, d: Secret, n: nat, m: nat)
    requires !c.NextChain? && !d.NextChain? && Iterate(c, n) == Iterate(d, m)
    ensures c == d && n == m
  {
    if n > 0 && m > 0 {
      IterateInjective(c, d, n - 1, m - 1);
    }
  }

  function RootDepth(root: Secret): nat {
    if root.NextRoot? then 1 + RootDepth(root.root) else 0
  }

  lemma {:induction false} RootDepthAt(s: Session, es: Epochs, k: nat)
    requires Scheduled(s, es) && k < |es|
    ensures RootDepth(es[k].root) == k
  {
    if k > 0 {
      RootDepthAt(s, es, k - 1);
      assert Follows(es[k - 1], es[k]);
    }
  }

  lemma StartsDiffer(s: Session, es: Epochs, i: nat, j: nat)
    requires Scheduled(s, es) && i < j < |es|
    ensures es[i].start != es[j].start && !es[i].start.NextChain? && !es[j].start.NextChain?
  {
    assert Follows(es[j - 1], es[j]);
    RootDepthAt(s, es, j - 1);
    if i > 0 {
      assert Follows(es[i - 1], es[i]);
      RootDepthAt(s, es, i - 1);
    }
  }

  lemma KeysDiffer(s: Session, es: Epochs, i: nat, j: nat, n: nat, m: nat)
    requires Scheduled(s, es) && i < |es| && j < |es| && es[i].KeyAt(n) == es[j].KeyAt(m)
    ensures i == j && n == m
  {
    if i < j {
      StartsDiffer(s, es, i, j);
    } else if j < i {
      StartsDiffer(s, es, j, i);
    } else if i > 0 {
      StartsDiffer(s, es, 0, i);
    }
    IterateInjective(es[i].start, es[j].start, n, m);
  }

  lemma HandedDiffer(sys: System, a: SkippedKeyId, b: SkippedKeyId)
    requires Scheduled(sys.session, sys.epochs) && SentRight(sys) && HandedRight(sys)
    requires a in sys.handed && b in sys.handed && sys.handed[a] == sys.handed[b]
    ensures a == b
  {
    var pa :| pa in sys.sent && Id(pa.header) == a && pa.key == sys.handed[a];
    var pb :| pb in sys.sent && Id(pb.header) == b && pb.key == sys.handed[b];
    assert PacketRight(sys.epochs, pa) && PacketRight(sys.epochs, pb);
    KeysDiffer(sys.session, sys.epochs, pa.epoch, pb.epoch, pa.header.n, pb.header.n);
  }

  /** In every run, no message key is handed out for two different messages; since a header
      is answered at most once, no message key is handed out twice. */
  lemma NoKeyTwiceInEveryRun(s: Session, events: seq<Event>, a: SkippedKeyId, b: SkippedKeyId)
    requires s.ephemeralA != s.identityB && ValidRun(Start(s), events)
    requires a in Run(Start(s), events).handed && b in Run(Start(s), events).handed && a != b
    ensures Run(Start(s), events).handed[a] != Run(Start(s), events).handed[b]
  {
    EveryRunKeepsInv(s, events);
    var sys := Run(Start(s), events);
    if sys.handed[a] == sys.handed[b] {
      HandedDiffer(sys, a, b);
    }
  }
}
