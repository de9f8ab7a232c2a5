/** The double ratchet of `ratchet.rs`.

    Key material is symbolic: every KDF is a free constructor of `Secret`, so two
    derivations give the same key exactly when they have the same inputs, and a
    Diffie-Hellman output is an unordered pair, so both parties compute the same one.

    Each operation is given twice: as a function on `Ratchet` values, which the
    protocol theorems use, and as a method of the class `RatchetState`, which updates
    its fields in place and is proved to agree with the function.
  */
module Ratchet {
  import opened Wrappers
  import Bytes

  type PrivateKey = nat

  datatype PublicKey = Public(of: PrivateKey)

  /** The two private keys behind a Diffie-Hellman output, smaller one first. */
  datatype SharedSecret = SharedSecret(lo: PrivateKey, hi: PrivateKey)

  datatype Salt = Salt(first: Bytes.Bytes, second: Bytes.Bytes)

  datatype Secret =
    | InitialRoot(dh1: SharedSecret, dh2: SharedSecret, salt: Salt)
    | InitialChain(dh1: SharedSecret, dh2: SharedSecret, salt: Salt)
    | NextRoot(root: Secret, dh: SharedSecret)
    | FirstChain(root: Secret, dh: SharedSecret)
    | NextChain(chain: Secret)
    | MessageKey(chain: Secret)

  datatype RatchetHeader = RatchetHeader(dhPublic: PublicKey, pn: nat, n: nat)

  datatype ReceivingChain = ReceivingChain(chainKey: Secret, chainIndex: nat)

  datatype SkippedKeyId = SkippedKeyId(dhPublic: PublicKey, n: nat)

  datatype RatchetError = MissingSendingChain | MissingReceivingChain | TooManySkipped

  const MAX_SKIP: nat := 100

  function DiffieHellman(private: PrivateKey, public: PublicKey): SharedSecret {
    if private <= public.of then SharedSecret(private, public.of) else SharedSecret(public.of, private)
  }

  // ----- the initial agreement ---------------------------------------------------------

  function KdfInitial(dh1: SharedSecret, dh2: SharedSecret, iidA: Bytes.Bytes, iidB: Bytes.Bytes): (Secret, Secret) {
    var salt := if Bytes.Less(iidA, iidB) then Salt(iidA, iidB) else Salt(iidB, iidA);
    (InitialRoot(dh1, dh2, salt), InitialChain(dh1, dh2, salt))
  }

  function TwoDhInitiator(identity: PrivateKey, ephemeral: PrivateKey, peerIdentity: PublicKey)
      : (SharedSecret, SharedSecret) {
    (DiffieHellman(identity, peerIdentity), DiffieHellman(ephemeral, peerIdentity))
  }

  function TwoDhResponder(identity: PrivateKey, peerIdentity: PublicKey, peerEphemeral: PublicKey)
      : (SharedSecret, SharedSecret) {
    (DiffieHellman(identity, peerIdentity), DiffieHellman(identity, peerEphemeral))
  }

  /** The same two, in either order. */
  predicate SamePair<T(==)>(a: T, b: T, c: T, d: T) {
    (a == c && b == d) || (a == d && b == c)
  }

  /** A Diffie-Hellman output is that of its two private keys, and of no others. */
  lemma DiffieHellmanExactly(a: PrivateKey, b: PrivateKey, c: PrivateKey, d: PrivateKey)
    ensures DiffieHellman(a, Public(b)) == DiffieHellman(c, Public(d)) <==> SamePair(a, b, c, d)
  {
  }

  /** Root and chain key of a session depend on both outputs, each in its place, and on the two
      identities in either order. */
  lemma KdfInitialExactly(dh1: SharedSecret, dh2: SharedSecret, iidA: Bytes.Bytes, iidB: Bytes.Bytes,
                          other1: SharedSecret, other2: SharedSecret, otherA: Bytes.Bytes, otherB: Bytes.Bytes)
    ensures
      var (root, chain) := KdfInitial(dh1, dh2, iidA, iidB);
      var (root', chain') := KdfInitial(other1, other2, otherA, otherB);
      var same := dh1 == other1 && dh2 == other2 && SamePair(iidA, iidB, otherA, otherB);
      (root == root' <==> same) && (chain == chain' <==> same)
  {
    hide Bytes.Less;
    Bytes.LessTrichotomy(iidA, iidB);
    Bytes.LessTrichotomy(otherA, otherB);
    if Bytes.Less(iidA, iidB) {
      Bytes.LessAsymmetric(iidA, iidB);
    }
    if Bytes.Less(otherA, otherB) {
      Bytes.LessAsymmetric(otherA, otherB);
    }
  }

  /** Both ends of a fresh session derive the same root and chain key, whichever order
      each of them names the two identities in. */
  lemma InitialSecretsAgree(identityA: PrivateKey, ephemeralA: PrivateKey, identityB: PrivateKey,
                            iidA: Bytes.Bytes, iidB: Bytes.Bytes)
    ensures
      var (a1, a2) := TwoDhInitiator(identityA, ephemeralA, Public(identityB));
      var (b1, b2) := TwoDhResponder(identityB, Public(identityA), Public(ephemeralA));
      && KdfInitial(a1, a2, iidA, iidB) == KdfInitial(b1, b2, iidA, iidB)
      && KdfInitial(a1, a2, iidA, iidB) == KdfInitial(b1, b2, iidB, iidA)
  {
    Bytes.LessTrichotomy(iidA, iidB);
    if Bytes.Less(iidA, iidB) && Bytes.Less(iidB, iidA) {
      Bytes.LessAsymmetric(iidA, iidB);
    }
  }

  // ----- the state and its operations, as functions ------------------------------------

  datatype Ratchet = Ratchet(
    sendPrivate: PrivateKey,
    dhReceiving: PublicKey,
    root: Secret,
    sendChain: Option<Secret>,
    sendIndex: nat,
    previousLength: nat,
    chains: map<PublicKey, ReceivingChain>,
    skipped: map<SkippedKeyId, Secret>,
    maxSkip: nat)

  function Initiator(root: Secret, chain: Secret, peerIdentity: PublicKey, ephemeral: PrivateKey): Ratchet {
    Ratchet(ephemeral, peerIdentity, root, Some(chain), 0, 0, map[], map[], MAX_SKIP)
  }

  function Responder(root: Secret, chain: Secret, peerEphemeral: PublicKey, sending: PrivateKey): Ratchet {
    Ratchet(sending, peerEphemeral, root, None, 0, 0, map[peerEphemeral := ReceivingChain(chain, 0)], map[], MAX_SKIP)
  }

  datatype Sent = Sent(state: Ratchet, header: RatchetHeader, key: Secret)

  /** `initial_message_key`: the first key of the initiator's chain. */
  function InitialMessage(st: Ratchet): (r: (Ratchet, Result<Secret, RatchetError>)) {
    match st.sendChain
    case None => (st, Failure(MissingSendingChain))
    case Some(chain) =>
      (st.(sendChain := Some(NextChain(chain)), sendIndex := st.sendIndex + 1), Success(MessageKey(chain)))
  }

  /** `initial_receive_message_key`: the matching key at the responder. */
  function InitialReceive(st: Ratchet): (r: (Ratchet, Result<Secret, RatchetError>)) {
    if st.dhReceiving !in st.chains then
      (st, Failure(MissingReceivingChain))
    else
      var chain := st.chains[st.dhReceiving];
      (st.(chains := st.chains[st.dhReceiving := Advance(chain)]), Success(MessageKey(chain.chainKey)))
  }

  /** The lazy DH ratchet: a party without a sending chain makes one from a fresh key. */
  function StartSendingChain(st: Ratchet, newPrivate: PrivateKey): Ratchet {
    if st.sendChain.Some? then
      st
    else
      var dh := DiffieHellman(newPrivate, st.dhReceiving);
      st.(sendPrivate := newPrivate, previousLength := st.sendIndex, root := NextRoot(st.root, dh),
          sendChain := Some(FirstChain(st.root, dh)), sendIndex := 0)
  }

  function Encrypt(st: Ratchet, newPrivate: PrivateKey): Sent {
    var st1 := StartSendingChain(st, newPrivate);
    var chain := st1.sendChain.value;
    Sent(st1.(sendChain := Some(NextChain(chain)), sendIndex := st1.sendIndex + 1),
         RatchetHeader(Public(st1.sendPrivate), st1.previousLength, st1.sendIndex),
         MessageKey(chain))
  }

  function Advance(chain: ReceivingChain): ReceivingChain {
    ReceivingChain(NextChain(chain.chainKey), chain.chainIndex + 1)
  }

  datatype Skip = Skip(chain: ReceivingChain, skipped: map<SkippedKeyId, Secret>, ok: bool, steps: nat)

  /** The loop that advances a receiving chain to `until`, storing each message key it
      passes; it stops early, with `ok` false, when the store is full. */
  function SkipTo(dh: PublicKey, chain: ReceivingChain, until: nat, skipped: map<SkippedKeyId, Secret>,
                  maxSkip: nat): Skip
    decreases until - chain.chainIndex
  {
    if until <= chain.chainIndex then
      Skip(chain, skipped, true, 0)
    else if |skipped| >= maxSkip then
      Skip(chain, skipped, false, 0)
    else
      var id := SkippedKeyId(dh, chain.chainIndex);
      var rest := SkipTo(dh, Advance(chain), until, skipped[id := MessageKey(chain.chainKey)], maxSkip);
      rest.(steps := rest.steps + 1)
  }

  /** The state after a skip along the chain of `dh`. */
  function Skipped(st: Ratchet, dh: PublicKey, skip: Skip): Ratchet {
    st.(chains := st.chains[dh := skip.chain], skipped := skip.skipped)
  }

  /** The state after the next key of that chain was taken. */
  function Taken(st: Ratchet, dh: PublicKey): Ratchet
    requires dh in st.chains
  {
    st.(chains := st.chains[dh := Advance(st.chains[dh])])
  }

  datatype Received = Received(state: Ratchet, result: Result<Secret, RatchetError>, steps: nat)

  datatype SkippedCurrent = SkippedCurrent(state: Ratchet, ok: bool, steps: nat)

  /** `skip_message_keys` on the current receiving chain, if there is one. */
  function SkipCurrent(st: Ratchet, until: nat): SkippedCurrent {
    if st.dhReceiving !in st.chains then
      SkippedCurrent(st, true, 0)
    else
      var skip := SkipTo(st.dhReceiving, st.chains[st.dhReceiving], until, st.skipped, st.maxSkip);
      SkippedCurrent(Skipped(st, st.dhReceiving, skip), skip.ok, skip.steps)
  }

  function StartReceivingChain(st: Ratchet, dh: PublicKey): Ratchet {
    var secret := DiffieHellman(st.sendPrivate, dh);
    st.(dhReceiving := dh, root := NextRoot(st.root, secret), sendChain := None,
        chains := st.chains[dh := ReceivingChain(FirstChain(st.root, secret), 0)])
  }

  /** The tail of `ratchet_decrypt`: run the header's own chain up to the header. */
  function TakeFromChain(st: Ratchet, header: RatchetHeader): Received {
    if header.dhPublic !in st.chains then
      Received(st, Failure(MissingReceivingChain), 0)
    else
      var skip := SkipTo(header.dhPublic, st.chains[header.dhPublic], header.n, st.skipped, st.maxSkip);
      var st1 := Skipped(st, header.dhPublic, skip);
      if !skip.ok then
        Received(st1, Failure(TooManySkipped), skip.steps)
      else
        Received(Taken(st1, header.dhPublic), Success(MessageKey(skip.chain.chainKey)), skip.steps)
  }

  function Decrypt(st: Ratchet, header: RatchetHeader): Received {
    var id := SkippedKeyId(header.dhPublic, header.n);
    if id in st.skipped then
      Received(st.(skipped := st.skipped - {id}), Success(st.skipped[id]), 0)
    else if header.dhPublic != st.dhReceiving then
      var first := SkipCurrent(st, header.pn);
      if !first.ok then
        Received(first.state, Failure(TooManySkipped), first.steps)
      else
        var second := TakeFromChain(StartReceivingChain(first.state, header.dhPublic), header);
        second.(steps := first.steps + second.steps)
    else
      TakeFromChain(st, header)
  }

  // ----- the same operations, in place --------------------------------------------------

  class RatchetState {
    var dhSendingPrivate: PrivateKey
    var dhReceivingKey: PublicKey
    var rootKey: Secret
    var sendingChainKey: Option<Secret>
    var sendingChainIndex: nat
    var previousSendingChainLength: nat
    var receivingChains: map<PublicKey, ReceivingChain>
    var skippedKeys: map<SkippedKeyId, Secret>
    var maxSkip: nat

    ghost function Value(): Ratchet
      reads this
    {
      Ratchet(dhSendingPrivate, dhReceivingKey, rootKey, sendingChainKey, sendingChainIndex,
              previousSendingChainLength, receivingChains, skippedKeys, maxSkip)
    }

    constructor InitializeInitiator(root: Secret, chain: Secret, peerIdentity: PublicKey, ephemeral: PrivateKey)
      ensures Value() == Initiator(root, chain, peerIdentity, ephemeral)
    {
      dhSendingPrivate, dhReceivingKey, rootKey := ephemeral, peerIdentity, root;
      sendingChainKey, sendingChainIndex, previousSendingChainLength := Some(chain), 0, 0;
      receivingChains, skippedKeys, maxSkip := map[], map[], MAX_SKIP;
    }

    constructor InitializeResponder(root: Secret, chain: Secret, peerEphemeral: PublicKey, sending: PrivateKey)
      ensures Value() == Responder(root, chain, peerEphemeral, sending)
    {
      dhSendingPrivate, dhReceivingKey, rootKey := sending, peerEphemeral, root;
      sendingChainKey, sendingChainIndex, previousSendingChainLength := None, 0, 0;
      receivingChains, skippedKeys, maxSkip := map[peerEphemeral := ReceivingChain(chain, 0)], map[], MAX_SKIP;
    }

    method InitialMessageKey() returns (r: Result<Secret, RatchetError>)
      modifies this
      ensures (Value(), r) == InitialMessage(old(Value()))
    {
      if sendingChainKey.None? {
        return Failure(MissingSendingChain);
      }
      var chainKey := sendingChainKey.value;
      sendingChainKey := Some(NextChain(chainKey));
      var n := sendingChainIndex;
      if n == 0 {
        sendingChainIndex := 1;
      } else {
        sendingChainIndex := sendingChainIndex + 1;
      }
      r := Success(MessageKey(chainKey));
    }

    method InitialReceiveMessageKey() returns (r: Result<Secret, RatchetError>)
      modifies this
      ensures (Value(), r) == InitialReceive(old(Value()))
    {
      if dhReceivingKey !in receivingChains {
        return Failure(MissingReceivingChain);
      }
      var chain := receivingChains[dhReceivingKey];
      receivingChains := receivingChains[dhReceivingKey := Advance(chain)];
      r := Success(MessageKey(chain.chainKey));
    }

    /** `newPrivate` stands for the private key drawn from the system's random source. */
    method RatchetEncrypt(newPrivate: PrivateKey) returns (header: RatchetHeader, key: Secret)
      modifies this
      ensures Sent(Value(), header, key) == Encrypt(old(Value()), newPrivate)
    {
      if sendingChainKey.None? {
        previousSendingChainLength := sendingChainIndex;
        dhSendingPrivate := newPrivate;
        var dhOutput := DiffieHellman(dhSendingPrivate, dhReceivingKey);
        sendingChainKey := Some(FirstChain(rootKey, dhOutput));
        rootKey := NextRoot(rootKey, dhOutput);
        sendingChainIndex := 0;
      }
      var chainKey := sendingChainKey.value;
      var n := sendingChainIndex;
      sendingChainKey := Some(NextChain(chainKey));
      sendingChainIndex := sendingChainIndex + 1;
      header := RatchetHeader(Public(dhSendingPrivate), previousSendingChainLength, n);
      key := MessageKey(chainKey);
    }

    /** The loop both skip sites share; `steps` counts its iterations. */
    method SkipUntil(dh: PublicKey, until: nat) returns (ok: bool, ghost steps: nat)
      requires dh in receivingChains
      modifies this`receivingChains, this`skippedKeys
      ensures
        var skip := SkipTo(dh, old(receivingChains[dh]), until, old(skippedKeys), maxSkip);
        && receivingChains == old(receivingChains)[dh := skip.chain]
        && skippedKeys == skip.skipped && ok == skip.ok && steps == skip.steps
    {
      ghost var whole := SkipTo(dh, receivingChains[dh], until, skippedKeys, maxSkip);
      steps := 0;
      while receivingChains[dh].chainIndex < until
        invariant dh in receivingChains
        invariant receivingChains == old(receivingChains)[dh := receivingChains[dh]]
        invariant
          var rest := SkipTo(dh, receivingChains[dh], until, skippedKeys, maxSkip);
          whole == rest.(steps := steps + rest.steps)
        decreases until - receivingChains[dh].chainIndex
      {
        if |skippedKeys| >= maxSkip {
          return false, steps;
        }
        var chain := receivingChains[dh];
        skippedKeys := skippedKeys[SkippedKeyId(dh, chain.chainIndex) := MessageKey(chain.chainKey)];
        receivingChains := receivingChains[dh := Advance(chain)];
        steps := steps + 1;
      }
      ok := true;
    }

    method RatchetDecrypt(header: RatchetHeader) returns (r: Result<Secret, RatchetError>, ghost steps: nat)
      modifies this
      ensures Received(Value(), r, steps) == Decrypt(old(Value()), header)
    {
      var id := SkippedKeyId(header.dhPublic, header.n);
      steps := 0;
      if id in skippedKeys {
        r := Success(skippedKeys[id]);
        skippedKeys := skippedKeys - {id};
        return;
      }
      if header.dhPublic != dhReceivingKey {
        if dhReceivingKey in receivingChains {
          var ok, done := SkipUntil(dhReceivingKey, header.pn);
          steps := done;
          if !ok {
            return Failure(TooManySkipped), steps;
          }
        }
        dhReceivingKey := header.dhPublic;
        var dhOutput := DiffieHellman(dhSendingPrivate, dhReceivingKey);
        var receivingChainKey := FirstChain(rootKey, dhOutput);
        rootKey := NextRoot(rootKey, dhOutput);
        sendingChainKey := None;
        receivingChains := receivingChains[header.dhPublic := ReceivingChain(receivingChainKey, 0)];
      }
      if header.dhPublic !in receivingChains {
        return Failure(MissingReceivingChain), steps;
      }
      var ok, done := SkipUntil(header.dhPublic, header.n);
      steps := steps + done;
      if !ok {
        return Failure(TooManySkipped), steps;
      }
      var chain := receivingChains[header.dhPublic];
      receivingChains := receivingChains[header.dhPublic := Advance(chain)];
      r := Success(MessageKey(chain.chainKey));
    }
  }
}
