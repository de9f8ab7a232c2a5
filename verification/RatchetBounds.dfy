/** How much one `ratchet_decrypt` call can store and how long it can loop, for arbitrary
    headers: replayed, forged, or left behind by calls that returned an error.
  */
module RatchetBounds {
  import opened Ratchet

  type Store = map<SkippedKeyId, Secret>

  /** One key a loop passes over, with the id it is stored under. */
  datatype Entry = Entry(id: SkippedKeyId, key: Secret)

  /** The keys between a chain's index and `until`, in loop order. */
  function Ahead(dh: PublicKey, chain: ReceivingChain, until: nat): seq<Entry>
    decreases until - chain.chainIndex
  {
    if until <= chain.chainIndex then []
    else [Entry(SkippedKeyId(dh, chain.chainIndex), MessageKey(chain.chainKey))] + Ahead(dh, Advance(chain), until)
  }

  /** Every key a call would have to skip, in order, before it reaches its own: first the
      rest of the current chain when the header brings another DH key, then the header's chain. */
  function Wanted(st: Ratchet, header: RatchetHeader): seq<Entry> {
    if SkippedKeyId(header.dhPublic, header.n) in st.skipped then []
    else if header.dhPublic != st.dhReceiving then
      WantedOfCurrent(st, header.pn) + WantedOfNew(st, header)
    else if header.dhPublic in st.chains then
      Ahead(header.dhPublic, st.chains[header.dhPublic], header.n)
    else []
  }

  function WantedOfCurrent(st: Ratchet, pn: nat): seq<Entry> {
    if st.dhReceiving in st.chains then Ahead(st.dhReceiving, st.chains[st.dhReceiving], pn) else []
  }

  function WantedOfNew(st: Ratchet, header: RatchetHeader): seq<Entry> {
    var chain := FirstChain(st.root, DiffieHellman(st.sendPrivate, header.dhPublic));
    Ahead(header.dhPublic, ReceivingChain(chain, 0), header.n)
  }

  ghost predicate Distinct(entries: seq<Entry>) {
    forall i, j :: 0 <= i < j < |entries| ==> entries[i].id != entries[j].id
  }

  lemma {:induction false} AheadAt(dh: PublicKey, chain: ReceivingChain, until: nat, i: nat)
    requires i < |Ahead(dh, chain, until)|
    ensures Ahead(dh, chain, until)[i].id == SkippedKeyId(dh, chain.chainIndex + i)
    decreases i
  {
    if i > 0 {
      AheadAt(dh, Advance(chain), until, i - 1);
    }
  }

  lemma {:induction false} AheadLength(dh: PublicKey, chain: ReceivingChain, until: nat)
    ensures |Ahead(dh, chain, until)| == if until <= chain.chainIndex then 0 else until - chain.chainIndex
    decreases until - chain.chainIndex
  {
    if chain.chainIndex < until {
      AheadLength(dh, Advance(chain), until);
    }
  }

  function Gap(index: nat, until: nat): nat {
    if until <= index then 0 else until - index
  }

  /** The number of those keys: what is left of the current chain up to `pn` when the header
      brings another DH key, plus what lies before the header on its own chain. */
  lemma WantedLength(st: Ratchet, header: RatchetHeader)
    requires SkippedKeyId(header.dhPublic, header.n) !in st.skipped
    ensures
      var index := if st.dhReceiving in st.chains then st.chains[st.dhReceiving].chainIndex else 0;
      |Wanted(st, header)| ==
      if st.dhReceiving !in st.chains then (if header.dhPublic != st.dhReceiving then header.n else 0)
      else if header.dhPublic != st.dhReceiving then Gap(index, header.pn) + header.n
      else Gap(index, header.n)
  {
    if st.dhReceiving in st.chains {
      AheadLength(st.dhReceiving, st.chains[st.dhReceiving], header.pn);
      AheadLength(st.dhReceiving, st.chains[st.dhReceiving], header.n);
    }
    var chain := FirstChain(st.root, DiffieHellman(st.sendPrivate, header.dhPublic));
    AheadLength(header.dhPublic, ReceivingChain(chain, 0), header.n);
  }

  lemma WantedDistinct(st: Ratchet, header: RatchetHeader)
    ensures Distinct(Wanted(st, header))
  {
    forall dh: PublicKey, chain: ReceivingChain, until: nat, i: nat | i < |Ahead(dh, chain, until)|
      ensures Ahead(dh, chain, until)[i].id == SkippedKeyId(dh, chain.chainIndex + i)
    {
      AheadAt(dh, chain, until, i);
    }
  }

  // ----- the loops as one walk over a list of keys --------------------------------------

  datatype Walked = Walked(stored: Store, steps: nat)

  function Walk(entries: seq<Entry>, stored: Store, maxSkip: nat): Walked {
    if entries == [] || |stored| >= maxSkip then
      Walked(stored, 0)
    else
      var rest := Walk(entries[1..], stored[entries[0].id := entries[0].key], maxSkip);
      rest.(steps := rest.steps + 1)
  }

  lemma StoreGrows(stored: Store, entry: Entry)
    ensures
      var stored1 := stored[entry.id := entry.key];
      && stored1.Keys == stored.Keys + {entry.id}
      && |stored1| == if entry.id in stored then |stored| else |stored| + 1
  {
    var stored1 := stored[entry.id := entry.key];
    assert stored1.Keys == stored.Keys + {entry.id};
    assert |stored1| == |stored1.Keys|;
  }

  lemma {:induction false} WalkSteps(entries: seq<Entry>, stored: Store, maxSkip: nat)
    ensures
      var w := Walk(entries, stored, maxSkip);
      && w.steps <= |entries|
      && (|entries| <= maxSkip - |stored| ==> w.steps == |entries|)
      && (|entries| > maxSkip - |stored| ==> w.steps >= maxSkip - |stored|)
  {
    if entries != [] && |stored| < maxSkip {
      StoreGrows(stored, entries[0]);
      WalkSteps(entries[1..], stored[entries[0].id := entries[0].key], maxSkip);
    }
  }

  /** A walk never overfills the store, and the keys it passed are all in it. */
  lemma {:induction false} WalkStores(entries: seq<Entry>, stored: Store, maxSkip: nat)
    requires |stored| <= maxSkip
    ensures
      var w := Walk(entries, stored, maxSkip);
      && w.steps <= |entries|
      && |w.stored| <= maxSkip
      && stored.Keys <= w.stored.Keys
      && forall i :: 0 <= i < w.steps ==> entries[i].id in w.stored
  {
    if entries != [] && |stored| < maxSkip {
      var stored1 := stored[entries[0].id := entries[0].key];
      StoreGrows(stored, entries[0]);
      WalkStores(entries[1..], stored1, maxSkip);
      var w := Walk(entries, stored, maxSkip);
      forall i | 0 <= i < w.steps ensures entries[i].id in w.stored {
        if i > 0 { assert entries[i] == entries[1..][i - 1]; }
      }
    }
  }

  lemma {:induction false} WalkAppend(a: seq<Entry>, b: seq<Entry>, stored: Store, maxSkip: nat)
    ensures
      var w := Walk(a, stored, maxSkip);
      Walk(a + b, stored, maxSkip) ==
      if w.steps < |a| then w
      else var rest := Walk(b, w.stored, maxSkip); rest.(steps := w.steps + rest.steps)
  {
    if a == [] {
      assert a + b == b;
    } else if |stored| < maxSkip {
      assert (a + b)[1..] == a[1..] + b;
      WalkAppend(a[1..], b, stored[a[0].id := a[0].key], maxSkip);
    }
  }

  lemma {:induction false} SkipToWalks(dh: PublicKey, chain: ReceivingChain, until: nat, skipped: Store, maxSkip: nat)
    ensures
      var skip := SkipTo(dh, chain, until, skipped, maxSkip);
      var ahead := Ahead(dh, chain, until);
      && Walked(skip.skipped, skip.steps) == Walk(ahead, skipped, maxSkip)
      && (skip.ok <==> skip.steps == |ahead|)
    decreases until - chain.chainIndex
  {
    if chain.chainIndex < until && |skipped| < maxSkip {
      var entry := Entry(SkippedKeyId(dh, chain.chainIndex), MessageKey(chain.chainKey));
      SkipToWalks(dh, Advance(chain), until, skipped[entry.id := entry.key], maxSkip);
      assert Ahead(dh, chain, until)[1..] == Ahead(dh, Advance(chain), until);
    }
  }

  /** One call is one walk over the keys it wants; it takes its own key exactly when the
      walk reaches the end and the header's chain exists. */
  lemma DecryptWalks(st: Ratchet, header: RatchetHeader)
    requires SkippedKeyId(header.dhPublic, header.n) !in st.skipped
    ensures
      var r := Decrypt(st, header);
      var wanted := Wanted(st, header);
      && Walked(r.state.skipped, r.steps) == Walk(wanted, st.skipped, st.maxSkip)
      && (r.result.Success? <==>
          r.steps == |wanted| && !(header.dhPublic == st.dhReceiving && st.dhReceiving !in st.chains))
  {
    if header.dhPublic == st.dhReceiving {
      if header.dhPublic in st.chains {
        SkipToWalks(header.dhPublic, st.chains[header.dhPublic], header.n, st.skipped, st.maxSkip);
      }
    } else {
      var earlier, later := WantedOfCurrent(st, header.pn), WantedOfNew(st, header);
      var first := SkipCurrent(st, header.pn);
      if st.dhReceiving in st.chains {
        SkipToWalks(st.dhReceiving, st.chains[st.dhReceiving], header.pn, st.skipped, st.maxSkip);
      }
      WalkAppend(earlier, later, st.skipped, st.maxSkip);
      WalkSteps(earlier, st.skipped, st.maxSkip);
      var st1 := StartReceivingChain(first.state, header.dhPublic);
      SkipToWalks(header.dhPublic, st1.chains[header.dhPublic], header.n, st1.skipped, st1.maxSkip);
    }
  }

  // ----- bounds that hold for every header -------------------------------------------------

  lemma {:induction false} DistinctIdsFit(entries: seq<Entry>, k: nat, ids: set<SkippedKeyId>)
    requires Distinct(entries) && k <= |entries|
    requires forall i :: 0 <= i < k ==> entries[i].id in ids
    ensures k <= |ids|
  {
    if k > 0 {
      DistinctIdsFit(entries, k - 1, ids - {entries[k - 1].id});
    }
  }

  /** Whatever the header, a call keeps the store within `maxSkip` and loops at most
      `maxSkip` times over both of its loops. */
  lemma DecryptBounded(st: Ratchet, header: RatchetHeader)
    requires |st.skipped| <= st.maxSkip
    ensures
      var r := Decrypt(st, header);
      && |r.state.skipped| <= r.state.maxSkip == st.maxSkip
      && r.steps <= st.maxSkip
  {
    var id := SkippedKeyId(header.dhPublic, header.n);
    var r := Decrypt(st, header);
    if id in st.skipped {
      assert st.skipped == r.state.skipped[id := st.skipped[id]];
      StoreGrows(r.state.skipped, Entry(id, st.skipped[id]));
    } else {
      var wanted := Wanted(st, header);
      DecryptWalks(st, header);
      WantedDistinct(st, header);
      WalkStores(wanted, st.skipped, st.maxSkip);
      DistinctIdsFit(wanted, r.steps, r.state.skipped.Keys);
      assert |r.state.skipped.Keys| == |r.state.skipped|;
    }
  }

  datatype Call =
    | CallInitial
    | CallInitialReceive
    | CallEncrypt(newPrivate: PrivateKey)
    | CallDecrypt(header: RatchetHeader)

  function Perform(st: Ratchet, call: Call): Ratchet {
    match call
    case CallInitial => InitialMessage(st).0
    case CallInitialReceive => InitialReceive(st).0
    case CallEncrypt(newPrivate) => Encrypt(st, newPrivate).state
    case CallDecrypt(header) => Decrypt(st, header).state
  }

  function PerformAll(st: Ratchet, calls: seq<Call>): Ratchet
    decreases |calls|
  {
    if calls == [] then st else PerformAll(Perform(st, calls[0]), calls[1..])
  }

  /** In every run from either initial state, with any calls and any headers, no more than
      `MAX_SKIP` keys are ever stored. */
  lemma {:induction false} StoreBoundedInEveryRun(st: Ratchet, calls: seq<Call>)
    requires |st.skipped| <= st.maxSkip == MAX_SKIP
    ensures |PerformAll(st, calls).skipped| <= PerformAll(st, calls).maxSkip == MAX_SKIP
    decreases |calls|
  {
    if calls != [] {
      if calls[0].CallDecrypt? {
        DecryptBounded(st, calls[0].header);
      }
      StoreBoundedInEveryRun(Perform(st, calls[0]), calls[1..]);
    }
  }

  // ----- the tighter bound, and exactly when it holds ---------------------------------------

  /** None of the first `room` keys the call would skip is in the store yet. */
  ghost predicate NothingStale(entries: seq<Entry>, stored: Store, room: int) {
    |entries| <= room || forall i :: 0 <= i < room ==> entries[i].id !in stored
  }

  lemma {:induction false} WalkWithinRoom(entries: seq<Entry>, stored: Store, maxSkip: nat)
    requires |stored| <= maxSkip && Distinct(entries)
    ensures Walk(entries, stored, maxSkip).steps <= maxSkip - |stored|
       <==> NothingStale(entries, stored, maxSkip - |stored|)
  {
    var room := maxSkip - |stored|;
    WalkSteps(entries, stored, maxSkip);
    if entries != [] && room > 0 {
      var tail, stored1 := entries[1..], stored[entries[0].id := entries[0].key];
      StoreGrows(stored, entries[0]);
      if entries[0].id in stored {
        WalkSteps(tail, stored1, maxSkip);
      } else {
        WalkWithinRoom(tail, stored1, maxSkip);
        NothingStaleTail(entries, stored, room);
      }
    }
  }

  lemma NothingStaleTail(entries: seq<Entry>, stored: Store, room: nat)
    requires entries != [] && room > 0 && Distinct(entries) && entries[0].id !in stored
    ensures NothingStale(entries[1..], stored[entries[0].id := entries[0].key], room - 1)
       <==> NothingStale(entries, stored, room)
  {
    var tail := entries[1..];
    assert forall i :: 0 <= i < |tail| ==> tail[i] == entries[i + 1] && tail[i].id != entries[0].id;
    assert forall i :: 1 <= i < |entries| ==> entries[i] == tail[i - 1];
  }

  /** A call skips no more keys than the store had room for if and only if none of the keys
      that fit would overwrite one already stored. */
  lemma WorkWithinRoomExactly(st: Ratchet, header: RatchetHeader)
    requires |st.skipped| <= st.maxSkip
    ensures Decrypt(st, header).steps <= st.maxSkip - |st.skipped|
       <==> NothingStale(Wanted(st, header), st.skipped, st.maxSkip - |st.skipped|)
  {
    if SkippedKeyId(header.dhPublic, header.n) !in st.skipped {
      DecryptWalks(st, header);
      WantedDistinct(st, header);
      WalkWithinRoom(Wanted(st, header), st.skipped, st.maxSkip);
    }
  }

  /** The state of the counterexample: a responder that skipped a key of one DH key's chain
      and has since moved on to a second DH key. */
  function AfterTwoDhSteps(root: Secret, chain: Secret): Ratchet {
    var start := Responder(root, chain, Public(0), 9);
    PerformAll(start, [CallDecrypt(RatchetHeader(Public(1), 0, 1)), CallDecrypt(RatchetHeader(Public(2), 0, 0))])
  }

  lemma AfterFirstDhStep(root: Secret, chain: Secret)
    ensures
      var st := Decrypt(Responder(root, chain, Public(0), 9), RatchetHeader(Public(1), 0, 1)).state;
      && st.skipped.Keys == {SkippedKeyId(Public(1), 0)}
      && st.dhReceiving == Public(1) && st.maxSkip == MAX_SKIP
  {
    var start, h := Responder(root, chain, Public(0), 9), RatchetHeader(Public(1), 0, 1);
    var chain1 := ReceivingChain(FirstChain(root, DiffieHellman(9, Public(1))), 0);
    var entry := Entry(SkippedKeyId(Public(1), 0), MessageKey(chain1.chainKey));
    assert Ahead(Public(1), Advance(chain1), 1) == [];
    assert WantedOfCurrent(start, 0) == [] && WantedOfNew(start, h) == [entry];
    assert Wanted(start, h) == [] + [entry] == [entry];
    assert [entry][1..] == [];
    DecryptWalks(start, h);
  }

  lemma SecondDhStep(st: Ratchet)
    requires st.dhReceiving != Public(2) && SkippedKeyId(Public(2), 0) !in st.skipped
    ensures
      var st' := Decrypt(st, RatchetHeader(Public(2), 0, 0)).state;
      st'.skipped == st.skipped && st'.dhReceiving == Public(2) && st'.maxSkip == st.maxSkip
  {
    var h := RatchetHeader(Public(2), 0, 0);
    assert WantedOfCurrent(st, 0) == [] && WantedOfNew(st, h) == [] && Wanted(st, h) == [];
    DecryptWalks(st, h);
  }

  lemma AfterTwoDhStepsState(root: Secret, chain: Secret)
    ensures
      var st := AfterTwoDhSteps(root, chain);
      && st.skipped.Keys == {SkippedKeyId(Public(1), 0)}
      && st.dhReceiving == Public(2) && st.maxSkip == MAX_SKIP
  {
    hide Decrypt;
    AfterFirstDhStep(root, chain);
    SecondDhStep(Decrypt(Responder(root, chain, Public(0), 9), RatchetHeader(Public(1), 0, 1)).state);
    var calls := [CallDecrypt(RatchetHeader(Public(1), 0, 1)), CallDecrypt(RatchetHeader(Public(2), 0, 0))];
    assert calls[1..] == [calls[1]] && calls[1..][1..] == [];
  }

  /** The tighter bound is false in general: when the first DH key of that state is seen
      again its chain restarts and the loop walks over the stale entry, 100 steps with
      room for 99. */
  lemma WorkWithinRoomFails(root: Secret, chain: Secret)
    ensures
      var st := AfterTwoDhSteps(root, chain);
      && st.maxSkip == 100 && |st.skipped| == 1
      && Decrypt(st, RatchetHeader(Public(1), 0, 100)).steps == 100
  {
    var st := AfterTwoDhSteps(root, chain);
    var header := RatchetHeader(Public(1), 0, 100);
    AfterTwoDhStepsState(root, chain);
    assert |st.skipped| == |st.skipped.Keys| == 1;
    var later := WantedOfNew(st, header);
    assert WantedOfCurrent(st, 0) == [] && Wanted(st, header) == later;
    var chain1 := ReceivingChain(FirstChain(st.root, DiffieHellman(st.sendPrivate, Public(1))), 0);
    AheadLength(Public(1), chain1, 100);
    AheadAt(Public(1), chain1, 100, 0);
    assert later[0].id in st.skipped.Keys;
    WorkWithinRoomExactly(st, header);
    DecryptBounded(st, header);
  }
}
