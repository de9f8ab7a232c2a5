/** The request / offer / accept / operations exchange of `sync.rs`, by which one session
    pulls what it lacks from another.
  */
module SyncExchange {
  import opened Wrappers
  import opened Bytes
  import opened SyncStore
  import opened SyncMerkle

  datatype SyncRequest = SyncRequest(documentId: Bytes, merkleRoot: Hash)
  datatype SyncOffer = SyncOffer(documentId: Bytes, operationIds: seq<Bytes>)
  datatype SyncAccept = SyncAccept(documentId: Bytes, wantedIds: seq<Bytes>)
  datatype SyncOperations = SyncOperations(documentId: Bytes, operations: seq<Bytes>)
  datatype SyncAck = SyncAck(documentId: Bytes, operationIds: seq<Bytes>)

  // ----- a store's operations in their order ----------------------------------------------

  ghost predicate UnderOwnId(ops: Operations) {
    forall id :: id in ops ==> ops[id].id == id
  }

  ghost function Enumeration(ops: Operations): (records: seq<Record>)
    requires UnderOwnId(ops)
    ensures Enumerates(records, ops)
  {
    if |ops| == 0 then
      []
    else
      var id :| id in ops;
      var rest := ops - {id};
      assert ops == rest[id := ops[id]];
      EnumerateOneMore(Enumeration(rest), rest, ops[id]);
      Enumeration(rest) + [ops[id]]
  }

  /** The stored records in operation order. */
  ghost function Listing(ops: Operations): seq<Record>
    requires UnderOwnId(ops)
  {
    OrderedOperations(Enumeration(ops))
  }

  ghost function StoreRoot(ops: Operations): Hash
    requires UnderOwnId(ops)
  {
    MerkleRoot(Enumeration(ops))
  }

  /** Neither depends on the order in which the hash map yields the records. */
  lemma OrderOfRecordsIrrelevant(records: seq<Record>, ops: Operations)
    requires UnderOwnId(ops) && Enumerates(records, ops)
    ensures OrderedOperations(records) == Listing(ops) && MerkleRoot(records) == StoreRoot(ops)
  {
    EnumerationsAgree(records, Enumeration(ops), ops);
    OrderedLength(records);
    OrderedLength(Enumeration(ops));
  }

  lemma ListingExact(ops: Operations)
    requires UnderOwnId(ops)
    ensures InOrder(Listing(ops))
    ensures forall r :: r in Listing(ops) <==> r.id in ops && ops[r.id] == r
  {
    var records := Enumeration(ops);
    OrderedInOrder(records);
  }

  /** The listing goes by the bytes of the stamps, and so by the clock first. */
  lemma ListingByTime(ops: Operations, i: nat, j: nat)
    requires UnderOwnId(ops) && i < |Listing(ops)| && j < |Listing(ops)|
    ensures Less(Stamp(Listing(ops)[i]), Stamp(Listing(ops)[j])) <==> i < j
    ensures Earlier(Listing(ops)[i], Listing(ops)[j]) ==> i < j
  {
    hide Listing, Stamp, Less;
    ListingExact(ops);
    var a, b := Listing(ops)[i], Listing(ops)[j];
    BeforeTotal(a, b);
    BeforeIsStampOrder(a, b);
  }

  // ----- the handlers, as functions -----------------------------------------------------------

  function IdsOf(records: seq<Record>): (ids: seq<OpId>)
    ensures |ids| == |records|
  {
    seq(|records|, i requires 0 <= i < |records| => records[i].id)
  }

  ghost function Offered(ops: Operations, root: Hash): seq<Bytes>
    requires UnderOwnId(ops)
  {
    if root == StoreRoot(ops) then [] else IdsOf(Listing(ops))
  }

  ghost predicate Precedes(offer: seq<Bytes>, x: OpId, y: OpId) {
    exists i, j :: 0 <= i < j < |offer| && offer[i] == x && offer[j] == y
  }

  /** An offer for another root names just the stored operations, each once, in the order of their
      stamps; in particular an operation with an earlier clock reading comes first. */
  lemma OfferExactly(ops: Operations, root: Hash, x: OpId, y: OpId)
    requires UnderOwnId(ops) && root != StoreRoot(ops)
    ensures forall k :: 0 <= k < |Offered(ops, root)| ==> |Offered(ops, root)[k]| == 32
    ensures x in Offered(ops, root) <==> x in ops
    ensures x in ops && y in ops ==> (Precedes(Offered(ops, root), x, y) <==> Less(Stamp(ops[x]), Stamp(ops[y])))
    ensures x in ops && y in ops && Earlier(ops[x], ops[y]) ==> Precedes(Offered(ops, root), x, y)
  {
    hide Listing, Stamp, Less, Earlier;
    OfferedAt(ops, root);
    var offer := Offered(ops, root);
    if x in ops {
      var i := ListingIndex(ops, x);
      assert offer[i] == x;
      if y in ops {
        var j := ListingIndex(ops, y);
        ListingByTime(ops, i, j);
        if k, l :| 0 <= k < l < |offer| && offer[k] == x && offer[l] == y {
          ListingByTime(ops, k, l);
        }
      }
    }
  }

  lemma OfferedAt(ops: Operations, root: Hash)
    requires UnderOwnId(ops) && root != StoreRoot(ops)
    ensures |Offered(ops, root)| == |Listing(ops)|
    ensures forall k :: 0 <= k < |Listing(ops)| ==>
      && Offered(ops, root)[k] == Listing(ops)[k].id
      && Listing(ops)[k].id in ops && ops[Listing(ops)[k].id] == Listing(ops)[k]
  {
    hide Listing;
    ListingExact(ops);
    forall k | 0 <= k < |Listing(ops)| ensures Listing(ops)[k] in Listing(ops) { }
  }

  lemma ListingIndex(ops: Operations, id: OpId) returns (i: nat)
    requires UnderOwnId(ops) && id in ops
    ensures i < |Listing(ops)| && Listing(ops)[i] == ops[id]
  {
    ListingExact(ops);
    assert ops[id] in Listing(ops);
    i :| i < |Listing(ops)| && Listing(ops)[i] == ops[id];
  }

  function MissingIds(ops: Operations, offer: seq<Bytes>): Result<seq<Bytes>, SyncError> {
    if offer == [] then
      Success([])
    else if |offer[0]| != 32 then
      Failure(OperationIdLength)
    else
      After(if offer[0] in ops then [] else [offer[0]], MissingIds(ops, offer[1..]))
  }

  function OperationsFor(ops: Operations, ids: seq<Bytes>, codec: Codec): Result<seq<Bytes>, SyncError> {
    if ids == [] then
      Success([])
    else if |ids[0]| != 32 then
      Failure(OperationIdLength)
    else if ids[0] !in ops then
      Failure(OperationNotFound)
    else
      var key: OpId := ids[0];
      After([codec.encode(ops[key])], OperationsFor(ops, ids[1..], codec))
  }

  /** One whole exchange about a document both sides hold: the sender answers the receiver's
      root with an offer, the receiver asks for what it lacks, and stores what it is sent. */
  ghost function Exchange(mine: Operations, theirs: Operations, codec: Codec, verify: Verifier): (batch: Batch)
    requires UnderOwnId(mine) && UnderOwnId(theirs)
    ensures UnderOwnId(batch.ops)
  {
    match MissingIds(mine, Offered(theirs, StoreRoot(mine)))
    case Failure(error) => Batch(mine, Failure(error))
    case Success(wanted) =>
      match OperationsFor(theirs, wanted, codec)
      case Failure(error) => Batch(mine, Failure(error))
      case Success(wire) =>
        BatchUnderOwnId(mine, wire, codec, verify);
        AddBatch(mine, wire, codec, verify)
  }

  lemma {:induction false} BatchUnderOwnId(ops: Operations, wire: seq<Bytes>, codec: Codec, verify: Verifier)
    requires UnderOwnId(ops)
    ensures UnderOwnId(AddBatch(ops, wire, codec, verify).ops)
    decreases |wire|
  {
    if wire != [] && codec.decode(wire[0]).Some? {
      var record := codec.decode(wire[0]).value;
      if Refusal(ops, record, verify).None? {
        BatchUnderOwnId(ops[record.id := record], wire[1..], codec, verify);
      }
    }
  }

  // ----- what the receiver asks for ------------------------------------------------------------

  /** The records of a listing that a store lacks. */
  function Lacking(ops: Operations, records: seq<Record>): seq<Record> {
    if records == [] then []
    else (if records[0].id in ops then [] else [records[0]]) + Lacking(ops, records[1..])
  }

  function Encoded(records: seq<Record>, codec: Codec): (wire: seq<Bytes>)
    ensures |wire| == |records|
  {
    seq(|records|, i requires 0 <= i < |records| => codec.encode(records[i]))
  }

  lemma IdsOfFirst(record: Record, rest: seq<Record>)
    ensures IdsOf([record] + rest) == [record.id] + IdsOf(rest)
  {
  }

  lemma {:induction false} MissingIdsAreLacking(ops: Operations, records: seq<Record>)
    ensures MissingIds(ops, IdsOf(records)) == Success(IdsOf(Lacking(ops, records)))
  {
    hide IdsOf;
    if records == [] {
      assert IdsOf([]) == [];
    } else {
      var first, tail := records[0], records[1..];
      var rest := Lacking(ops, tail);
      assert records == [first] + tail;
      IdsOfFirst(first, tail);
      IdsOfFirst(first, rest);
      MissingIdsAreLacking(ops, tail);
      MissingFirst(ops, first.id, IdsOf(tail), IdsOf(rest));
      assert [] + rest == rest;
    }
  }

  lemma MissingFirst(ops: Operations, id: OpId, offer: seq<Bytes>, missing: seq<Bytes>)
    requires MissingIds(ops, offer) == Success(missing)
    ensures MissingIds(ops, [id] + offer) == Success(if id in ops then missing else [id] + missing)
  {
    assert ([id] + offer)[1..] == offer && [] + missing == missing;
  }

  lemma {:induction false} OperationsForRecords(ops: Operations, records: seq<Record>, codec: Codec)
    requires forall i :: 0 <= i < |records| ==> records[i].id in ops && ops[records[i].id] == records[i]
    ensures OperationsFor(ops, IdsOf(records), codec) == Success(Encoded(records, codec))
  {
    if records != [] {
      assert IdsOf(records)[1..] == IdsOf(records[1..]);
      OperationsForRecords(ops, records[1..], codec);
      assert Encoded(records, codec) == [codec.encode(records[0])] + Encoded(records[1..], codec);
    }
  }

  lemma {:induction false} LackingExact(ops: Operations, records: seq<Record>)
    requires InOrder(records)
    ensures InOrder(Lacking(ops, records))
    ensures forall r :: r in Lacking(ops, records) <==> r in records && r.id !in ops
  {
    if records != [] {
      var rest := Lacking(ops, records[1..]);
      assert forall i, j :: 0 <= i < j < |records[1..]| ==>
        records[1..][i] == records[i + 1] && records[1..][j] == records[j + 1];
      LackingExact(ops, records[1..]);
      forall i | 0 <= i < |rest| ensures Before(records[0], rest[i]) {
        assert rest[i] in records[1..];
        var k :| 0 <= k < |records[1..]| && records[1..][k] == rest[i];
        assert records[k + 1] == rest[i];
      }
    }
  }

  // ----- storing a list of records ----------------------------------------------------------------

  function Inserted(ops: Operations, records: seq<Record>): Operations {
    if records == [] then ops
    else Inserted(ops, records[..|records| - 1])[records[|records| - 1].id := records[|records| - 1]]
  }

  lemma {:induction false} InsertedFront(ops: Operations, records: seq<Record>)
    requires records != []
    ensures Inserted(ops, records) == Inserted(ops[records[0].id := records[0]], records[1..])
  {
    if |records| > 1 {
      InsertedFront(ops, records[..|records| - 1]);
      assert records[..|records| - 1][1..] == records[1..][..|records| - 2];
    } else {
      assert records[..0] == [] && records[1..] == [];
    }
  }

  ghost predicate Mentions(records: seq<Record>, id: OpId) {
    exists k :: 0 <= k < |records| && records[k].id == id
  }

  lemma {:induction false} InsertedAt(ops: Operations, records: seq<Record>, id: OpId)
    ensures id in Inserted(ops, records) <==> id in ops || Mentions(records, id)
    ensures id in Inserted(ops, records) ==>
      if Mentions(records, id) then Inserted(ops, records)[id] in records && Inserted(ops, records)[id].id == id
      else Inserted(ops, records)[id] == ops[id]
  {
    if records != [] {
      var front, last := records[..|records| - 1], records[|records| - 1];
      assert records == front + [last];
      InsertedAt(ops, front, id);
      MentionsLast(front, last, id);
    }
  }

  lemma MentionsLast(front: seq<Record>, last: Record, id: OpId)
    ensures Mentions(front + [last], id) <==> Mentions(front, id) || last.id == id
  {
    var records := front + [last];
    if Mentions(front, id) {
      var k :| 0 <= k < |front| && front[k].id == id;
      assert records[k].id == id;
    }
    if last.id == id {
      assert records[|front|].id == id;
    }
  }

  /** How many of the records can be stored one after the other. */
  function Storable(ops: Operations, records: seq<Record>): (n: nat)
    ensures n <= |records|
    decreases |records|
  {
    if records == [] || !DependenciesIn(records[0], ops) then 0
    else 1 + Storable(ops[records[0].id := records[0]], records[1..])
  }

  ghost predicate RoundTrips(records: seq<Record>, codec: Codec, verify: Verifier) {
    forall i :: 0 <= i < |records| ==> codec.decode(codec.encode(records[i])) == Some(records[i]) && verify(records[i])
  }

  lemma {:induction false} BatchOfRecords(ops: Operations, records: seq<Record>, codec: Codec, verify: Verifier)
    requires RoundTrips(records, codec, verify)
    ensures
      var n := Storable(ops, records);
      AddBatch(ops, Encoded(records, codec), codec, verify) ==
      Batch(Inserted(ops, records[..n]), if n == |records| then Success(IdsOf(records)) else Failure(DependencyMissing))
    decreases |records|
  {
    if records == [] {
      assert Encoded(records, codec) == [];
    } else {
      var wire := Encoded(records, codec);
      assert wire[1..] == Encoded(records[1..], codec);
      if DependenciesIn(records[0], ops) {
        var ops1, n := ops[records[0].id := records[0]], Storable(ops, records);
        assert RoundTrips(records[1..], codec, verify);
        BatchOfRecords(ops1, records[1..], codec, verify);
        assert records[..n][1..] == records[1..][..n - 1];
        InsertedFront(ops, records[..n]);
        assert IdsOf(records) == [records[0].id] + IdsOf(records[1..]);
      }
    }
  }

  /** The records before the stop were stored with their dependencies present, and the one
      at the stop lacks one. */
  lemma {:induction false} StorableStops(ops: Operations, records: seq<Record>, i: nat)
    requires i < |records| && i <= Storable(ops, records)
    ensures DependenciesIn(records[i], Inserted(ops, records[..i])) <==> i < Storable(ops, records)
    decreases i
  {
    if i == 0 {
      assert records[..0] == [];
    } else {
      StorableStops(ops[records[0].id := records[0]], records[1..], i - 1);
      assert records[..i][1..] == records[1..][..i - 1];
      InsertedFront(ops, records[..i]);
    }
  }

  // ----- one exchange, exactly ----------------------------------------------------------------------

  /** Both stores are keyed by id, and an id means the same operation in both. */
  ghost predicate Compatible(mine: Operations, theirs: Operations) {
    UnderOwnId(mine) && UnderOwnId(theirs) && forall id :: id in mine && id in theirs ==> mine[id] == theirs[id]
  }

  /** The wire format gives every record of the sender back, and its signature checks. */
  ghost predicate Transmissible(theirs: Operations, codec: Codec, verify: Verifier) {
    forall id :: id in theirs ==> codec.decode(codec.encode(theirs[id])) == Some(theirs[id]) && verify(theirs[id])
  }

  ghost function Wanted(mine: Operations, theirs: Operations): seq<Record>
    requires UnderOwnId(theirs)
  {
    Lacking(mine, Listing(theirs))
  }

  lemma WantedExact(mine: Operations, theirs: Operations)
    requires UnderOwnId(theirs)
    ensures InOrder(Wanted(mine, theirs))
    ensures forall r :: r in Wanted(mine, theirs) <==> r.id in theirs && theirs[r.id] == r && r.id !in mine
  {
    ListingExact(theirs);
    LackingExact(mine, Listing(theirs));
  }

  /** The early exit is sound: equal roots mean nothing is missing. */
  lemma EqualRootsExactly(mine: Operations, theirs: Operations)
    requires Compatible(mine, theirs)
    ensures StoreRoot(mine) == StoreRoot(theirs) <==> mine == theirs
  {
    var a, b := Enumeration(mine), Enumeration(theirs);
    EnumerationIds(mine);
    EnumerationIds(theirs);
    CompatibleIdsDetermine(mine, theirs, RecordSet(a), RecordSet(b));
    RootsEqualExactly(a, b);
    if mine.Keys == theirs.Keys {
      SameKeysSameStore(mine, theirs);
    }
  }

  lemma SameKeysSameStore(mine: Operations, theirs: Operations)
    requires Compatible(mine, theirs) && mine.Keys == theirs.Keys
    ensures mine == theirs
  {
  }

  lemma CompatibleIdsDetermine(mine: Operations, theirs: Operations, a: set<Record>, b: set<Record>)
    requires Compatible(mine, theirs)
    requires forall r :: r in a ==> r.id in mine && mine[r.id] == r
    requires forall r :: r in b ==> r.id in theirs && theirs[r.id] == r
    ensures IdsDetermine(a + b)
  {
  }

  lemma EnumerationIds(ops: Operations)
    requires UnderOwnId(ops)
    ensures Ids(Enumeration(ops)) == ops.Keys && DistinctIds(Enumeration(ops))
    ensures forall r :: r in RecordSet(Enumeration(ops)) ==> r.id in ops && ops[r.id] == r
  {
    EnumeratedIds(Enumeration(ops), ops);
  }

  lemma EnumeratedIds(records: seq<Record>, ops: Operations)
    requires UnderOwnId(ops) && Enumerates(records, ops)
    ensures Ids(records) == ops.Keys && DistinctIds(records)
    ensures forall r :: r in RecordSet(records) ==> r.id in ops && ops[r.id] == r
  {
    forall id: OpId | id in ops ensures id in Ids(records) {
      var i :| 0 <= i < |records| && records[i] == ops[id];
      assert records[i].id in Ids(records);
    }
  }

  /** One exchange stores the missing operations in order, up to the first whose
      dependencies are not there yet. */
  lemma ExchangeStores(mine: Operations, theirs: Operations, codec: Codec, verify: Verifier)
    requires Compatible(mine, theirs) && Transmissible(theirs, codec, verify)
    ensures
      var wanted := Wanted(mine, theirs);
      var n := Storable(mine, wanted);
      Exchange(mine, theirs, codec, verify) ==
      Batch(Inserted(mine, wanted[..n]), if n == |wanted| then Success(IdsOf(wanted)) else Failure(DependencyMissing))
  {
    var wanted := Wanted(mine, theirs);
    WantedExact(mine, theirs);
    EqualRootsExactly(mine, theirs);
    if StoreRoot(mine) == StoreRoot(theirs) {
      assert wanted == [] by {
        if wanted != [] { FirstMember(wanted); }
      }
      assert IdsOf(wanted) == [];
    } else {
      MissingIdsAreLacking(mine, Listing(theirs));
      OperationsForRecords(theirs, wanted, codec);
      BatchOfRecords(mine, wanted, codec, verify);
    }
  }

  /** Every operation still missing depends only on operations that are there already or
      that come before it in the order in which operations are sent. */
  ghost predicate Deliverable(mine: Operations, theirs: Operations) {
    forall id, dep :: id in theirs && id !in mine && dep in theirs[id].dependencies ==>
      dep in mine || (dep in theirs && Before(theirs[dep], theirs[id]))
  }

  lemma WantedAt(mine: Operations, theirs: Operations, i: nat)
    requires UnderOwnId(theirs) && i < |Wanted(mine, theirs)|
    ensures
      var r := Wanted(mine, theirs)[i];
      r.id in theirs && theirs[r.id] == r && r.id !in mine
  {
    WantedExact(mine, theirs);
    assert Wanted(mine, theirs)[i] in Wanted(mine, theirs);
  }

  lemma WantedIndex(mine: Operations, theirs: Operations, id: OpId) returns (i: nat)
    requires UnderOwnId(theirs) && id in theirs && id !in mine
    ensures i < |Wanted(mine, theirs)| && Wanted(mine, theirs)[i] == theirs[id]
  {
    WantedExact(mine, theirs);
    i :| i < |Wanted(mine, theirs)| && Wanted(mine, theirs)[i] == theirs[id];
  }

  lemma StorableWhenDeliverable(mine: Operations, theirs: Operations)
    requires UnderOwnId(theirs) && Deliverable(mine, theirs)
    ensures Storable(mine, Wanted(mine, theirs)) == |Wanted(mine, theirs)|
  {
    var wanted := Wanted(mine, theirs);
    var n := Storable(mine, wanted);
    if n < |wanted| {
      var r := wanted[n];
      WantedAt(mine, theirs, n);
      forall k | 0 <= k < |r.dependencies| ensures r.dependencies[k] in Inserted(mine, wanted[..n]) {
        DependencyWasSent(mine, theirs, n, r.dependencies[k]);
      }
      StorableStops(mine, wanted, n);
    }
  }

  lemma DependencyWasSent(mine: Operations, theirs: Operations, n: nat, dep: OpId)
    requires UnderOwnId(theirs) && Deliverable(mine, theirs) && n < |Wanted(mine, theirs)|
    requires dep in Wanted(mine, theirs)[n].dependencies
    ensures dep in Inserted(mine, Wanted(mine, theirs)[..n])
  {
    hide Deliverable, Inserted, Before, Wanted;
    var wanted := Wanted(mine, theirs);
    WantedAt(mine, theirs, n);
    InsertedAt(mine, wanted[..n], dep);
    if dep !in mine {
      DeliverableAt(mine, theirs, wanted[n].id, dep);
      var j := WantedIndex(mine, theirs, dep);
      WantedOrder(mine, theirs, j, n);
      assert wanted[..n][j].id == dep;
    }
  }

  lemma DeliverableAt(mine: Operations, theirs: Operations, id: OpId, dep: OpId)
    requires Deliverable(mine, theirs) && id in theirs && id !in mine && dep in theirs[id].dependencies
    ensures dep in mine || (dep in theirs && Before(theirs[dep], theirs[id]))
  {
  }

  lemma WantedOrder(mine: Operations, theirs: Operations, i: nat, j: nat)
    requires UnderOwnId(theirs) && i < |Wanted(mine, theirs)| && j < |Wanted(mine, theirs)|
    ensures i < j <==> Before(Wanted(mine, theirs)[i], Wanted(mine, theirs)[j])
  {
    WantedExact(mine, theirs);
    BeforeTotal(Wanted(mine, theirs)[i], Wanted(mine, theirs)[j]);
  }

  lemma DeliverableWhenStorable(mine: Operations, theirs: Operations)
    requires UnderOwnId(theirs) && Storable(mine, Wanted(mine, theirs)) == |Wanted(mine, theirs)|
    ensures Deliverable(mine, theirs)
  {
    hide Storable, Wanted, Before;
    forall id, dep | id in theirs && id !in mine && dep in theirs[id].dependencies
      ensures dep in mine || (dep in theirs && Before(theirs[dep], theirs[id]))
    {
      SentDependency(mine, theirs, id, dep);
    }
  }

  lemma SentDependency(mine: Operations, theirs: Operations, id: OpId, dep: OpId)
    requires UnderOwnId(theirs) && Storable(mine, Wanted(mine, theirs)) == |Wanted(mine, theirs)|
    requires id in theirs && id !in mine && dep in theirs[id].dependencies
    ensures dep in mine || (dep in theirs && Before(theirs[dep], theirs[id]))
  {
    var wanted := Wanted(mine, theirs);
    var i := WantedIndex(mine, theirs, id);
    StorableStops(mine, wanted, i);
    InsertedAt(mine, wanted[..i], dep);
    if dep !in mine {
      var k :| 0 <= k < |wanted[..i]| && wanted[..i][k].id == dep;
      WantedAt(mine, theirs, k);
      WantedOrder(mine, theirs, k, i);
    }
  }

  lemma InsertedAll(mine: Operations, theirs: Operations)
    requires Compatible(mine, theirs)
    ensures Inserted(mine, Wanted(mine, theirs)) == mine + theirs
  {
    hide Inserted, Wanted, UnderOwnId;
    var ops, union := Inserted(mine, Wanted(mine, theirs)), mine + theirs;
    forall id: OpId ensures id in ops <==> id in union {
      UnionAt(mine, theirs, id);
    }
    forall id: OpId | id in ops ensures ops[id] == union[id] {
      UnionAt(mine, theirs, id);
    }
  }

  lemma UnionAt(mine: Operations, theirs: Operations, id: OpId)
    requires Compatible(mine, theirs)
    ensures
      var ops, union := Inserted(mine, Wanted(mine, theirs)), mine + theirs;
      (id in ops <==> id in union) && (id in ops ==> ops[id] == union[id])
  {
    var wanted := Wanted(mine, theirs);
    InsertedAt(mine, wanted, id);
    if id in theirs && id !in mine {
      var i := WantedIndex(mine, theirs, id);
    }
    WantedExact(mine, theirs);
  }

  /** An exchange goes through exactly when everything missing is deliverable, and then the
      receiver holds the union of both stores and acknowledged what it lacked; otherwise it
      reports a missing dependency. */
  lemma ExchangeExactly(mine: Operations, theirs: Operations, codec: Codec, verify: Verifier)
    requires Compatible(mine, theirs) && Transmissible(theirs, codec, verify)
    ensures
      var batch := Exchange(mine, theirs, codec, verify);
      if Deliverable(mine, theirs)
      then batch == Batch(mine + theirs, Success(IdsOf(Wanted(mine, theirs))))
      else batch.result == Failure(DependencyMissing)
  {
    var wanted := Wanted(mine, theirs);
    ExchangeStores(mine, theirs, codec, verify);
    if Deliverable(mine, theirs) {
      StorableWhenDeliverable(mine, theirs);
      InsertedAll(mine, theirs);
      assert wanted[..|wanted|] == wanted;
    } else if Storable(mine, wanted) == |wanted| {
      DeliverableWhenStorable(mine, theirs);
    }
  }

  // ----- convergence ------------------------------------------------------------------------------

  /** Every operation sorts after everything it depends on. */
  ghost predicate SortsAfterDependencies(ops: Operations) {
    forall id, dep :: id in ops && dep in ops[id].dependencies && dep in ops ==> Before(ops[dep], ops[id])
  }

  lemma CausalIsDeliverable(mine: Operations, theirs: Operations)
    requires Closed(theirs) && SortsAfterDependencies(theirs)
    ensures Deliverable(mine, theirs)
  {
    forall id, dep | id in theirs && id !in mine && dep in theirs[id].dependencies
      ensures dep in theirs && Before(theirs[dep], theirs[id])
    {
      assert DependenciesIn(theirs[id], theirs);
    }
  }

  lemma UnionStaysCausal(mine: Operations, theirs: Operations)
    requires Compatible(mine, theirs) && Closed(mine) && Closed(theirs)
    requires SortsAfterDependencies(mine) && SortsAfterDependencies(theirs)
    ensures Closed(mine + theirs) && SortsAfterDependencies(mine + theirs)
  {
    var union := mine + theirs;
    forall id | id in union ensures union[id].id == id && DependenciesIn(union[id], union) {
      assert DependenciesIn(union[id], if id in theirs then theirs else mine);
    }
    forall id, dep | id in union && dep in union[id].dependencies && dep in union
      ensures Before(union[dep], union[id])
    {
      if id in theirs {
        assert DependenciesIn(theirs[id], theirs);
      } else {
        assert DependenciesIn(mine[id], mine);
      }
    }
  }

  lemma UnionCompatible(a: Operations, b: Operations, codec: Codec, verify: Verifier)
    requires Compatible(a, b) && Transmissible(a, codec, verify) && Transmissible(b, codec, verify)
    ensures Compatible(b, a + b) && Transmissible(a + b, codec, verify) && b + (a + b) == a + b
  {
  }

  /** Pulling once each way leaves two causal stores equal to their union, with equal roots. */
  lemma TwoExchangesConverge(a: Operations, b: Operations, codec: Codec, verify: Verifier)
    requires Compatible(a, b) && Closed(a) && Closed(b)
    requires SortsAfterDependencies(a) && SortsAfterDependencies(b)
    requires Transmissible(a, codec, verify) && Transmissible(b, codec, verify)
    ensures
      var first := Exchange(a, b, codec, verify);
      && first.result.Success? && first.ops == a + b
      && var second := Exchange(b, first.ops, codec, verify);
         && second.result.Success? && second.ops == first.ops
         && StoreRoot(second.ops) == StoreRoot(first.ops)
  {
    hide Exchange, Deliverable, Closed, SortsAfterDependencies, Transmissible, StoreRoot;
    CausalIsDeliverable(a, b);
    ExchangeExactly(a, b, codec, verify);
    UnionStaysCausal(a, b);
    UnionCompatible(a, b, codec, verify);
    CausalIsDeliverable(b, a + b);
    ExchangeExactly(b, a + b, codec, verify);
  }

  /** Every operation is stamped by a later clock reading than everything it depends on. */
  ghost predicate StampedAfterDependencies(ops: Operations) {
    forall id, dep :: id in ops && dep in ops[id].dependencies && dep in ops ==> Earlier(ops[dep], ops[id])
  }

  lemma StampedIsCausal(ops: Operations)
    requires StampedAfterDependencies(ops)
    ensures SortsAfterDependencies(ops)
  {
    forall id, dep | id in ops && dep in ops[id].dependencies && dep in ops ensures Before(ops[dep], ops[id]) {
      EarlierComesFirst(ops[dep], ops[id]);
    }
  }

  /** So clocks that respect dependencies, as hybrid clocks do, make one pull each way enough. */
  lemma HybridClocksConverge(a: Operations, b: Operations, codec: Codec, verify: Verifier)
    requires Compatible(a, b) && Closed(a) && Closed(b)
    requires StampedAfterDependencies(a) && StampedAfterDependencies(b)
    requires Transmissible(a, codec, verify) && Transmissible(b, codec, verify)
    ensures
      var first := Exchange(a, b, codec, verify);
      && first.result.Success? && first.ops == a + b
      && var second := Exchange(b, first.ops, codec, verify);
         && second.result.Success? && second.ops == first.ops
         && StoreRoot(second.ops) == StoreRoot(first.ops)
  {
    hide Exchange, Closed, Transmissible, StoreRoot, StampedAfterDependencies, SortsAfterDependencies;
    StampedIsCausal(a);
    StampedIsCausal(b);
    TwoExchangesConverge(a, b, codec, verify);
  }

  // ----- when it does not converge ------------------------------------------------------------------

  /** An exchange that stops leaves something undeliverable behind, so asking again stops again. */
  lemma StoppedStaysStopped(mine: Operations, theirs: Operations, codec: Codec, verify: Verifier)
    requires Compatible(mine, theirs) && Transmissible(theirs, codec, verify) && !Deliverable(mine, theirs)
    ensures
      var batch := Exchange(mine, theirs, codec, verify);
      Compatible(batch.ops, theirs) && !Deliverable(batch.ops, theirs)
  {
    hide Exchange, Transmissible, Deliverable, Wanted, Inserted, Storable;
    var wanted := Wanted(mine, theirs);
    var n := Storable(mine, wanted);
    ExchangeStores(mine, theirs, codec, verify);
    if n == |wanted| {
      DeliverableWhenStorable(mine, theirs);
    }
    PrefixCompatible(mine, theirs, n);
    StillUndeliverable(mine, theirs);
  }

  lemma StillUndeliverable(mine: Operations, theirs: Operations)
    requires UnderOwnId(theirs) && Storable(mine, Wanted(mine, theirs)) < |Wanted(mine, theirs)|
    ensures !Deliverable(Inserted(mine, Wanted(mine, theirs)[..Storable(mine, Wanted(mine, theirs))]), theirs)
  {
    hide Deliverable, Wanted, Inserted, Storable, Before;
    var wanted := Wanted(mine, theirs);
    var n := Storable(mine, wanted);
    var ops := Inserted(mine, wanted[..n]);
    StorableStops(mine, wanted, n);
    WantedAt(mine, theirs, n);
    var k :| 0 <= k < |wanted[n].dependencies| && wanted[n].dependencies[k] !in ops;
    var dep := wanted[n].dependencies[k];
    NotYetInserted(mine, theirs, n, wanted[n].id);
    BeforeTotal(wanted[n], wanted[n]);
    if Deliverable(ops, theirs) {
      DeliverableAt(ops, theirs, wanted[n].id, dep);
      NotYetInserted(mine, theirs, n, dep);
    }
  }

  /** What the first `n` wanted operations do not include was not stored with them. */
  lemma NotYetInserted(mine: Operations, theirs: Operations, n: nat, id: OpId)
    requires UnderOwnId(theirs) && n < |Wanted(mine, theirs)|
    ensures
      var ops := Inserted(mine, Wanted(mine, theirs)[..n]);
      id in ops <==> id in mine || (id in theirs && Before(theirs[id], Wanted(mine, theirs)[n]))
  {
    var wanted := Wanted(mine, theirs);
    InsertedAt(mine, wanted[..n], id);
    if id !in mine {
      if Mentions(wanted[..n], id) {
        var k :| 0 <= k < |wanted[..n]| && wanted[..n][k].id == id;
        WantedAt(mine, theirs, k);
        WantedOrder(mine, theirs, k, n);
      } else if id in theirs {
        var j := WantedIndex(mine, theirs, id);
        WantedOrder(mine, theirs, j, n);
        PrefixMentions(wanted, n, j);
      }
    }
  }

  lemma PrefixMentions(records: seq<Record>, n: nat, j: nat)
    requires n <= |records| && j < |records|
    ensures j < n ==> Mentions(records[..n], records[j].id)
  {
    if j < n {
      assert records[..n][j].id == records[j].id;
    }
  }

  lemma PrefixCompatible(mine: Operations, theirs: Operations, n: nat)
    requires Compatible(mine, theirs) && n <= |Wanted(mine, theirs)|
    ensures Compatible(Inserted(mine, Wanted(mine, theirs)[..n]), theirs)
  {
    var wanted := Wanted(mine, theirs);
    var ops := Inserted(mine, wanted[..n]);
    forall id: OpId | id in ops ensures ops[id].id == id && (id in theirs ==> ops[id] == theirs[id]) {
      InsertedAt(mine, wanted[..n], id);
      if Mentions(wanted[..n], id) {
        var k :| 0 <= k < |wanted[..n]| && wanted[..n][k] == ops[id];
        WantedAt(mine, theirs, k);
      }
    }
  }

  /** Two replicas that pull from one another. */
  datatype Replicas = Replicas(a: Operations, b: Operations)

  datatype Turn = PullA | PullB

  /** After any interleaving of pulls in either direction. */
  ghost function Pulls(a: Operations, b: Operations, codec: Codec, verify: Verifier, turns: seq<Turn>): (r: Replicas)
    requires UnderOwnId(a) && UnderOwnId(b)
    ensures UnderOwnId(r.a) && UnderOwnId(r.b)
    decreases |turns|
  {
    if turns == [] then Replicas(a, b)
    else if turns[0] == PullA then Pulls(Exchange(a, b, codec, verify).ops, b, codec, verify, turns[1..])
    else Pulls(a, Exchange(b, a, codec, verify).ops, codec, verify, turns[1..])
  }

  /** `ops` lies between a store and its union with another. */
  ghost predicate Between(mine: Operations, ops: Operations, theirs: Operations) {
    && mine.Keys <= ops.Keys <= mine.Keys + theirs.Keys
    && forall id :: id in ops ==> ops[id] == if id in mine then mine[id] else theirs[id]
  }

  lemma ExchangeBetween(mine: Operations, theirs: Operations, codec: Codec, verify: Verifier)
    requires Compatible(mine, theirs) && Transmissible(theirs, codec, verify)
    ensures Between(mine, Exchange(mine, theirs, codec, verify).ops, theirs)
  {
    hide Exchange, Transmissible, Wanted, Inserted, Storable;
    var wanted := Wanted(mine, theirs);
    var n := Storable(mine, wanted);
    ExchangeStores(mine, theirs, codec, verify);
    var ops := Inserted(mine, wanted[..n]);
    forall id: OpId
      ensures id in mine ==> id in ops
      ensures id in ops ==> id in mine || id in theirs
      ensures id in ops ==> ops[id] == if id in mine then mine[id] else theirs[id]
    {
      InsertedAt(mine, wanted[..n], id);
      if Mentions(wanted[..n], id) {
        var k :| 0 <= k < |wanted[..n]| && wanted[..n][k] == Inserted(mine, wanted[..n])[id];
        WantedAt(mine, theirs, k);
      }
    }
  }

  lemma BetweenCompatible(mine: Operations, ops: Operations, theirs: Operations, codec: Codec, verify: Verifier)
    requires Compatible(mine, theirs) && Between(mine, ops, theirs)
    requires Transmissible(mine, codec, verify) && Transmissible(theirs, codec, verify)
    ensures Compatible(ops, theirs) && Compatible(theirs, ops) && Transmissible(ops, codec, verify)
  {
  }

  /** What cannot be delivered from a store cannot be delivered from it either once it has pulled. */
  lemma GrownUndeliverable(a: Operations, b: Operations, grown: Operations)
    requires !Deliverable(a, b) && Between(b, grown, a)
    ensures !Deliverable(a, grown)
  {
    var id, dep :| id in b && id !in a && dep in b[id].dependencies &&
      !(dep in a || (dep in b && Before(b[dep], b[id])));
    assert id in grown && grown[id] == b[id];
    assert dep in grown ==> dep in b;
  }

  /** Unless what one replica misses of the other is deliverable, no interleaving of pulls in both
      directions brings it up to date: its next pull fails like the first. */
  lemma {:induction false} NeverConverges(a: Operations, b: Operations, codec: Codec, verify: Verifier,
                                          turns: seq<Turn>)
    requires Compatible(a, b) && Transmissible(a, codec, verify) && Transmissible(b, codec, verify)
    requires !Deliverable(a, b)
    ensures
      var r := Pulls(a, b, codec, verify, turns);
      && a.Keys <= r.a.Keys && !(b.Keys <= r.a.Keys)
      && Exchange(r.a, r.b, codec, verify).result == Failure(DependencyMissing)
    decreases |turns|
  {
    hide Exchange, Transmissible, Deliverable, Between;
    if turns == [] {
      SomethingLacking(a, b);
      ExchangeExactly(a, b, codec, verify);
    } else if turns[0] == PullA {
      var more := Exchange(a, b, codec, verify).ops;
      ExchangeBetween(a, b, codec, verify);
      BetweenCompatible(a, more, b, codec, verify);
      StoppedStaysStopped(a, b, codec, verify);
      NeverConverges(more, b, codec, verify, turns[1..]);
      BetweenKeys(a, more, b);
    } else {
      var more := Exchange(b, a, codec, verify).ops;
      ExchangeBetween(b, a, codec, verify);
      BetweenCompatible(b, more, a, codec, verify);
      GrownUndeliverable(a, b, more);
      NeverConverges(a, more, codec, verify, turns[1..]);
      BetweenKeys(b, more, a);
    }
  }

  lemma BetweenKeys(mine: Operations, ops: Operations, theirs: Operations)
    requires Between(mine, ops, theirs)
    ensures mine.Keys <= ops.Keys <= mine.Keys + theirs.Keys
  {
  }

  lemma SomethingLacking(mine: Operations, theirs: Operations)
    requires !Deliverable(mine, theirs)
    ensures !(theirs.Keys <= mine.Keys)
  {
    var id, dep :| id in theirs && id !in mine && dep in theirs[id].dependencies;
  }

  /** So some interleaving of pulls brings a replica what the other has if and only if what it
      misses is deliverable, and then its first pull does. */
  lemma CatchesUpExactly(a: Operations, b: Operations, codec: Codec, verify: Verifier)
    requires Compatible(a, b) && Transmissible(a, codec, verify) && Transmissible(b, codec, verify)
    ensures (exists turns :: b.Keys <= Pulls(a, b, codec, verify, turns).a.Keys) <==> Deliverable(a, b)
    ensures Deliverable(a, b) ==> Pulls(a, b, codec, verify, [PullA]) == Replicas(a + b, b)
  {
    hide Exchange, Transmissible, Deliverable;
    if Deliverable(a, b) {
      ExchangeExactly(a, b, codec, verify);
      assert [PullA][1..] == [];
      assert b.Keys <= Pulls(a, b, codec, verify, [PullA]).a.Keys;
    } else {
      forall turns: seq<Turn> ensures !(b.Keys <= Pulls(a, b, codec, verify, turns).a.Keys) {
        NeverConverges(a, b, codec, verify, turns);
      }
    }
  }

  /** Such stores exist: an operation stamped before the one it depends on, as a clock that
      runs behind its peer's produces, is stored happily and never reaches an empty peer. */
  lemma LateDependencyNeverArrives(x: OpId, y: OpId, base: Record, codec: Codec, verify: Verifier, turns: seq<Turn>)
    requires x != y && (forall r :: verify(r)) && (forall r :: codec.decode(codec.encode(r)) == Some(r))
    ensures
      var first := base.(id := x, dependencies := [], physicalMs := 2);
      var second := base.(id := y, dependencies := [x], physicalMs := 1);
      var theirs := Add(Add(map[], first, verify), second, verify);
      && theirs == map[x := first, y := second] && Closed(theirs) && UnderOwnId(theirs)
      && var r := Pulls(map[], theirs, codec, verify, turns);
         !(theirs.Keys <= r.a.Keys) && Exchange(r.a, r.b, codec, verify).result == Failure(DependencyMissing)
  {
    var first := base.(id := x, dependencies := [], physicalMs := 2);
    var second := base.(id := y, dependencies := [x], physicalMs := 1);
    var theirs := Add(Add(map[], first, verify), second, verify);
    assert theirs == map[x := first, y := second];
    assert x in second.dependencies && !Before(first, second);
    assert y in theirs && theirs[y] == second && x in theirs && theirs[x] == first;
    if Deliverable(map[], theirs) {
      DeliverableAt(map[], theirs, y, x);
    }
    NeverConverges(map[], theirs, codec, verify, turns);
  }

  // ----- the session, in place ------------------------------------------------------------------------

  class SyncSession {
    const documentId: Bytes
    const store: Store

    constructor (documentId: Bytes, store: Store)
      ensures this.documentId == documentId && this.store == store
    {
      this.documentId := documentId;
      this.store := store;
    }

    method Request() returns (req: SyncRequest)
      requires Closed(store.operations)
      ensures req == SyncRequest(documentId, StoreRoot(store.operations))
    {
      var records := store.AllOperations();
      OrderOfRecordsIrrelevant(records, store.operations);
      var root := ComputeMerkleRoot(records);
      req := SyncRequest(documentId, root);
    }

    method HandleRequest(req: SyncRequest) returns (r: Result<SyncOffer, SyncError>)
      requires Closed(store.operations)
      ensures r ==
        if req.documentId != documentId then Failure(DocumentMismatch)
        else Success(SyncOffer(documentId, Offered(store.operations, req.merkleRoot)))
    {
      if req.documentId != documentId {
        return Failure(DocumentMismatch);
      }
      var records := store.AllOperations();
      OrderOfRecordsIrrelevant(records, store.operations);
      var localRoot := ComputeMerkleRoot(records);
      if req.merkleRoot == localRoot {
        return Success(SyncOffer(documentId, []));
      }
      r := Success(SyncOffer(documentId, IdsOf(OrderedOperations(records))));
    }

    method HandleOffer(offer: SyncOffer) returns (r: Result<SyncAccept, SyncError>)
      ensures r ==
        if offer.documentId != documentId then Failure(DocumentMismatch)
        else match MissingIds(store.operations, offer.operationIds)
             case Failure(error) => Failure(error)
             case Success(wanted) => Success(SyncAccept(offer.documentId, wanted))
    {
      if offer.documentId != documentId {
        return Failure(DocumentMismatch);
      }
      var wanted := [];
      assert offer.operationIds[0..] == offer.operationIds;
      AfterBoth([], [], MissingIds(store.operations, offer.operationIds));
      for i := 0 to |offer.operationIds|
        invariant MissingIds(store.operations, offer.operationIds)
               == After(wanted, MissingIds(store.operations, offer.operationIds[i..]))
      {
        var id := offer.operationIds[i];
        assert offer.operationIds[i..][1..] == offer.operationIds[i + 1..];
        if |id| != 32 {
          return Failure(OperationIdLength);
        }
        AfterBoth(wanted, if id in store.operations then [] else [id],
                  MissingIds(store.operations, offer.operationIds[i + 1..]));
        if id !in store.operations {
          wanted := wanted + [id];
        } else {
          assert wanted + [] == wanted;
        }
      }
      assert wanted + [] == wanted;
      r := Success(SyncAccept(offer.documentId, wanted));
    }

    method HandleAccept(accept: SyncAccept, codec: Codec) returns (r: Result<SyncOperations, SyncError>)
      ensures r ==
        if accept.documentId != documentId then Failure(DocumentMismatch)
        else match OperationsFor(store.operations, accept.wantedIds, codec)
             case Failure(error) => Failure(error)
             case Success(wire) => Success(SyncOperations(documentId, wire))
    {
      if accept.documentId != documentId {
        return Failure(DocumentMismatch);
      }
      var wire := [];
      assert accept.wantedIds[0..] == accept.wantedIds;
      AfterBoth([], [], OperationsFor(store.operations, accept.wantedIds, codec));
      for i := 0 to |accept.wantedIds|
        invariant OperationsFor(store.operations, accept.wantedIds, codec)
               == After(wire, OperationsFor(store.operations, accept.wantedIds[i..], codec))
      {
        var id := accept.wantedIds[i];
        assert accept.wantedIds[i..][1..] == accept.wantedIds[i + 1..];
        if |id| != 32 {
          return Failure(OperationIdLength);
        }
        var key: OpId := id;
        if key !in store.operations {
          return Failure(OperationNotFound);
        }
        AfterBoth(wire, [codec.encode(store.operations[key])],
                  OperationsFor(store.operations, accept.wantedIds[i + 1..], codec));
        wire := wire + [codec.encode(store.operations[key])];
      }
      assert wire + [] == wire;
      r := Success(SyncOperations(documentId, wire));
    }

    /** Stores what was sent, one operation at a time; an error leaves what came before. */
    method HandleOperations(ops: SyncOperations, codec: Codec, verify: Verifier) returns (r: Result<SyncAck, SyncError>)
      modifies store
      ensures
        if ops.documentId != documentId then
          r == Failure(DocumentMismatch) && store.operations == old(store.operations)
        else
          var batch := AddBatch(old(store.operations), ops.operations, codec, verify);
          && store.operations == batch.ops
          && r == match batch.result
                  case Failure(error) => Failure(error)
                  case Success(acked) => Success(SyncAck(documentId, acked))
    {
      if ops.documentId != documentId {
        return Failure(DocumentMismatch);
      }
      var acked: seq<OpId> := [];
      assert ops.operations[0..] == ops.operations;
      AckedNothing(AddBatch(store.operations, ops.operations, codec, verify));
      for i := 0 to |ops.operations|
        invariant AddBatch(old(store.operations), ops.operations, codec, verify)
               == Acked(acked, AddBatch(store.operations, ops.operations[i..], codec, verify))
      {
        assert ops.operations[i..][1..] == ops.operations[i + 1..];
        var decoded := codec.decode(ops.operations[i]);
        if decoded.None? {
          return Failure(CborDecode);
        }
        var stored := store.AddOperation(decoded.value, verify);
        if stored.Failure? {
          return Failure(stored.error);
        }
        AckedOneMore(acked, decoded.value.id, AddBatch(store.operations, ops.operations[i + 1..], codec, verify));
        acked := acked + [decoded.value.id];
      }
      assert acked + [] == acked;
      r := Success(SyncAck(documentId, acked));
    }
  }

  /** One session pulls from another: the four messages in turn. */
  method Pull(receiver: SyncSession, sender: SyncSession, codec: Codec, verify: Verifier)
      returns (r: Result<SyncAck, SyncError>)
    requires receiver.store != sender.store && receiver.documentId == sender.documentId
    requires Closed(receiver.store.operations) && Closed(sender.store.operations)
    modifies receiver.store
    ensures
      var batch := Exchange(old(receiver.store.operations), sender.store.operations, codec, verify);
      && receiver.store.operations == batch.ops
      && r == match batch.result
              case Failure(error) => Failure(error)
              case Success(acked) => Success(SyncAck(receiver.documentId, acked))
  {
    var request := receiver.Request();
    var offer := sender.HandleRequest(request);
    var accept := receiver.HandleOffer(offer.value);
    if accept.Failure? {
      return Failure(accept.error);
    }
    var operations := sender.HandleAccept(accept.value, codec);
    if operations.Failure? {
      return Failure(operations.error);
    }
    r := receiver.HandleOperations(operations.value, codec, verify);
  }
}
