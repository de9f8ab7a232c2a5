/** The operation store of `sync.rs`: an operation is accepted once its signature checks and
    everything it depends on is stored.

    Signature checking and the wire encoding of a record are parameters: a predicate on
    records, and a pair of functions that the exchange theorems ask to round-trip.
  */
module SyncStore {
  import opened Wrappers
  import opened Bytes

  type OpId = b: Bytes | |b| == 32 witness seq(32, _ => 0)

  type NodeId = b: Bytes | |b| == 20 witness seq(20, _ => 0)

  type Milliseconds = n: nat | n < 0x1_0000_0000_0000_0000 witness 0

  datatype Record = Record(
    id: OpId,
    origin: NodeId,
    documentId: Bytes,
    physicalMs: Milliseconds,
    logical: U32,
    operation: Bytes,
    dependencies: seq<OpId>,
    signature: Bytes)

  type Operations = map<OpId, Record>

  datatype SyncError =
    | SignatureInvalid
    | DependencyMissing
    | OperationIdLength
    | OperationNotFound
    | CborDecode
    | DocumentMismatch

  type Verifier = Record -> bool

  datatype Codec = Codec(encode: Record -> Bytes, decode: Bytes -> Option<Record>)

  // ----- adding operations, as functions ------------------------------------------------

  predicate DependenciesIn(record: Record, ops: Operations) {
    forall i :: 0 <= i < |record.dependencies| ==> record.dependencies[i] in ops
  }

  function Refusal(ops: Operations, record: Record, verify: Verifier): Option<SyncError> {
    if !verify(record) then Some(SignatureInvalid)
    else if !DependenciesIn(record, ops) then Some(DependencyMissing)
    else None
  }

  function Add(ops: Operations, record: Record, verify: Verifier): Operations {
    if Refusal(ops, record, verify).Some? then ops else ops[record.id := record]
  }

  datatype Batch = Batch(ops: Operations, result: Result<seq<OpId>, SyncError>)

  /** The loop of `handle_operations`: it stops at the first operation that cannot be
      decoded or stored, and keeps what it stored before. */
  function AddBatch(ops: Operations, wire: seq<Bytes>, codec: Codec, verify: Verifier): Batch
    decreases |wire|
  {
    if wire == [] then
      Batch(ops, Success([]))
    else
      match codec.decode(wire[0])
      case None => Batch(ops, Failure(CborDecode))
      case Some(record) =>
        match Refusal(ops, record, verify)
        case Some(error) => Batch(ops, Failure(error))
        case None =>
          Acked([record.id], AddBatch(ops[record.id := record], wire[1..], codec, verify))
  }

  /** A batch in front of which the operations `done` were acknowledged. */
  function Acked(done: seq<OpId>, rest: Batch): Batch {
    match rest.result
    case Failure(_) => rest
    case Success(more) => Batch(rest.ops, Success(done + more))
  }

  lemma AckedNothing(rest: Batch)
    ensures Acked([], rest) == rest
  {
    assert forall more: seq<OpId> :: [] + more == more;
  }

  lemma AckedOneMore(done: seq<OpId>, id: OpId, rest: Batch)
    ensures Acked(done, Acked([id], rest)) == Acked(done + [id], rest)
  {
    assert forall more: seq<OpId> :: done + ([id] + more) == (done + [id]) + more;
  }

  // ----- dependency closure ------------------------------------------------------------------

  /** Records sit under their own id, and everything a record depends on is stored too. */
  ghost predicate Closed(ops: Operations) {
    forall id :: id in ops ==> ops[id].id == id && DependenciesIn(ops[id], ops)
  }

  lemma AddKeepsClosed(ops: Operations, record: Record, verify: Verifier)
    requires Closed(ops)
    ensures Closed(Add(ops, record, verify)) && ops.Keys <= Add(ops, record, verify).Keys
  {
    var ops1 := Add(ops, record, verify);
    forall id | id in ops1 ensures ops1[id].id == id && DependenciesIn(ops1[id], ops1) {
      assert id in ops && ops1[id] == ops[id] ==> DependenciesIn(ops[id], ops);
    }
  }

  /** A batch keeps the store closed and forgets no id, wherever it stops; when it goes
      through, everything it acknowledges is stored. */
  lemma {:induction false} BatchKeepsClosed(ops: Operations, wire: seq<Bytes>, codec: Codec, verify: Verifier)
    requires Closed(ops)
    ensures
      var batch := AddBatch(ops, wire, codec, verify);
      && Closed(batch.ops)
      && ops.Keys <= batch.ops.Keys
      && (batch.result.Success? ==>
            |batch.result.value| == |wire| && forall i :: 0 <= i < |wire| ==> batch.result.value[i] in batch.ops)
    decreases |wire|
  {
    if wire != [] && codec.decode(wire[0]).Some? {
      var record := codec.decode(wire[0]).value;
      if Refusal(ops, record, verify).None? {
        AddKeepsClosed(ops, record, verify);
        BatchKeepsClosed(ops[record.id := record], wire[1..], codec, verify);
      }
    }
  }

  /** What a store has been through: single additions, and batches from the network. */
  datatype Input = One(record: Record) | Many(wire: seq<Bytes>)

  function Absorb(ops: Operations, input: Input, codec: Codec, verify: Verifier): Operations {
    match input
    case One(record) => Add(ops, record, verify)
    case Many(wire) => AddBatch(ops, wire, codec, verify).ops
  }

  function AbsorbAll(inputs: seq<Input>, codec: Codec, verify: Verifier): Operations {
    if inputs == [] then map[]
    else Absorb(AbsorbAll(inputs[..|inputs| - 1], codec, verify), inputs[|inputs| - 1], codec, verify)
  }

  /** Every reachable store is dependency-closed. */
  lemma {:induction false} EveryStoreClosed(inputs: seq<Input>, codec: Codec, verify: Verifier)
    ensures Closed(AbsorbAll(inputs, codec, verify))
  {
    if inputs != [] {
      var before := AbsorbAll(inputs[..|inputs| - 1], codec, verify);
      EveryStoreClosed(inputs[..|inputs| - 1], codec, verify);
      match inputs[|inputs| - 1] {
        case One(record) => AddKeepsClosed(before, record, verify);
        case Many(wire) => BatchKeepsClosed(before, wire, codec, verify);
      }
    }
  }

  /** An operation is refused for its signature first, then for a dependency that is not stored. */
  lemma RefusalExactly(ops: Operations, record: Record, verify: Verifier)
    ensures Refusal(ops, record, verify).None? <==>
      verify(record) && forall dep :: dep in record.dependencies ==> dep in ops
    ensures Refusal(ops, record, verify) == Some(SignatureInvalid) <==> !verify(record)
    ensures Refusal(ops, record, verify) == Some(DependencyMissing) <==>
      verify(record) && exists dep :: dep in record.dependencies && dep !in ops
  {
    if dep :| dep in record.dependencies && dep !in ops {
      var i :| 0 <= i < |record.dependencies| && record.dependencies[i] == dep;
    }
    forall i | 0 <= i < |record.dependencies| ensures record.dependencies[i] in record.dependencies { }
  }

  ghost predicate AllVerified(ops: Operations, verify: Verifier) {
    forall id :: id in ops ==> verify(ops[id])
  }

  lemma {:induction false} BatchKeepsVerified(ops: Operations, wire: seq<Bytes>, codec: Codec, verify: Verifier)
    requires AllVerified(ops, verify)
    ensures AllVerified(AddBatch(ops, wire, codec, verify).ops, verify)
    decreases |wire|
  {
    if wire != [] && codec.decode(wire[0]).Some? {
      var record := codec.decode(wire[0]).value;
      if Refusal(ops, record, verify).None? {
        BatchKeepsVerified(ops[record.id := record], wire[1..], codec, verify);
      }
    }
  }

  /** Nothing whose signature does not check is ever stored. */
  lemma {:induction false} EveryStoreVerified(inputs: seq<Input>, codec: Codec, verify: Verifier)
    ensures AllVerified(AbsorbAll(inputs, codec, verify), verify)
  {
    if inputs != [] {
      var before := AbsorbAll(inputs[..|inputs| - 1], codec, verify);
      EveryStoreVerified(inputs[..|inputs| - 1], codec, verify);
      if inputs[|inputs| - 1].Many? {
        BatchKeepsVerified(before, inputs[|inputs| - 1].wire, codec, verify);
      }
    }
  }

  // ----- no dependency cycles ---------------------------------------------------------------

  /** One record per id. */
  ghost predicate IdsDetermine(world: set<Record>) {
    forall a, b :: a in world && b in world && a.id == b.id ==> a == b
  }

  ghost predicate Within(ops: Operations, world: set<Record>) {
    forall id :: id in ops ==> ops[id] in world && ops[id].id == id
  }

  /** Everything an input offers belongs to `world`. */
  ghost predicate From(input: Input, codec: Codec, world: set<Record>) {
    match input
    case One(record) => record in world
    case Many(wire) =>
      forall i :: 0 <= i < |wire| && codec.decode(wire[i]).Some? ==> codec.decode(wire[i]).value in world
  }

  /** `rank` numbers the stored operations so that each comes after what it depends on. */
  ghost predicate Ranked(ops: Operations, rank: map<OpId, nat>) {
    && rank.Keys == ops.Keys
    && (forall id :: id in rank ==> rank[id] < |ops|)
    && (forall id, dep :: id in ops && dep in ops[id].dependencies ==> dep in rank && rank[dep] < rank[id])
  }

  ghost predicate Acyclic(ops: Operations) {
    exists rank :: Ranked(ops, rank)
  }

  lemma AddKeepsAcyclic(ops: Operations, record: Record, verify: Verifier, world: set<Record>)
    requires IdsDetermine(world) && Within(ops, world) && record in world && Acyclic(ops)
    ensures Within(Add(ops, record, verify), world) && Acyclic(Add(ops, record, verify))
  {
    hide Ranked, IdsDetermine;
    if record.id in ops {
      assert ops[record.id] == record by {
        SameRecord(world, ops[record.id], record);
      }
      assert Add(ops, record, verify) == ops;
    } else if Refusal(ops, record, verify).None? {
      var rank :| Ranked(ops, rank);
      RankNext(ops, rank, record);
    }
  }

  lemma SameRecord(world: set<Record>, a: Record, b: Record)
    requires IdsDetermine(world) && a in world && b in world && a.id == b.id
    ensures a == b
  {
  }

  lemma OneMoreId(ops: Operations, record: Record)
    requires record.id !in ops
    ensures |ops[record.id := record]| == |ops| + 1
  {
    var ops1 := ops[record.id := record];
    assert ops1.Keys == ops.Keys + {record.id};
    assert |ops1| == |ops1.Keys|;
  }

  lemma RankNext(ops: Operations, rank: map<OpId, nat>, record: Record)
    requires Ranked(ops, rank) && record.id !in ops && DependenciesIn(record, ops)
    ensures Ranked(ops[record.id := record], rank[record.id := |ops|])
  {
    var ops1, rank1 := ops[record.id := record], rank[record.id := |ops|];
    OneMoreId(ops, record);
    forall id, dep | id in ops1 && dep in ops1[id].dependencies ensures dep in rank1 && rank1[dep] < rank1[id] {
      if id != record.id {
        assert ops1[id] == ops[id];
        assert dep in rank && rank[dep] < rank[id];
      } else {
        assert dep in ops && dep in rank;
      }
    }
  }

  lemma {:induction false} BatchKeepsAcyclic(ops: Operations, wire: seq<Bytes>, codec: Codec, verify: Verifier,
                                             world: set<Record>)
    requires IdsDetermine(world) && Within(ops, world) && From(Many(wire), codec, world) && Acyclic(ops)
    ensures Within(AddBatch(ops, wire, codec, verify).ops, world) && Acyclic(AddBatch(ops, wire, codec, verify).ops)
    decreases |wire|
  {
    hide Acyclic, IdsDetermine;
    if wire != [] && codec.decode(wire[0]).Some? {
      var record := codec.decode(wire[0]).value;
      if Refusal(ops, record, verify).None? {
        AddKeepsAcyclic(ops, record, verify, world);
        assert forall i :: 0 <= i < |wire[1..]| ==> wire[1..][i] == wire[i + 1];
        BatchKeepsAcyclic(ops[record.id := record], wire[1..], codec, verify, world);
      }
    }
  }

  /** If an id determines its record, a batch keeps every stored record as it is. */
  lemma BatchKeepsRecords(ops: Operations, wire: seq<Bytes>, codec: Codec, verify: Verifier, world: set<Record>)
    requires Closed(ops) && Acyclic(ops)
    requires IdsDetermine(world) && Within(ops, world) && From(Many(wire), codec, world)
    ensures
      var batch := AddBatch(ops, wire, codec, verify);
      forall id :: id in ops ==> id in batch.ops && batch.ops[id] == ops[id]
  {
    hide Acyclic, IdsDetermine;
    var batch := AddBatch(ops, wire, codec, verify);
    BatchKeepsClosed(ops, wire, codec, verify);
    BatchKeepsAcyclic(ops, wire, codec, verify, world);
    forall id | id in ops ensures id in batch.ops && batch.ops[id] == ops[id] {
      SameRecord(world, batch.ops[id], ops[id]);
    }
  }

  /** In general an addition keeps the stored records exactly if it is refused, its id is new, or
      it brings the record that is stored: otherwise it replaces that record. */
  lemma AddKeepsRecordsExactly(ops: Operations, record: Record, verify: Verifier)
    ensures
      (forall id :: id in ops ==> id in Add(ops, record, verify) && Add(ops, record, verify)[id] == ops[id]) <==>
      Refusal(ops, record, verify).Some? || record.id !in ops || ops[record.id] == record
  {
    var ops1 := Add(ops, record, verify);
    if Refusal(ops, record, verify).None? && record.id in ops {
      assert ops1[record.id] == record;
    }
  }

  /** If an id determines its record, the dependency graph of every reachable store has a
      topological numbering. */
  lemma {:induction false} EveryStoreAcyclic(inputs: seq<Input>, codec: Codec, verify: Verifier, world: set<Record>)
    requires IdsDetermine(world)
    requires forall i :: 0 <= i < |inputs| ==> From(inputs[i], codec, world)
    ensures Within(AbsorbAll(inputs, codec, verify), world) && Acyclic(AbsorbAll(inputs, codec, verify))
  {
    if inputs == [] {
      assert Ranked(map[], map[]);
    } else {
      var before := AbsorbAll(inputs[..|inputs| - 1], codec, verify);
      EveryStoreAcyclic(inputs[..|inputs| - 1], codec, verify, world);
      match inputs[|inputs| - 1] {
        case One(record) => AddKeepsAcyclic(before, record, verify, world);
        case Many(wire) => BatchKeepsAcyclic(before, wire, codec, verify, world);
      }
    }
  }

  /** A walk along dependencies, each id depending on the next. */
  ghost predicate DependencyPath(ops: Operations, path: seq<OpId>) {
    && path != []
    && (forall i :: 0 <= i < |path| ==> path[i] in ops)
    && (forall i :: 0 <= i < |path| - 1 ==> path[i + 1] in ops[path[i]].dependencies)
  }

  lemma {:induction false} PathDescends(ops: Operations, rank: map<OpId, nat>, path: seq<OpId>)
    requires Ranked(ops, rank) && DependencyPath(ops, path)
    ensures rank[path[|path| - 1]] + |path| <= rank[path[0]] + 1
  {
    if |path| > 1 {
      var rest := path[1..];
      assert forall i :: 0 <= i < |rest| ==> rest[i] == path[i + 1];
      PathDescends(ops, rank, rest);
      assert path[0 + 1] in ops[path[0]].dependencies;
    }
  }

  /** So no operation depends on itself, however indirectly. */
  lemma NoCycle(ops: Operations, path: seq<OpId>)
    requires Acyclic(ops) && DependencyPath(ops, path) && |path| > 1
    ensures path[0] != path[|path| - 1]
  {
    var rank :| Ranked(ops, rank);
    PathDescends(ops, rank, path);
  }

  // ----- exactly when an addition closes a cycle ---------------------------------------------

  ghost predicate Leads(ops: Operations, path: seq<OpId>, from: OpId, to: OpId) {
    DependencyPath(ops, path) && path[0] == from && path[|path| - 1] == to
  }

  /** `from` depends on `to`, directly or not, or is `to`. */
  ghost predicate Reaches(ops: Operations, from: OpId, to: OpId) {
    exists path :: Leads(ops, path, from, to)
  }

  /** The record would come to depend on itself. */
  ghost predicate ClosesCycle(ops: Operations, record: Record) {
    record.id in record.dependencies ||
    exists dep :: dep in record.dependencies && Reaches(ops, dep, record.id)
  }

  /** A walk to an id has a first step at which it is there. */
  lemma {:induction false} FirstArrival(ops: Operations, path: seq<OpId>, from: OpId, to: OpId)
      returns (first: seq<OpId>)
    requires Leads(ops, path, from, to)
    ensures Leads(ops, first, from, to) && forall i :: 0 <= i < |first| - 1 ==> first[i] != to
  {
    first := path;
    if |path| > 1 {
      var front := path[..|path| - 1];
      if to in front {
        var i :| 0 <= i < |front| && front[i] == to;
        first := FirstArrival(ops, path[..i + 1], from, to);
      }
    }
  }

  lemma CycleClosed(ops: Operations, record: Record)
    requires DependenciesIn(record, ops) && ClosesCycle(ops, record)
    ensures !Acyclic(ops[record.id := record])
  {
    var ops1 := ops[record.id := record];
    var cycle := [record.id, record.id];
    if record.id !in record.dependencies {
      var dep :| dep in record.dependencies && Reaches(ops, dep, record.id);
      var path :| Leads(ops, path, dep, record.id);
      var first := FirstArrival(ops, path, dep, record.id);
      cycle := [record.id] + first;
      forall i | 0 <= i < |cycle| - 1 ensures cycle[i + 1] in ops1[cycle[i]].dependencies {
        if i > 0 {
          assert cycle[i] == first[i - 1] && cycle[i + 1] == first[i - 1 + 1];
        }
      }
    }
    assert DependencyPath(ops1, cycle);
    if Acyclic(ops1) {
      NoCycle(ops1, cycle);
    }
  }

  /** As `Ranked`, with numbers as large as one likes. */
  ghost predicate LooselyRanked(ops: Operations, rank: map<OpId, nat>) {
    && rank.Keys == ops.Keys
    && (forall id, dep :: id in ops && dep in ops[id].dependencies ==> dep in rank && rank[dep] < rank[id])
  }

  function Below(rank: map<OpId, nat>, id: OpId): set<OpId>
    requires id in rank
  {
    set j | j in rank && rank[j] < rank[id]
  }

  lemma SmallerSet(a: set<OpId>, b: set<OpId>, x: OpId)
    requires a <= b && x in b && x !in a
    ensures |a| < |b|
  {
    assert b == a + (b - a) && x in b - a;
  }

  /** Numbering each id by how many rank below it makes the numbers small. */
  lemma Renumber(ops: Operations, rank: map<OpId, nat>)
    requires LooselyRanked(ops, rank)
    ensures Acyclic(ops)
  {
    hide Below;
    var small: map<OpId, nat> := map id | id in rank :: |Below(rank, id)|;
    forall id | id in rank ensures |Below(rank, id)| < |ops| {
      BelowAll(ops, rank, id);
    }
    forall id, dep | id in ops && dep in ops[id].dependencies ensures dep in small && small[dep] < small[id] {
      BelowGrows(rank, dep, id);
    }
    assert Ranked(ops, small);
  }

  lemma BelowAll(ops: Operations, rank: map<OpId, nat>, id: OpId)
    requires rank.Keys == ops.Keys && id in rank
    ensures |Below(rank, id)| < |ops|
  {
    SmallerSet(Below(rank, id), ops.Keys, id);
    assert |ops| == |ops.Keys|;
  }

  lemma BelowGrows(rank: map<OpId, nat>, a: OpId, b: OpId)
    requires a in rank && b in rank && rank[a] < rank[b]
    ensures |Below(rank, a)| < |Below(rank, b)|
  {
    SmallerSet(Below(rank, a), Below(rank, b), a);
  }

  lemma ReachesFromDependent(ops: Operations, id: OpId, dep: OpId, to: OpId)
    requires id in ops && dep in ops[id].dependencies && Reaches(ops, dep, to)
    ensures Reaches(ops, id, to)
  {
    var path :| Leads(ops, path, dep, to);
    var longer := [id] + path;
    forall i | 0 <= i < |longer| - 1 ensures longer[i + 1] in ops[longer[i]].dependencies {
      if i > 0 {
        assert longer[i] == path[i - 1] && longer[i + 1] == path[i - 1 + 1];
      }
    }
    assert Leads(ops, longer, id, to);
  }

  /** Everything that depends on `to` is lifted above the rest. */
  ghost function Lifted(ops: Operations, rank: map<OpId, nat>, to: OpId): (lifted: map<OpId, nat>)
    ensures lifted.Keys == rank.Keys
    ensures forall id :: id in lifted ==> lifted[id] == if Reaches(ops, id, to) then rank[id] + |ops| else rank[id]
  {
    map id | id in rank :: if Reaches(ops, id, to) then rank[id] + |ops| else rank[id]
  }

  lemma LiftedDescends(ops: Operations, rank: map<OpId, nat>, record: Record, id: OpId, dep: OpId)
    requires Ranked(ops, rank) && record.id in ops && DependenciesIn(record, ops) && !ClosesCycle(ops, record)
    requires id in ops && dep in ops[record.id := record][id].dependencies
    ensures dep in rank && Lifted(ops, rank, record.id)[dep] < Lifted(ops, rank, record.id)[id]
  {
    hide ClosesCycle, Reaches;
    if id == record.id {
      ReachesItself(ops, record.id);
      DependencyDoesNotReach(ops, record, dep);
      assert dep in ops;
    } else {
      assert dep in rank && rank[dep] < rank[id];
      if Reaches(ops, dep, record.id) {
        ReachesFromDependent(ops, id, dep, record.id);
      }
    }
  }

  /** Lifting everything that depends on a replaced record ranks the new store. */
  lemma ReplacementRanked(ops: Operations, rank: map<OpId, nat>, record: Record)
    requires Ranked(ops, rank) && record.id in ops && DependenciesIn(record, ops) && !ClosesCycle(ops, record)
    ensures Acyclic(ops[record.id := record])
  {
    var ops1, lifted := ops[record.id := record], Lifted(ops, rank, record.id);
    assert ops1.Keys == ops.Keys == rank.Keys;
    hide ClosesCycle, Reaches, Lifted, Ranked, DependenciesIn, Acyclic;
    forall id, dep | id in ops1 && dep in ops1[id].dependencies ensures dep in lifted && lifted[dep] < lifted[id] {
      LiftedDescends(ops, rank, record, id, dep);
    }
    Renumber(ops1, lifted);
  }

  lemma ReachesItself(ops: Operations, id: OpId)
    requires id in ops
    ensures Reaches(ops, id, id)
  {
    assert Leads(ops, [id], id, id);
  }

  lemma DependencyDoesNotReach(ops: Operations, record: Record, dep: OpId)
    requires !ClosesCycle(ops, record) && dep in record.dependencies
    ensures !Reaches(ops, dep, record.id)
  {
  }

  /** Storing a record whose dependencies are stored leaves the store without cycles exactly if
      none of its dependencies is, or depends on, the id it is stored under. */
  lemma InsertionAcyclicExactly(ops: Operations, record: Record)
    requires Acyclic(ops) && DependenciesIn(record, ops)
    ensures Acyclic(ops[record.id := record]) <==> !ClosesCycle(ops, record)
  {
    hide Ranked, ClosesCycle;
    if ClosesCycle(ops, record) {
      CycleClosed(ops, record);
    } else {
      var rank :| Ranked(ops, rank);
      if record.id in ops {
        ReplacementRanked(ops, rank, record);
      } else {
        RankNext(ops, rank, record);
      }
    }
  }

  /** So an addition keeps a store without cycles exactly if it is refused or closes none, and one
      under a new id never closes any. */
  lemma AddAcyclicExactly(ops: Operations, record: Record, verify: Verifier)
    requires Acyclic(ops)
    ensures Acyclic(Add(ops, record, verify)) <==> Refusal(ops, record, verify).Some? || !ClosesCycle(ops, record)
    ensures record.id !in ops ==> Acyclic(Add(ops, record, verify))
  {
    hide Acyclic;
    if Refusal(ops, record, verify).None? {
      InsertionAcyclicExactly(ops, record);
      NewIdClosesNothing(ops, record);
    }
    hide ClosesCycle;
  }

  lemma NewIdClosesNothing(ops: Operations, record: Record)
    ensures DependenciesIn(record, ops) && ClosesCycle(ops, record) ==> record.id in ops
  {
    if DependenciesIn(record, ops) && ClosesCycle(ops, record) && record.id !in record.dependencies {
      var dep :| dep in record.dependencies && Reaches(ops, dep, record.id);
      var path :| Leads(ops, path, dep, record.id);
      assert path[|path| - 1] in ops;
    }
  }

  function AddAll(records: seq<Record>, verify: Verifier): Operations {
    if records == [] then map[] else Add(AddAll(records[..|records| - 1], verify), records[|records| - 1], verify)
  }

  /** In a run of additions no store on the way has a cycle exactly if none that was accepted
      closed one. */
  lemma {:induction false} EveryAdditionAcyclicExactly(records: seq<Record>, verify: Verifier)
    ensures
      (forall n :: 0 <= n <= |records| ==> Acyclic(AddAll(records[..n], verify))) <==>
      (forall n :: 0 <= n < |records| ==>
        Refusal(AddAll(records[..n], verify), records[n], verify).Some? ||
        !ClosesCycle(AddAll(records[..n], verify), records[n]))
  {
    hide Acyclic, ClosesCycle, Refusal, Add, AddAll;
    assert records[..|records|] == records;
    if records == [] {
      NothingAcyclic(verify);
    } else {
      var front, last := records[..|records| - 1], records[|records| - 1];
      EveryAdditionAcyclicExactly(front, verify);
      forall n | 0 <= n <= |front| ensures front[..n] == records[..n] { }
      assert front[..|front|] == front;
      AddedLast(records, verify);
      if Acyclic(AddAll(front, verify)) {
        AddAcyclicExactly(AddAll(front, verify), last, verify);
      }
    }
  }

  lemma AddedLast(records: seq<Record>, verify: Verifier)
    requires records != []
    ensures AddAll(records, verify) == Add(AddAll(records[..|records| - 1], verify), records[|records| - 1], verify)
  {
  }

  lemma NothingAcyclic(verify: Verifier)
    ensures Acyclic(AddAll([], verify))
  {
    assert Ranked(map[], map[]);
  }

  lemma AbsorbOneMore(inputs: seq<Input>, input: Input, codec: Codec, verify: Verifier)
    ensures AbsorbAll(inputs + [input], codec, verify) == Absorb(AbsorbAll(inputs, codec, verify), input, codec, verify)
  {
    assert (inputs + [input])[..|inputs|] == inputs;
  }

  /** Without that assumption a cycle can form: a second record under a stored id may depend
      on what was built on the first. */
  lemma CycleWhenAnIdRecurs(x: OpId, y: OpId, verify: Verifier, codec: Codec, base: Record)
    requires x != y && forall record :: verify(record)
    ensures
      var first, second := base.(id := x, dependencies := []), base.(id := y, dependencies := [x]);
      var again := base.(id := x, dependencies := [y]);
      var ops := AbsorbAll([One(first), One(second), One(again)], codec, verify);
      DependencyPath(ops, [x, y, x]) && !Acyclic(ops)
  {
    var first, second := base.(id := x, dependencies := []), base.(id := y, dependencies := [x]);
    var again := base.(id := x, dependencies := [y]);
    var none: seq<Input> := [];
    AbsorbOneMore(none, One(first), codec, verify);
    AbsorbOneMore([One(first)], One(second), codec, verify);
    AbsorbOneMore([One(first), One(second)], One(again), codec, verify);
    assert none + [One(first)] == [One(first)] && [One(first)] + [One(second)] == [One(first), One(second)];
    assert [One(first), One(second)] + [One(again)] == [One(first), One(second), One(again)];
    var ops := AbsorbAll([One(first), One(second), One(again)], codec, verify);
    assert ops == map[x := again, y := second];
    assert y in again.dependencies && x in second.dependencies;
    assert DependencyPath(ops, [x, y, x]);
    if Acyclic(ops) {
      NoCycle(ops, [x, y, x]);
    }
  }

  // ----- the store, in place ------------------------------------------------------------------

  class Store {
    var operations: Operations

    constructor ()
      ensures operations == map[]
    {
      operations := map[];
    }

    method AddOperation(record: Record, verify: Verifier) returns (r: Result<(), SyncError>)
      modifies this
      ensures operations == Add(old(operations), record, verify)
      ensures r == match Refusal(old(operations), record, verify) case Some(error) => Failure(error) case None => Success(())
    {
      if !verify(record) {
        return Failure(SignatureInvalid);
      }
      for i := 0 to |record.dependencies|
        invariant operations == old(operations)
        invariant forall k :: 0 <= k < i ==> record.dependencies[k] in operations
      {
        if record.dependencies[i] !in operations {
          return Failure(DependencyMissing);
        }
      }
      operations := operations[record.id := record];
      r := Success(());
    }

    /** The stored records in whatever order the hash map yields them. */
    method AllOperations() returns (records: seq<Record>)
      requires Closed(operations)
      ensures Enumerates(records, operations)
    {
      records := [];
      var left := operations.Keys;
      while left != {}
        invariant left <= operations.Keys
        invariant Enumerates(records, operations - left)
      {
        var id :| id in left;
        assert operations - (left - {id}) == (operations - left)[id := operations[id]];
        EnumerateOneMore(records, operations - left, operations[id]);
        records := records + [operations[id]];
        left := left - {id};
      }
      assert operations - {} == operations;
    }
  }

  /** The records of the store, each once, in some order. */
  ghost predicate Enumerates(records: seq<Record>, ops: Operations) {
    && (forall i, j :: 0 <= i < j < |records| ==> records[i].id != records[j].id)
    && (forall i :: 0 <= i < |records| ==> records[i].id in ops && ops[records[i].id] == records[i])
    && (forall id :: id in ops ==> ops[id] in records)
  }

  lemma EnumerateOneMore(records: seq<Record>, ops: Operations, record: Record)
    requires Enumerates(records, ops) && record.id !in ops
    ensures Enumerates(records + [record], ops[record.id := record])
  {
    var more := records + [record];
    assert more[|records|] == record;
    forall id | id in ops ensures ops[id] in more {
      var i :| 0 <= i < |records| && records[i] == ops[id];
      assert more[i] == ops[id];
    }
  }
}
