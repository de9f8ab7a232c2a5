/** The operation order and the Merkle root of `sync.rs`.

    Hashes are symbolic: leaf, node and empty hashes are free constructors, so distinct
    inputs never collide.
  */
module SyncMerkle {
  import opened Bytes
  import opened SyncStore
  import Sorting

  // ----- the order of operations -----------------------------------------------------------

  predicate Before(a: Record, b: Record) {
    if a.physicalMs != b.physicalMs then a.physicalMs < b.physicalMs
    else if a.logical != b.logical then a.logical < b.logical
    else if a.origin != b.origin then Less(a.origin, b.origin)
    else Less(a.id, b.id)
  }

  /** What an operation is stamped with, as bytes: milliseconds, logical counter, origin and id. */
  function Stamp(r: Record): Bytes {
    ToBigEndian(r.physicalMs, 8) + (ToBigEndian(r.logical, 4) + (r.origin + r.id))
  }

  /** The order of operations is the byte order of their stamps. */
  lemma BeforeIsStampOrder(a: Record, b: Record)
    ensures Before(a, b) <==> Less(Stamp(a), Stamp(b))
  {
    hide ToBigEndian, Less;
    Widths();
    BigEndianOrder(a.physicalMs, b.physicalMs, 8);
    BigEndianOrder(b.physicalMs, a.physicalMs, 8);
    BigEndianOrder(a.logical, b.logical, 4);
    BigEndianOrder(b.logical, a.logical, 4);
    var x, y := a.origin + a.id, b.origin + b.id;
    LessInParts(ToBigEndian(a.physicalMs, 8), ToBigEndian(b.physicalMs, 8),
                ToBigEndian(a.logical, 4) + x, ToBigEndian(b.logical, 4) + y);
    LessInParts(ToBigEndian(a.logical, 4), ToBigEndian(b.logical, 4), x, y);
    LessInParts(a.origin, b.origin, a.id, b.id);
    FromTo(a.physicalMs, 8);
    FromTo(b.physicalMs, 8);
    FromTo(a.logical, 4);
    FromTo(b.logical, 4);
    LessItself(a.origin);
  }

  lemma LessItself(a: Bytes)
    ensures !Less(a, a)
  {
    if Less(a, a) {
      LessAsymmetric(a, a);
    }
  }

  /** The hybrid clock of the first operation reads less than that of the second. */
  predicate Earlier(a: Record, b: Record) {
    a.physicalMs < b.physicalMs || (a.physicalMs == b.physicalMs && a.logical < b.logical)
  }

  lemma EarlierComesFirst(a: Record, b: Record)
    requires Earlier(a, b)
    ensures Before(a, b)
  {
  }

  lemma BeforeTransitive(a: Record, b: Record, c: Record)
    requires Before(a, b) && Before(b, c)
    ensures Before(a, c)
  {
    if Less(a.id, b.id) && Less(b.id, c.id) {
      LessTransitive(a.id, b.id, c.id);
    }
    if Less(a.origin, b.origin) && Less(b.origin, c.origin) {
      LessTransitive(a.origin, b.origin, c.origin);
      LessAsymmetric(a.origin, b.origin);
    }
  }

  lemma BeforeTotal(a: Record, b: Record)
    ensures a.id != b.id ==> Before(a, b) || Before(b, a)
    ensures !(Before(a, b) && Before(b, a))
  {
    LessTrichotomy(a.origin, b.origin);
    LessTrichotomy(a.id, b.id);
    if Less(a.origin, b.origin) {
      LessAsymmetric(a.origin, b.origin);
    }
    if Less(a.id, b.id) {
      LessAsymmetric(a.id, b.id);
    }
  }

  /** Records tie only if nothing they are ordered by tells them apart. */
  lemma Tied(a: Record, b: Record)
    requires !Before(a, b) && !Before(b, a)
    ensures a.physicalMs == b.physicalMs && a.logical == b.logical && a.origin == b.origin && a.id == b.id
  {
    LessTrichotomy(a.origin, b.origin);
    LessTrichotomy(a.id, b.id);
  }

  lemma NotBeforeTransitive(a: Record, b: Record, c: Record)
    requires !Before(b, a) && !Before(c, b)
    ensures !Before(c, a)
  {
    if Before(c, a) {
      if Before(a, b) {
        BeforeTransitive(c, a, b);
      } else {
        Tied(a, b);
      }
    }
  }

  lemma BeforeIsOrder()
    ensures Sorting.IsOrder(Before)
  {
    forall a: Record, b: Record ensures Before(a, b) ==> !Before(b, a) {
      BeforeTotal(a, b);
    }
    forall a: Record, b: Record, c: Record ensures !Before(b, a) && !Before(c, b) ==> !Before(c, a) {
      if !Before(b, a) && !Before(c, b) {
        NotBeforeTransitive(a, b, c);
      }
    }
  }

  function OrderedOperations(records: seq<Record>): seq<Record> {
    Sorting.Sort(records, Before)
  }

  ghost predicate InOrder(records: seq<Record>) {
    forall i, j :: 0 <= i < j < |records| ==> Before(records[i], records[j])
  }

  ghost predicate DistinctIds(records: seq<Record>) {
    forall i, j :: 0 <= i < j < |records| ==> records[i].id != records[j].id
  }

  lemma SameMembers(a: seq<Record>, b: seq<Record>, r: Record)
    requires multiset(a) == multiset(b)
    ensures r in a <==> r in b
  {
    assert r in a <==> r in multiset(a);
    assert r in b <==> r in multiset(b);
  }

  lemma CountedOnce(records: seq<Record>, i: nat, j: nat)
    requires i < j < |records| && records[i] == records[j]
    ensures multiset(records)[records[i]] >= 2
  {
    assert records == records[..j] + [records[j]] + records[j + 1..];
    assert records[..j][i] == records[i];
    assert multiset(records) == multiset(records[..j]) + multiset{records[j]} + multiset(records[j + 1..]);
  }

  lemma {:induction false} DistinctCounted(records: seq<Record>, r: Record)
    requires DistinctIds(records)
    ensures multiset(records)[r] <= 1
  {
    if records != [] {
      var front, last := records[..|records| - 1], records[|records| - 1];
      assert records == front + [last];
      DistinctCounted(front, r);
      forall i | 0 <= i < |front| ensures front[i] != last { assert records[i].id != last.id; }
      assert last !in multiset(front);
    }
  }

  /** The result is in strict order and holds exactly the given records. */
  lemma OrderedInOrder(records: seq<Record>)
    requires DistinctIds(records)
    ensures InOrder(OrderedOperations(records))
    ensures forall r :: r in OrderedOperations(records) <==> r in records
  {
    var sorted := OrderedOperations(records);
    BeforeIsOrder();
    Sorting.Sorts(records, Before);
    forall r ensures r in sorted <==> r in records { SameMembers(sorted, records, r); }
    forall i, j | 0 <= i < j < |sorted| ensures Before(sorted[i], sorted[j]) {
      DistinctInOrder(records, sorted, i, j);
    }
  }

  lemma DistinctInOrder(records: seq<Record>, sorted: seq<Record>, i: nat, j: nat)
    requires DistinctIds(records) && multiset(sorted) == multiset(records) && i < j < |sorted|
    requires !Before(sorted[j], sorted[i])
    ensures Before(sorted[i], sorted[j])
  {
    var a, b := sorted[i], sorted[j];
    SameMembers(sorted, records, a);
    SameMembers(sorted, records, b);
    if a == b {
      CountedOnce(sorted, i, j);
      DistinctCounted(records, a);
    }
    if !Before(a, b) {
      Tied(a, b);
      SameIdSameRecord(records, a, b);
    }
  }

  lemma SameIdSameRecord(records: seq<Record>, a: Record, b: Record)
    requires DistinctIds(records) && a in records && b in records && a.id == b.id
    ensures a == b
  {
  }

  /** Only one list is in order and has given members. */
  lemma {:induction false} OrderUnique(a: seq<Record>, b: seq<Record>)
    requires InOrder(a) && InOrder(b) && forall r :: r in a <==> r in b
    ensures a == b
  {
    if a == [] {
      FirstMember(b);
    } else {
      assert a[0] in b;
      var j :| 0 <= j < |b| && b[j] == a[0];
      assert b[0] in a;
      var i :| 0 <= i < |a| && a[i] == b[0];
      BeforeTotal(a[0], b[0]);
      assert i == 0 && j == 0;
      assert a == [a[0]] + a[1..] && b == [b[0]] + b[1..];
      forall r ensures r in a[1..] <==> r in b[1..] {
        NotAgain(a, r);
        NotAgain(b, r);
      }
      OrderUnique(a[1..], b[1..]);
    }
  }

  lemma FirstMember(a: seq<Record>)
    ensures a != [] ==> a[0] in a
  {
  }

  lemma NotAgain(a: seq<Record>, r: Record)
    requires InOrder(a) && a != []
    ensures r in a[1..] <==> r in a && r != a[0]
  {
    if r in a[1..] {
      var k :| 0 <= k < |a[1..]| && a[1..][k] == r;
      assert a[k + 1] == r;
      BeforeTotal(a[0], a[k + 1]);
    }
  }

  /** The order the hash map yields records in does not matter. */
  lemma EnumerationsAgree(a: seq<Record>, b: seq<Record>, ops: Operations)
    requires Enumerates(a, ops) && Enumerates(b, ops)
    ensures OrderedOperations(a) == OrderedOperations(b)
  {
    OrderedInOrder(a);
    OrderedInOrder(b);
    forall r ensures r in a <==> r in b {
      if r in a { assert ops[r.id] == r; }
      if r in b { assert ops[r.id] == r; }
    }
    OrderUnique(OrderedOperations(a), OrderedOperations(b));
  }

  // ----- the root -------------------------------------------------------------------------------

  datatype Hash = EmptyHash | LeafHash(id: OpId) | NodeHash(left: Hash, right: Hash)

  function Leaves(records: seq<Record>): (leaves: seq<Hash>)
    ensures |leaves| == |records|
  {
    seq(|records|, i requires 0 <= i < |records| => LeafHash(records[i].id))
  }

  /** The first doubling of `size` that reaches `n`. */
  function DoubleUntil(size: nat, n: nat): nat
    requires size > 0
    decreases n - size
  {
    if size < n then DoubleUntil(2 * size, n) else size
  }

  function Padded(leaves: seq<Hash>): seq<Hash> {
    var size := DoubleUntil(1, |leaves|);
    if |leaves| < size then leaves + seq(size - |leaves|, _ => EmptyHash) else leaves
  }

  function PairUp(level: seq<Hash>): (next: seq<Hash>)
    ensures |next| == (|level| + 1) / 2
  {
    seq((|level| + 1) / 2, i requires 0 <= i < (|level| + 1) / 2 =>
      NodeHash(level[2 * i], if 2 * i + 1 < |level| then level[2 * i + 1] else EmptyHash))
  }

  function RootOf(level: seq<Hash>): Hash
    requires level != []
    decreases |level|
  {
    if |level| == 1 then level[0] else RootOf(PairUp(level))
  }

  function MerkleRoot(records: seq<Record>): Hash {
    if records == [] then EmptyHash
    else
      var padded := Padded(Leaves(OrderedOperations(records)));
      if padded == [] then EmptyHash else RootOf(padded)
  }

  method ComputeMerkleRoot(records: seq<Record>) returns (root: Hash)
    ensures root == MerkleRoot(records)
  {
    if |records| == 0 {
      return EmptyHash;
    }
    var ordered := OrderedOperations(records);
    OrderedLength(records);
    var leaves := [];
    for i := 0 to |ordered|
      invariant leaves == Leaves(ordered)[..i]
    {
      leaves := leaves + [LeafHash(ordered[i].id)];
    }
    ghost var all := Leaves(ordered);
    assert leaves == all;
    var size := 1;
    while size < |leaves|
      invariant size > 0 && DoubleUntil(size, |leaves|) == DoubleUntil(1, |leaves|)
      decreases |leaves| - size
    {
      size := 2 * size;
    }
    while |leaves| < size
      invariant all <= leaves && (|leaves| <= size || leaves == all)
      invariant forall i :: |all| <= i < |leaves| ==> leaves[i] == EmptyHash
      decreases size - |leaves|
    {
      leaves := leaves + [EmptyHash];
    }
    assert leaves == Padded(all);
    var level := leaves;
    while |level| > 1
      invariant level != [] && RootOf(level) == MerkleRoot(records)
      decreases |level|
    {
      var next := [];
      var i := 0;
      while i < |level|
        invariant i == 2 * |next| && |next| <= (|level| + 1) / 2
        invariant next == PairUp(level)[..|next|]
        decreases |level| - i
      {
        var right := if i + 1 < |level| then level[i + 1] else EmptyHash;
        next := next + [NodeHash(level[i], right)];
        i := i + 2;
      }
      assert next == PairUp(level);
      level := next;
    }
    root := level[0];
  }

  lemma OrderedLength(records: seq<Record>)
    ensures |OrderedOperations(records)| == |records|
  {
    BeforeIsOrder();
    Sorting.Sorts(records, Before);
  }

  // ----- the tree behind the root ------------------------------------------------------------------

  /** The tree of height `k` over the leaves, with empty leaves behind the last one. */
  function Tree(leaves: seq<Hash>, k: nat): Hash
    decreases k
  {
    if k == 0 then
      if leaves == [] then EmptyHash else leaves[0]
    else
      var half := Pow2(k - 1);
      if |leaves| <= half then NodeHash(Tree(leaves, k - 1), Tree([], k - 1))
      else NodeHash(Tree(leaves[..half], k - 1), Tree(leaves[half..], k - 1))
  }

  /** Pairing up the levels of a full level hashes its halves. */
  lemma {:induction false} RootSplits(level: seq<Hash>, k: nat)
    requires |level| == Pow2(k + 1)
    ensures RootOf(level) == NodeHash(RootOf(level[..Pow2(k)]), RootOf(level[Pow2(k)..]))
    decreases k
  {
    var half := Pow2(k);
    assert |level| == 2 * half;
    if k > 0 {
      var next := PairUp(level);
      assert half == 2 * Pow2(k - 1);
      RootSplits(next, k - 1);
      assert PairUp(level[..half]) == next[..Pow2(k - 1)];
      assert PairUp(level[half..]) == next[Pow2(k - 1)..];
    } else {
      assert level[..1] == [level[0]] && level[1..] == [level[1]];
      assert PairUp(level) == [NodeHash(level[0], level[1])];
    }
  }

  lemma {:induction false} FullRootIsTree(leaves: seq<Hash>, filler: nat, k: nat)
    requires |leaves| + filler == Pow2(k)
    ensures RootOf(leaves + seq(filler, _ => EmptyHash)) == Tree(leaves, k)
    decreases k
  {
    hide PairUp;
    var level := leaves + seq(filler, _ => EmptyHash);
    if k > 0 {
      var half := Pow2(k - 1);
      assert Pow2(k) == 2 * half;
      RootSplits(level, k - 1);
      if |leaves| <= half {
        assert level[..half] == leaves + seq(half - |leaves|, _ => EmptyHash);
        assert level[half..] == [] + seq(half, _ => EmptyHash);
        FullRootIsTree(leaves, half - |leaves|, k - 1);
        FullRootIsTree([], half, k - 1);
      } else {
        assert level[..half] == leaves[..half] + seq(0, _ => EmptyHash);
        assert level[half..] == leaves[half..] + seq(filler, _ => EmptyHash);
        FullRootIsTree(leaves[..half], 0, k - 1);
        FullRootIsTree(leaves[half..], filler, k - 1);
      }
    }
  }

  lemma LeastPower(k: nat, n: nat) returns (j: nat)
    requires k == 0 || Pow2(k - 1) < n
    ensures DoubleUntil(Pow2(k), n) == Pow2(j) && n <= Pow2(j) && (j == 0 || Pow2(j - 1) < n)
    decreases n - Pow2(k)
  {
    if Pow2(k) < n {
      assert Pow2(k + 1) == 2 * Pow2(k);
      j := LeastPower(k + 1, n);
    } else {
      j := k;
    }
  }

  /** The loops compute the root of the lowest tree with room for all operations: its leaves are the
      leaf hashes of their ids in operation order, left to right, and then empty ones. */
  lemma RootIsTree(records: seq<Record>) returns (height: nat)
    requires records != []
    ensures |records| <= Pow2(height) && (height == 0 || Pow2(height - 1) < |records|)
    ensures MerkleRoot(records) == Tree(Leaves(OrderedOperations(records)), height)
  {
    hide RootOf, Tree, OrderedOperations;
    OrderedLength(records);
    var leaves := Leaves(OrderedOperations(records));
    height := LeastPower(0, |leaves|);
    var filler := Pow2(height) - |leaves|;
    assert Padded(leaves) == leaves + seq(filler, _ => EmptyHash);
    FullRootIsTree(leaves, filler, height);
  }

  // ----- equal roots mean equal operations ---------------------------------------------------------

  lemma DoublingIsPower(k: nat, n: nat) returns (j: nat)
    ensures DoubleUntil(Pow2(k), n) == Pow2(j) && n <= Pow2(j)
    decreases n - Pow2(k)
  {
    if Pow2(k) < n {
      assert Pow2(k + 1) == 2 * Pow2(k);
      j := DoublingIsPower(k + 1, n);
    } else {
      j := k;
    }
  }

  function Height(h: Hash): nat {
    if h.NodeHash? then 1 + Height(h.left) else 0
  }

  /** The root of a full level sits as many steps higher as the level has halvings. */
  lemma {:induction false} RootHeight(level: seq<Hash>, k: nat, h: nat)
    requires |level| == Pow2(k) && forall i :: 0 <= i < |level| ==> Height(level[i]) == h
    ensures Height(RootOf(level)) == h + k
    decreases k
  {
    if k > 0 {
      RootHeight(PairUp(level), k - 1, h + 1);
    }
  }

  lemma {:induction false} RootInjective(a: seq<Hash>, b: seq<Hash>, k: nat)
    requires |a| == |b| == Pow2(k) && RootOf(a) == RootOf(b)
    ensures a == b
    decreases k
  {
    if k > 0 {
      assert Pow2(k) == 2 * Pow2(k - 1);
      RootInjective(PairUp(a), PairUp(b), k - 1);
      forall i | 0 <= i < |a| ensures a[i] == b[i] {
        assert PairUp(a)[i / 2] == PairUp(b)[i / 2];
        assert i == 2 * (i / 2) || i == 2 * (i / 2) + 1;
      }
    }
  }

  ghost predicate AllLeaves(leaves: seq<Hash>) {
    forall i :: 0 <= i < |leaves| ==> leaves[i].LeafHash?
  }

  lemma PaddedAt(leaves: seq<Hash>, i: nat)
    requires AllLeaves(leaves)
    ensures i < |Padded(leaves)| ==> (Padded(leaves)[i].LeafHash? <==> i < |leaves|)
    ensures |leaves| <= |Padded(leaves)|
  {
  }

  /** Padding to a power of two loses nothing: lists of leaves with equal roots are equal. */
  lemma PaddedRootInjective(a: seq<Hash>, b: seq<Hash>)
    requires a != [] && b != [] && AllLeaves(a) && AllLeaves(b)
    requires RootOf(Padded(a)) == RootOf(Padded(b))
    ensures a == b
  {
    var j := DoublingIsPower(0, |a|);
    var k := DoublingIsPower(0, |b|);
    RootHeight(Padded(a), j, 0);
    RootHeight(Padded(b), k, 0);
    RootInjective(Padded(a), Padded(b), j);
    var i := if |a| < |b| then |a| else |b|;
    PaddedAt(a, i);
    PaddedAt(b, i);
    assert a == Padded(a)[..|a|] && b == Padded(b)[..|b|];
  }

  ghost function Ids(records: seq<Record>): set<OpId> {
    set i | 0 <= i < |records| :: records[i].id
  }

  ghost function RecordSet(records: seq<Record>): set<Record> {
    set i | 0 <= i < |records| :: records[i]
  }

  /** If an id determines its record, two lists of distinct operations, in any order, have
      equal roots exactly when they hold the same ids. */
  lemma RootsEqualExactly(a: seq<Record>, b: seq<Record>)
    requires DistinctIds(a) && DistinctIds(b) && IdsDetermine(RecordSet(a) + RecordSet(b))
    ensures MerkleRoot(a) == MerkleRoot(b) <==> Ids(a) == Ids(b)
  {
    OrderedInOrder(a);
    OrderedInOrder(b);
    OrderedLength(a);
    OrderedLength(b);
    if Ids(a) == Ids(b) {
      SameIdsSameOrder(a, b);
      assert a == [] <==> b == [] by {
        assert |a| > 0 ==> a[0].id in Ids(a);
        assert |b| > 0 ==> b[0].id in Ids(b);
      }
    } else if MerkleRoot(a) == MerkleRoot(b) {
      SameRootSameIds(a, b);
    }
  }

  lemma SameIdsSameOrder(a: seq<Record>, b: seq<Record>)
    requires DistinctIds(a) && DistinctIds(b) && IdsDetermine(RecordSet(a) + RecordSet(b)) && Ids(a) == Ids(b)
    ensures OrderedOperations(a) == OrderedOperations(b)
  {
    OrderedInOrder(a);
    OrderedInOrder(b);
    forall r ensures r in a ==> r in b { SameIdsContained(a, b, r); }
    forall r ensures r in b ==> r in a { SameIdsContained(b, a, r); }
    OrderUnique(OrderedOperations(a), OrderedOperations(b));
  }

  lemma SameIdsContained(a: seq<Record>, b: seq<Record>, r: Record)
    requires IdsDetermine(RecordSet(a) + RecordSet(b)) && Ids(a) <= Ids(b)
    ensures r in a ==> r in b
  {
    if r in a {
      assert r in RecordSet(a) && r.id in Ids(a);
      var j :| 0 <= j < |b| && b[j].id == r.id;
      assert b[j] in RecordSet(b);
    }
  }

  lemma SameRootSameIds(a: seq<Record>, b: seq<Record>)
    requires DistinctIds(a) && DistinctIds(b) && MerkleRoot(a) == MerkleRoot(b)
    ensures Ids(a) == Ids(b)
  {
    var oa, ob := OrderedOperations(a), OrderedOperations(b);
    OrderedInOrder(a);
    OrderedInOrder(b);
    OrderedLength(a);
    OrderedLength(b);
    if a != [] && b != [] {
      PaddedRootInjective(Leaves(oa), Leaves(ob));
      SameLeavesSameIds(oa, ob);
      SameMembersSameIds(oa, a);
      SameMembersSameIds(ob, b);
    } else {
      NonemptyRoot(a);
      NonemptyRoot(b);
    }
  }

  lemma SameLeavesSameIds(a: seq<Record>, b: seq<Record>)
    requires Leaves(a) == Leaves(b)
    ensures Ids(a) == Ids(b)
  {
    assert |a| == |Leaves(a)| == |Leaves(b)| == |b|;
    forall i | 0 <= i < |a| ensures a[i].id == b[i].id {
      assert Leaves(a)[i] == Leaves(b)[i];
    }
  }

  lemma SameMembersSameIds(a: seq<Record>, b: seq<Record>)
    requires forall r :: r in a <==> r in b
    ensures Ids(a) == Ids(b)
  {
    forall id ensures id in Ids(a) ==> id in Ids(b) {
      if id in Ids(a) {
        var i :| 0 <= i < |a| && a[i].id == id;
        assert a[i] in b;
      }
    }
    forall id ensures id in Ids(b) ==> id in Ids(a) {
      if id in Ids(b) {
        var i :| 0 <= i < |b| && b[i].id == id;
        assert b[i] in a;
      }
    }
  }

  /** The root of an empty store is the root of no other. */
  lemma NonemptyRoot(records: seq<Record>)
    ensures records != [] ==> MerkleRoot(records) != EmptyHash
  {
    if records == [] {
      return;
    }
    var leaves := Leaves(OrderedOperations(records));
    OrderedLength(records);
    var k := DoublingIsPower(0, |leaves|);
    RootHeight(Padded(leaves), k, 0);
    assert Padded(leaves)[0] == leaves[0];
  }
}
