/** The deterministic CBOR encoder of `sync.rs` (RFC 8949, sections 3 and 4.2.1).

    A map value is a Dafny map, so it has no entry order; the method below visits its
    entries in an arbitrary order, as the encoder's result may not depend on it.
  */
module SyncCbor {
  import opened Wrappers
  import opened Bytes
  import Sorting

  datatype Cbor =
    | Null
    | Bool(flag: bool)
    | Integer(value: int)
    | ByteString(bytes: Bytes)
    | Text(utf8: Bytes)
    | Array(items: seq<Cbor>)
    | Map(entries: map<Cbor, Cbor>)
    | Other                       // floats and tags, which the encoder refuses

  datatype CborError = UnsupportedType | DuplicateMapKey

  const U64: nat := 0x1_0000_0000_0000_0000

  // ----- heads -----------------------------------------------------------------------------

  /** The initial bytes of an item: the major type and its argument in the shortest form. */
  function Head(major: nat, value: nat): Bytes
    requires major < 8
  {
    if value < 24 then [32 * major + value]
    else if value <= 0xff then [32 * major + 24, value]
    else if value <= 0xffff then [32 * major + 25] + ToBigEndian(value, 2)
    else if value <= 0xffff_ffff then [32 * major + 26] + ToBigEndian(value, 4)
    else [32 * major + 27] + ToBigEndian(value, 8)
  }

  function ArgumentWidth(value: nat): nat {
    if value < 24 then 0 else if value <= 0xff then 1 else if value <= 0xffff then 2
    else if value <= 0xffff_ffff then 4 else 8
  }

  lemma HeadLength(major: nat, value: nat)
    requires major < 8 && value < U64
    ensures |Head(major, value)| == 1 + ArgumentWidth(value)
  {
  }

  datatype Read<T> = Read(value: T, rest: Bytes)

  datatype HeadRead = HeadRead(major: nat, argument: nat, rest: Bytes)

  /** A head as RFC 8949, section 3, has it read: the major type in the three high bits, and in the
      five low ones the argument or the width of the argument that follows. Indefinite lengths are
      not deterministic, and not read. */
  function ReadHead(b: Bytes): (r: Option<HeadRead>)
    ensures r.Some? ==> r.value.major < 8 && r.value.argument < U64 && |r.value.rest| < |b|
  {
    if b == [] then None
    else
      var major, info := b[0] / 32, b[0] % 32;
      if info < 24 then Some(HeadRead(major, info, b[1..]))
      else if info == 24 then ReadArgument(major, 1, b[1..])
      else if info == 25 then ReadArgument(major, 2, b[1..])
      else if info == 26 then ReadArgument(major, 4, b[1..])
      else if info == 27 then ReadArgument(major, 8, b[1..])
      else None
  }

  function ReadArgument(major: nat, width: nat, b: Bytes): (r: Option<HeadRead>)
    requires width == 1 || width == 2 || width == 4 || width == 8
    ensures r.Some? ==> r.value.major == major && r.value.argument < U64 && |r.value.rest| <= |b|
  {
    if |b| < width then None
    else
      ToFrom(b[..width]);
      Widths();
      Some(HeadRead(major, FromBigEndian(b[..width]), b[width..]))
  }

  lemma ArgumentReadsBack(major: nat, info: nat, value: nat, width: nat, x: Bytes)
    requires major < 8 && value < Pow256(width)
    requires (info, width) in {(24, 1), (25, 2), (26, 4), (27, 8)}
    ensures ReadHead([32 * major + info] + ToBigEndian(value, width) + x) == Some(HeadRead(major, value, x))
  {
    hide ToBigEndian, FromBigEndian, Pow256;
    var argument := ToBigEndian(value, width);
    var b := [32 * major + info] + argument + x;
    FromTo(value, width);
    assert b[0] == 32 * major + info;
    assert b[1..] == argument + x && b[1..][..width] == argument && b[1..][width..] == x;
  }

  /** Reading undoes writing, whatever comes behind the head. */
  lemma HeadReadsBack(major: nat, value: nat, x: Bytes)
    requires major < 8 && value < U64
    ensures ReadHead(Head(major, value) + x) == Some(HeadRead(major, value, x))
  {
    Widths();
    OneByte(value);
    hide ToBigEndian, FromBigEndian, Pow256;
    if value < 24 {
      var b := Head(major, value) + x;
      assert b[0] == 32 * major + value && b[1..] == x;
    } else {
      hide ReadHead;
      var w := ArgumentWidth(value);
      var info := if w == 1 then 24 else if w == 2 then 25 else if w == 4 then 26 else 27;
      assert Head(major, value) == [32 * major + info] + ToBigEndian(value, w);
      ArgumentReadsBack(major, info, value, w, x);
    }
  }

  lemma OneByte(value: nat)
    ensures value <= 0xff ==> ToBigEndian(value, 1) == [value]
  {
    assert ToBigEndian(value / 256, 0) == [];
  }

  /** A head determines its type, its argument and where it ends. */
  lemma HeadPrefixFree(major1: nat, value1: nat, major2: nat, value2: nat, x: Bytes, y: Bytes)
    requires major1 < 8 && major2 < 8 && value1 < U64 && value2 < U64
    requires Head(major1, value1) + x == Head(major2, value2) + y
    ensures major1 == major2 && value1 == value2 && x == y
  {
    hide Head, ReadHead;
    HeadReadsBack(major1, value1, x);
    HeadReadsBack(major2, value2, y);
  }

  // ----- values -------------------------------------------------------------------------------

  /** The cast of an `i128` to `u64`: the low 64 bits. */
  function AsU64(i: int): nat {
    i % U64
  }

  /** The encoding of a value, or none when the encoder refuses it. */
  ghost function Encode(v: Cbor): Option<Bytes>
    decreases v, 1, 0
  {
    match v
    case Null => Some([0xf6])
    case Bool(flag) => Some([if flag then 0xf5 else 0xf4])
    case Integer(i) => Some(if i >= 0 then Head(0, AsU64(i)) else Head(1, AsU64(-1 - i)))
    case ByteString(bytes) => Some(Head(2, AsU64(|bytes|)) + bytes)
    case Text(utf8) => Some(Head(3, AsU64(|utf8|)) + utf8)
    case Array(items) =>
      (match EncodeItems(v, items)
       case None => None
       case Some(body) => Some(Head(4, AsU64(|items|)) + body))
    case Map(m) =>
      if exists keys :: KeyOrder(v, keys) then
        match EncodeEntries(v, OrderedKeys(v))
        case None => None
        case Some(body) => Some(Head(5, AsU64(|m|)) + body)
      else None
    case Other => None
  }

  /** `keys` lists the keys of the map in the order of their encodings. */
  ghost predicate KeyOrder(v: Cbor, keys: seq<Cbor>)
    requires v.Map?
    decreases v, 0, 0
  {
    && |keys| == |v.entries|
    && (forall i :: 0 <= i < |keys| ==> keys[i] in v.entries.Keys && Encode(keys[i]).Some?)
    && (forall i, j :: 0 <= i < j < |keys| ==> Less(Encode(keys[i]).value, Encode(keys[j]).value))
  }

  ghost function OrderedKeys(v: Cbor): (keys: seq<Cbor>)
    requires v.Map? && exists keys :: KeyOrder(v, keys)
    ensures KeyOrder(v, keys)
    decreases v, 0, 1
  {
    var keys :| KeyOrder(v, keys);
    keys
  }

  ghost function EncodeItems(v: Cbor, items: seq<Cbor>): Option<Bytes>
    requires forall i :: 0 <= i < |items| ==> items[i] < v
    decreases v, 0, |items|
  {
    if items == [] then Some([])
    else
      match (Encode(items[0]), EncodeItems(v, items[1..]))
      case (Some(first), Some(rest)) => Some(first + rest)
      case _ => None
  }

  ghost function EncodeEntries(v: Cbor, keys: seq<Cbor>): Option<Bytes>
    requires v.Map? && forall i :: 0 <= i < |keys| ==> keys[i] in v.entries.Keys
    decreases v, 0, |keys|
  {
    if keys == [] then Some([])
    else
      match (Encode(keys[0]), Encode(v.entries[keys[0]]), EncodeEntries(v, keys[1..]))
      case (Some(key), Some(value), Some(rest)) => Some(key + value + rest)
      case _ => None
  }

  /** Integers fit the 64-bit arguments of CBOR, and no collection is longer than a `u64`. */
  ghost predicate InRange(v: Cbor)
    decreases v
  {
    match v
    case Integer(i) => 0 <= i < U64 || 0 <= -1 - i < U64
    case ByteString(bytes) => |bytes| < U64
    case Text(utf8) => |utf8| < U64
    case Array(items) => |items| < U64 && forall i :: 0 <= i < |items| ==> InRange(items[i])
    case Map(m) => |m| < U64 && forall k :: k in m.Keys ==> InRange(k) && InRange(m[k])
    case _ => true
  }

  // ----- heads and bodies ---------------------------------------------------------------------------

  function MajorOf(v: Cbor): nat {
    match v
    case Integer(i) => if i >= 0 then 0 else 1
    case ByteString(_) => 2
    case Text(_) => 3
    case Array(_) => 4
    case Map(_) => 5
    case _ => 7
  }

  function ArgumentOf(v: Cbor): nat {
    match v
    case Null => 22
    case Bool(flag) => if flag then 21 else 20
    case Integer(i) => AsU64(if i >= 0 then i else -1 - i)
    case ByteString(bytes) => AsU64(|bytes|)
    case Text(utf8) => AsU64(|utf8|)
    case Array(items) => AsU64(|items|)
    case Map(m) => AsU64(|m|)
    case Other => 23
  }

  /** Every encoding is a head followed by a body. */
  ghost function Body(v: Cbor): Bytes
    requires Encode(v).Some?
  {
    match v
    case ByteString(bytes) => bytes
    case Text(utf8) => utf8
    case Array(items) => EncodeItems(v, items).value
    case Map(m) => EncodeEntries(v, OrderedKeys(v)).value
    case _ => []
  }

  lemma HeadThenBody(v: Cbor)
    requires Encode(v).Some?
    ensures MajorOf(v) < 8 && ArgumentOf(v) < U64 && Encode(v).value == Head(MajorOf(v), ArgumentOf(v)) + Body(v)
  {
    if !v.ByteString? && !v.Text? && !v.Array? && !v.Map? {
      var h := Head(MajorOf(v), ArgumentOf(v));
      assert h + [] == h;
    }
  }

  lemma AppendAssociates(a: Bytes, b: Bytes, c: Bytes)
    ensures a + b + c == a + (b + c)
  {
  }

  /** In range, the argument of a head is exact. */
  lemma ArgumentExact(v: Cbor)
    requires InRange(v)
    ensures v.Integer? ==> ArgumentOf(v) == if v.value >= 0 then v.value else -1 - v.value
    ensures v.ByteString? ==> ArgumentOf(v) == |v.bytes|
    ensures v.Text? ==> ArgumentOf(v) == |v.utf8|
    ensures v.Array? ==> ArgumentOf(v) == |v.items|
    ensures v.Map? ==> ArgumentOf(v) == |v.entries|
  {
  }

  // ----- reading back ---------------------------------------------------------------------------------

  /** A data item as RFC 8949, section 3, has it read. Floats and tags, which the encoder refuses, are
      not read either. */
  function ReadItem(b: Bytes): (r: Option<Read<Cbor>>)
    ensures r.Some? ==> |r.value.rest| < |b|
    decreases |b|, 0, 0
  {
    match ReadHead(b)
    case None => None
    case Some(HeadRead(major, argument, rest)) =>
      if major == 0 then Some(Read(Integer(argument), rest))
      else if major == 1 then Some(Read(Integer(-1 - argument), rest))
      else if major == 2 || major == 3 then
        if |rest| < argument then None
        else Some(Read(if major == 2 then ByteString(rest[..argument]) else Text(rest[..argument]), rest[argument..]))
      else if major == 4 then
        (match ReadItems(argument, rest)
         case None => None
         case Some(items) => Some(Read(Array(items.value), items.rest)))
      else if major == 5 then
        (match ReadEntries(argument, rest)
         case None => None
         case Some(entries) => Some(Read(Map(entries.value), entries.rest)))
      else if b[0] == 0xf4 then Some(Read(Bool(false), rest))
      else if b[0] == 0xf5 then Some(Read(Bool(true), rest))
      else if b[0] == 0xf6 then Some(Read(Null, rest))
      else None
  }

  function ReadItems(n: nat, b: Bytes): (r: Option<Read<seq<Cbor>>>)
    ensures r.Some? ==> |r.value.value| == n && |r.value.rest| <= |b|
    decreases |b|, 1, n
  {
    if n == 0 then Some(Read([], b))
    else
      match ReadItem(b)
      case None => None
      case Some(first) =>
        match ReadItems(n - 1, first.rest)
        case None => None
        case Some(more) => Some(Read([first.value] + more.value, more.rest))
  }

  /** The entries of a map; of equal keys the last one counts. */
  function ReadEntries(n: nat, b: Bytes): (r: Option<Read<map<Cbor, Cbor>>>)
    ensures r.Some? ==> |r.value.rest| <= |b|
    decreases |b|, 1, n
  {
    if n == 0 then Some(Read(map[], b))
    else
      match ReadItem(b)
      case None => None
      case Some(key) =>
        match ReadItem(key.rest)
        case None => None
        case Some(value) =>
          match ReadEntries(n - 1, value.rest)
          case None => None
          case Some(more) => Some(Read(map[key.value := value.value] + more.value, more.rest))
  }

  lemma IntegerReads(b: Bytes, h: HeadRead)
    requires ReadHead(b) == Some(h) && h.major <= 1
    ensures ReadItem(b) == Some(Read(Integer(if h.major == 0 then h.argument else -1 - h.argument), h.rest))
  {
  }

  lemma StringReads(b: Bytes, h: HeadRead, bytes: Bytes, x: Bytes)
    requires ReadHead(b) == Some(h) && 2 <= h.major <= 3 && h.argument == |bytes| && h.rest == bytes + x
    ensures ReadItem(b) == Some(Read(if h.major == 2 then ByteString(bytes) else Text(bytes), x))
  {
    assert h.rest[..|bytes|] == bytes && h.rest[|bytes|..] == x;
  }

  lemma ArrayReads(b: Bytes, h: HeadRead, items: seq<Cbor>, x: Bytes)
    requires ReadHead(b) == Some(h) && h.major == 4 && ReadItems(h.argument, h.rest) == Some(Read(items, x))
    ensures ReadItem(b) == Some(Read(Array(items), x))
  {
  }

  lemma MapReads(b: Bytes, h: HeadRead, entries: map<Cbor, Cbor>, x: Bytes)
    requires ReadHead(b) == Some(h) && h.major == 5 && ReadEntries(h.argument, h.rest) == Some(Read(entries, x))
    ensures ReadItem(b) == Some(Read(Map(entries), x))
  {
  }

  lemma SimpleHead(first: Byte, x: Bytes)
    requires 0xf4 <= first <= 0xf6
    ensures ReadHead([first] + x) == Some(HeadRead(7, first - 0xe0, x)) && ([first] + x)[0] == first
  {
    assert ([first] + x)[1..] == x;
  }

  lemma SimpleReads(b: Bytes, h: HeadRead)
    requires b != [] && ReadHead(b) == Some(h) && h.major == 7
    ensures b[0] == 0xf4 ==> ReadItem(b) == Some(Read(Bool(false), h.rest))
    ensures b[0] == 0xf5 ==> ReadItem(b) == Some(Read(Bool(true), h.rest))
    ensures b[0] == 0xf6 ==> ReadItem(b) == Some(Read(Null, h.rest))
  {
  }

  lemma SimpleReadsBack(v: Cbor, x: Bytes)
    requires v.Null? || v.Bool?
    ensures ReadItem(Encode(v).value + x) == Some(Read(v, x))
  {
    hide ReadHead, ReadItem;
    var first := Encode(v).value[0];
    SimpleHead(first, x);
    SimpleReads([first] + x, HeadRead(7, first - 0xe0, x));
  }

  lemma EncodedHead(v: Cbor, x: Bytes)
    requires InRange(v) && Encode(v).Some?
    ensures ReadHead(Encode(v).value + x) == Some(HeadRead(MajorOf(v), ArgumentOf(v), Body(v) + x))
  {
    hide Head, ReadHead, Encode, Body, ArgumentOf;
    HeadThenBody(v);
    AppendAssociates(Head(MajorOf(v), ArgumentOf(v)), Body(v), x);
    HeadReadsBack(MajorOf(v), ArgumentOf(v), Body(v) + x);
  }

  lemma BodyOf(v: Cbor)
    requires InRange(v) && Encode(v).Some?
    ensures v.Array? ==> EncodeItems(v, v.items).Some? && Body(v) == EncodeItems(v, v.items).value
    ensures v.Map? ==>
      && (exists keys :: KeyOrder(v, keys)) && KeyOrder(v, OrderedKeys(v)) && |OrderedKeys(v)| == |v.entries|
      && (forall i :: 0 <= i < |OrderedKeys(v)| ==> OrderedKeys(v)[i] in v.entries.Keys)
      && EncodeEntries(v, OrderedKeys(v)).Some? && Body(v) == EncodeEntries(v, OrderedKeys(v)).value
    ensures v.Array? ==> forall i :: 0 <= i < |v.items| ==> v.items[i] < v && InRange(v.items[i])
  {
  }

  /** Whatever comes behind it, the encoding of a value in range is read as that value, however deep. */
  lemma {:induction false} ReadsBack(v: Cbor, x: Bytes)
    requires InRange(v) && Encode(v).Some?
    ensures ReadItem(Encode(v).value + x) == Some(Read(v, x))
    decreases v, 1, 0
  {
    EncodedHead(v, x);
    ArgumentExact(v);
    BodyOf(v);
    hide ReadHead, ReadItem, ReadItems, ReadEntries, AsU64, ArgumentOf, Encode, EncodeItems, EncodeEntries, KeyOrder;
    var b, h := Encode(v).value + x, HeadRead(MajorOf(v), ArgumentOf(v), Body(v) + x);
    match v
    case Null => SimpleReadsBack(v, x);
    case Bool(_) => SimpleReadsBack(v, x);
    case Integer(_) =>
      assert [] + x == x;
      IntegerReads(b, h);
    case ByteString(bytes) => StringReads(b, h, bytes, x);
    case Text(utf8) => StringReads(b, h, utf8, x);
    case Array(items) =>
      ItemsReadBack(v, items, x);
      ArrayReads(b, h, items, x);
    case Map(m) =>
      EntriesReadBack(v, OrderedKeys(v), x);
      AllPicked(v, OrderedKeys(v));
      MapReads(b, h, m, x);
  }

  lemma {:induction false} ItemsReadBack(v: Cbor, items: seq<Cbor>, x: Bytes)
    requires forall i :: 0 <= i < |items| ==> items[i] < v && InRange(items[i])
    requires EncodeItems(v, items).Some?
    ensures ReadItems(|items|, EncodeItems(v, items).value + x) == Some(Read(items, x))
    decreases v, 0, |items|
  {
    if items == [] {
      assert [] + x == x;
    } else {
      hide InRange, Encode, ReadItem;
      var first, rest := Encode(items[0]).value, EncodeItems(v, items[1..]).value;
      AppendAssociates(first, rest, x);
      ReadsBack(items[0], rest + x);
      ItemsReadBack(v, items[1..], x);
      assert items == [items[0]] + items[1..];
    }
  }

  /** The entries of the listed keys. */
  ghost function Picked(v: Cbor, keys: seq<Cbor>): map<Cbor, Cbor>
    requires v.Map? && forall i :: 0 <= i < |keys| ==> keys[i] in v.entries.Keys
  {
    map k | k in keys :: v.entries[k]
  }

  lemma PickedFirst(v: Cbor, keys: seq<Cbor>)
    requires v.Map? && keys != [] && forall i :: 0 <= i < |keys| ==> keys[i] in v.entries.Keys
    ensures Picked(v, keys) == map[keys[0] := v.entries[keys[0]]] + Picked(v, keys[1..])
  {
    assert keys == [keys[0]] + keys[1..];
  }

  lemma EntryReads(n: nat, b: Bytes, key: Read<Cbor>, value: Read<Cbor>, more: Read<map<Cbor, Cbor>>)
    requires ReadItem(b) == Some(key) && ReadItem(key.rest) == Some(value)
    requires ReadEntries(n, value.rest) == Some(more)
    ensures ReadEntries(n + 1, b) == Some(Read(map[key.value := value.value] + more.value, more.rest))
  {
  }

  lemma {:induction false} EntriesReadBack(v: Cbor, keys: seq<Cbor>, x: Bytes)
    requires v.Map? && InRange(v) && forall i :: 0 <= i < |keys| ==> keys[i] in v.entries.Keys
    requires EncodeEntries(v, keys).Some?
    ensures ReadEntries(|keys|, EncodeEntries(v, keys).value + x) == Some(Read(Picked(v, keys), x))
    decreases v, 0, |keys|
  {
    if keys == [] {
      assert [] + x == x;
    } else {
      var k := keys[0];
      assert InRange(k) && InRange(v.entries[k]);
      hide InRange, Encode, ReadItem, ReadEntries, Picked;
      var key, value := Encode(k).value, Encode(v.entries[k]).value;
      var rest := EncodeEntries(v, keys[1..]).value;
      assert EncodeEntries(v, keys).value == key + value + rest;
      AppendAssociates(key + value, rest, x);
      AppendAssociates(key, value, rest + x);
      ReadsBack(k, value + (rest + x));
      ReadsBack(v.entries[k], rest + x);
      EntriesReadBack(v, keys[1..], x);
      PickedFirst(v, keys);
      EntryReads(|keys| - 1, EncodeEntries(v, keys).value + x, Read(k, value + (rest + x)),
                 Read(v.entries[k], rest + x), Read(Picked(v, keys[1..]), x));
    }
  }

  lemma AllPicked(v: Cbor, keys: seq<Cbor>)
    requires v.Map? && KeyOrder(v, keys)
    ensures (forall i :: 0 <= i < |keys| ==> keys[i] in v.entries.Keys) && Picked(v, keys) == v.entries
  {
    KeyOrderCovers(v, keys);
  }

  /** `Encode(v) + x == Encode(w) + y` only for equal values and equal remainders: no encoding
      is a prefix of another, and values with equal encodings are equal, however deep. */
  lemma PrefixFree(v: Cbor, w: Cbor, x: Bytes, y: Bytes)
    requires InRange(v) && InRange(w) && Encode(v).Some? && Encode(w).Some?
    requires Encode(v).value + x == Encode(w).value + y
    ensures v == w && x == y
  {
    hide Encode, InRange, ReadItem;
    ReadsBack(v, x);
    ReadsBack(w, y);
  }

  lemma LessIrreflexive(a: Bytes)
    ensures !Less(a, a)
  {
    if Less(a, a) {
      LessAsymmetric(a, a);
    }
  }

  lemma KeyOrderCovers(v: Cbor, keys: seq<Cbor>)
    requires v.Map? && KeyOrder(v, keys)
    ensures v.entries.Keys == set i | 0 <= i < |keys| :: keys[i]
  {
    var listed := set i | 0 <= i < |keys| :: keys[i];
    forall i, j | 0 <= i < j < |keys| ensures keys[i] != keys[j] {
      LessIrreflexive(Encode(keys[i]).value);
    }
    DistinctSize(keys, |keys|);
    assert listed <= v.entries.Keys;
    if listed != v.entries.Keys {
      assert |v.entries.Keys| == |listed| + |v.entries.Keys - listed|;
    }
  }

  lemma {:induction false} DistinctSize(keys: seq<Cbor>, n: nat)
    requires n <= |keys| && forall i, j :: 0 <= i < j < |keys| ==> keys[i] != keys[j]
    ensures |set i | 0 <= i < n :: keys[i]| == n
  {
    if n > 0 {
      DistinctSize(keys, n - 1);
      assert (set i | 0 <= i < n :: keys[i]) == (set i | 0 <= i < n - 1 :: keys[i]) + {keys[n - 1]};
    }
  }

  // ----- which values can be encoded ------------------------------------------------------------------

  ghost predicate Supported(v: Cbor)
    decreases v
  {
    match v
    case Array(items) => forall i :: 0 <= i < |items| ==> Supported(items[i])
    case Map(m) => forall k :: k in m.Keys ==> Supported(k) && Supported(m[k])
    case Other => false
    case _ => true
  }

  ghost predicate Colliding(k: Cbor, k': Cbor) {
    k != k' && Encode(k).Some? && Encode(k) == Encode(k')
  }

  /** Somewhere in the value a map has two different keys with the same encoding. */
  ghost predicate KeysCollide(v: Cbor)
    decreases v
  {
    match v
    case Array(items) => exists i :: 0 <= i < |items| && KeysCollide(items[i])
    case Map(m) =>
      || (exists k, k' :: k in m.Keys && k' in m.Keys && Colliding(k, k'))
      || (exists k :: k in m.Keys && (KeysCollide(k) || KeysCollide(m[k])))
    case _ => false
  }

  /** The duplicate-key error cannot happen in range: different keys encode differently. */
  lemma {:induction false} InRangeNeverCollides(v: Cbor)
    requires InRange(v)
    ensures !KeysCollide(v)
    decreases v
  {
    if v.Array? {
      forall i | 0 <= i < |v.items| ensures !KeysCollide(v.items[i]) { InRangeNeverCollides(v.items[i]); }
    } else if v.Map? {
      forall k, k' | k in v.entries.Keys && k' in v.entries.Keys ensures !Colliding(k, k') {
        if Encode(k).Some? && Encode(k) == Encode(k') {
          PrefixFree(k, k', [], []);
        }
      }
      forall k | k in v.entries.Keys ensures !KeysCollide(k) && !KeysCollide(v.entries[k]) {
        InRangeNeverCollides(k);
        InRangeNeverCollides(v.entries[k]);
      }
    }
  }

  // ----- sorting the keys ----------------------------------------------------------------------------------

  datatype Keyed = Keyed(keyBytes: Bytes, key: Cbor)

  predicate KeyedBefore(a: Keyed, b: Keyed) {
    Less(a.keyBytes, b.keyBytes)
  }

  /** `sort_by` on the encoded keys. */
  function SortKeyed(entries: seq<Keyed>): seq<Keyed> {
    Sorting.Sort(entries, KeyedBefore)
  }

  ghost predicate Ascending(entries: seq<Keyed>) {
    forall i, j :: 0 <= i < j < |entries| ==> LessEq(entries[i].keyBytes, entries[j].keyBytes)
  }

  lemma LessEqTransitive(a: Bytes, b: Bytes, c: Bytes)
    requires LessEq(a, b) && LessEq(b, c)
    ensures LessEq(a, c)
  {
    if Less(c, a) {
      LessTrichotomy(a, b);
      if Less(a, b) { LessTransitive(c, a, b); }
    }
  }

  lemma KeyedIsOrder()
    ensures Sorting.IsOrder(KeyedBefore)
  {
    forall a: Keyed, b: Keyed ensures KeyedBefore(a, b) ==> !KeyedBefore(b, a) {
      if KeyedBefore(a, b) {
        LessAsymmetric(a.keyBytes, b.keyBytes);
      }
    }
    forall a: Keyed, b: Keyed, c: Keyed
      ensures !KeyedBefore(b, a) && !KeyedBefore(c, b) ==> !KeyedBefore(c, a)
    {
      if !KeyedBefore(b, a) && !KeyedBefore(c, b) {
        LessEqTransitive(a.keyBytes, b.keyBytes, c.keyBytes);
      }
    }
  }

  lemma SortKeyedSorts(entries: seq<Keyed>)
    ensures Ascending(SortKeyed(entries)) && multiset(SortKeyed(entries)) == multiset(entries)
  {
    KeyedIsOrder();
    Sorting.Sorts(entries, KeyedBefore);
    var sorted := SortKeyed(entries);
    forall i, j | 0 <= i < j < |sorted| ensures LessEq(sorted[i].keyBytes, sorted[j].keyBytes) {
      assert !KeyedBefore(sorted[j], sorted[i]);
    }
  }

  // ----- the order of the keys is unique -------------------------------------------------------------------

  lemma KeyOrderHas(v: Cbor, keys: seq<Cbor>, key: Cbor) returns (i: nat)
    requires v.Map? && KeyOrder(v, keys) && key in v.entries.Keys
    ensures i < |keys| && keys[i] == key
  {
    KeyOrderCovers(v, keys);
    i :| i < |keys| && keys[i] == key;
  }

  lemma KeyOrderUnique(v: Cbor, a: seq<Cbor>, b: seq<Cbor>)
    requires v.Map? && KeyOrder(v, a) && KeyOrder(v, b)
    ensures a == b
  {
    forall n: nat | n <= |a| ensures a[..n] == b[..n] {
      KeyOrderPrefix(v, a, b, n);
    }
    assert a == a[..|a|] && b == b[..|b|];
  }

  lemma {:induction false} KeyOrderPrefix(v: Cbor, a: seq<Cbor>, b: seq<Cbor>, n: nat)
    requires v.Map? && KeyOrder(v, a) && KeyOrder(v, b) && n <= |a|
    ensures a[..n] == b[..n]
  {
    hide Encode, Less;
    if n > 0 {
      KeyOrderPrefix(v, a, b, n - 1);
      var i := KeyOrderHas(v, a, b[n - 1]);
      var j := KeyOrderHas(v, b, a[n - 1]);
      NotEarlier(v, a, b, n - 1, i);
      NotEarlier(v, b, a, n - 1, j);
      if i > n - 1 && j > n - 1 {
        LessAsymmetric(Encode(a[n - 1]).value, Encode(a[i]).value);
      }
      assert a[..n] == a[..n - 1] + [a[n - 1]] && b[..n] == b[..n - 1] + [b[n - 1]];
    }
  }

  /** A key of `b` past a common prefix is not in that prefix of `a`. */
  lemma NotEarlier(v: Cbor, a: seq<Cbor>, b: seq<Cbor>, n: nat, i: nat)
    requires v.Map? && KeyOrder(v, a) && KeyOrder(v, b) && n < |a| && i < |a|
    requires a[..n] == b[..n] && a[i] == b[n]
    ensures i >= n
  {
    if i < n {
      assert a[..n][i] == b[..n][i];
      LessIrreflexive(Encode(b[n]).value);
    }
  }

  lemma UnencodableKey(v: Cbor, key: Cbor)
    requires v.Map? && key in v.entries.Keys && Encode(key).None?
    ensures Encode(v).None?
  {
    if exists keys :: KeyOrder(v, keys) {
      var i := KeyOrderHas(v, OrderedKeys(v), key);
    }
  }

  lemma CollidingKeys(v: Cbor, k: Cbor, k': Cbor)
    requires v.Map? && k in v.entries.Keys && k' in v.entries.Keys && Colliding(k, k')
    ensures Encode(v).None? && KeysCollide(v)
  {
    if exists keys :: KeyOrder(v, keys) {
      var keys := OrderedKeys(v);
      var i := KeyOrderHas(v, keys, k);
      var j := KeyOrderHas(v, keys, k');
      LessIrreflexive(Encode(k).value);
    }
  }

  // ----- the encoder ------------------------------------------------------------------------------------------

  method EncodeMajor(out: Bytes, major: nat, value: nat) returns (out': Bytes)
    requires major < 8 && value < U64
    ensures out' == out + Head(major, value)
  {
    if value < 24 {
      out' := out + [32 * major + value];
    } else if value <= 0xff {
      out' := out + [32 * major + 24];
      out' := out' + [value];
    } else if value <= 0xffff {
      out' := out + [32 * major + 25];
      out' := out' + ToBigEndian(value, 2);
    } else if value <= 0xffff_ffff {
      out' := out + [32 * major + 26];
      out' := out' + ToBigEndian(value, 4);
    } else {
      out' := out + [32 * major + 27];
      out' := out' + ToBigEndian(value, 8);
    }
  }

  /** Appends the encoding of a value. What it appends depends on the value alone, whatever
      order the map entries are visited in. */
  method EncodeInto(value: Cbor, out: Bytes) returns (r: Result<Bytes, CborError>)
    ensures r.Success? <==> Encode(value).Some?
    ensures r.Success? ==> r.value == out + Encode(value).value
    ensures r == Failure(DuplicateMapKey) ==> KeysCollide(value)
    ensures r == Failure(UnsupportedType) ==> !Supported(value)
    decreases value, 2
  {
    match value {
      case Null => r := Success(out + [0xf6]);
      case Bool(flag) => r := Success(out + [if flag then 0xf5 else 0xf4]);
      case Integer(i) =>
        var bytes;
        if i >= 0 {
          bytes := EncodeMajor(out, 0, AsU64(i));
        } else {
          bytes := EncodeMajor(out, 1, AsU64(-1 - i));
        }
        r := Success(bytes);
      case ByteString(bytes) =>
        var head := EncodeMajor(out, 2, AsU64(|bytes|));
        AppendAssociates(out, Head(2, AsU64(|bytes|)), bytes);
        r := Success(head + bytes);
      case Text(utf8) =>
        var head := EncodeMajor(out, 3, AsU64(|utf8|));
        AppendAssociates(out, Head(3, AsU64(|utf8|)), utf8);
        r := Success(head + utf8);
      case Array(items) => r := EncodeArray(value, out);
      case Map(m) => r := EncodeMap(value, out);
      case Other => r := Failure(UnsupportedType);
    }
  }

  method EncodeArray(value: Cbor, out: Bytes) returns (r: Result<Bytes, CborError>)
    requires value.Array?
    ensures r.Success? <==> Encode(value).Some?
    ensures r.Success? ==> r.value == out + Encode(value).value
    ensures r == Failure(DuplicateMapKey) ==> KeysCollide(value)
    ensures r == Failure(UnsupportedType) ==> !Supported(value)
    decreases value, 0
  {
    var items := value.items;
    var start := EncodeMajor(out, 4, AsU64(|items|));
    var buffer := start;
    ghost var done: Bytes := [];
    AfterSomeBoth([], [], EncodeItems(value, items));
    assert items[0..] == items;
    for n := 0 to |items|
      invariant buffer == start + done
      invariant EncodeItems(value, items) == AfterSome(done, EncodeItems(value, items[n..]))
    {
      assert items[n..][0] == items[n] && items[n..][1..] == items[n + 1..];
      var one := EncodeInto(items[n], buffer);
      if one.Failure? {
        return one;
      }
      var first := Encode(items[n]).value;
      ItemsStep(value, items, n);
      AfterSomeBoth(done, first, EncodeItems(value, items[n + 1..]));
      AppendAssociates(start, done, first);
      buffer, done := one.value, done + first;
    }
    assert done + [] == done;
    AppendAssociates(out, Head(4, AsU64(|items|)), done);
    r := Success(buffer);
  }

  lemma ItemsStep(v: Cbor, items: seq<Cbor>, n: nat)
    requires v.Array? && items == v.items && n < |items| && Encode(items[n]).Some?
    ensures EncodeItems(v, items[n..]) == AfterSome(Encode(items[n]).value, EncodeItems(v, items[n + 1..]))
  {
    assert items[n..][0] == items[n] && items[n..][1..] == items[n + 1..];
  }

  /** The encoded keys of `value` outside `left`, each once. */
  ghost predicate KeyedFrom(keyed: seq<Keyed>, value: Cbor, left: set<Cbor>)
    requires value.Map?
  {
    && (forall i :: 0 <= i < |keyed| ==>
          keyed[i].key in value.entries.Keys - left && Encode(keyed[i].key) == Some(keyed[i].keyBytes))
    && (forall i, j :: 0 <= i < j < |keyed| ==> keyed[i].key != keyed[j].key)
  }

  lemma KeyedGrows(keyed: seq<Keyed>, value: Cbor, left: set<Cbor>, key: Cbor)
    requires value.Map? && KeyedFrom(keyed, value, left)
    requires key in left && left <= value.entries.Keys && Encode(key).Some?
    ensures KeyedFrom(keyed + [Keyed(Encode(key).value, key)], value, left - {key})
  {
  }

  lemma AllKeysLeft(value: Cbor)
    requires value.Map?
    ensures KeyedFrom([], value, value.entries.Keys) && |value.entries.Keys| == |value.entries|
  {
  }

  lemma AdjacentCollide(sorted: seq<Keyed>, value: Cbor, i: nat)
    requires value.Map? && KeyedFrom(sorted, value, {})
    requires 0 < i < |sorted| && sorted[i - 1].keyBytes == sorted[i].keyBytes
    ensures Encode(value).None? && KeysCollide(value)
  {
    CollidingKeys(value, sorted[i - 1].key, sorted[i].key);
  }

  lemma {:induction false} RepeatCounts(s: seq<Keyed>, i: nat, j: nat)
    requires i < j < |s| && s[i] == s[j]
    ensures multiset(s)[s[i]] >= 2
  {
    var last := s[|s| - 1];
    assert s == s[..|s| - 1] + [last];
    if j < |s| - 1 {
      RepeatCounts(s[..|s| - 1], i, j);
    } else {
      assert s[..|s| - 1][i] == last;
      assert last in multiset(s[..|s| - 1]);
    }
  }

  lemma {:induction false} DistinctCounts(s: seq<Keyed>, e: Keyed)
    requires forall i, j :: 0 <= i < j < |s| ==> s[i] != s[j]
    ensures multiset(s)[e] <= 1
  {
    if s != [] {
      var front, last := s[..|s| - 1], s[|s| - 1];
      assert s == front + [last];
      DistinctCounts(front, e);
      assert e == last ==> e !in front;
    }
  }

  lemma SortedKeyedFrom(keyed: seq<Keyed>, value: Cbor)
    requires value.Map? && KeyedFrom(keyed, value, {})
    ensures KeyedFrom(SortKeyed(keyed), value, {}) && |SortKeyed(keyed)| == |keyed|
  {
    var sorted := SortKeyed(keyed);
    SortKeyedSorts(keyed);
    assert |sorted| == |multiset(sorted)| == |keyed|;
    forall i | 0 <= i < |sorted|
      ensures sorted[i].key in value.entries.Keys && Encode(sorted[i].key) == Some(sorted[i].keyBytes)
    {
      assert sorted[i] in multiset(keyed);
    }
    forall i, j | 0 <= i < j < |sorted| ensures sorted[i].key != sorted[j].key {
      if sorted[i].key == sorted[j].key {
        RepeatCounts(sorted, i, j);
        DistinctCounts(keyed, sorted[i]);
      }
    }
  }

  function KeysOf(sorted: seq<Keyed>): (keys: seq<Cbor>)
    ensures |keys| == |sorted|
  {
    seq(|sorted|, i requires 0 <= i < |sorted| => sorted[i].key)
  }

  lemma SortedIsKeyOrder(sorted: seq<Keyed>, value: Cbor)
    requires value.Map? && KeyedFrom(sorted, value, {}) && |sorted| == |value.entries| && Ascending(sorted)
    requires forall k :: 1 <= k < |sorted| ==> sorted[k - 1].keyBytes != sorted[k].keyBytes
    ensures KeyOrder(value, KeysOf(sorted)) && OrderedKeys(value) == KeysOf(sorted)
  {
    forall i, j | 0 <= i < j < |sorted| ensures Less(sorted[i].keyBytes, sorted[j].keyBytes) {
      LessTrichotomy(sorted[i].keyBytes, sorted[j].keyBytes);
      if sorted[i].keyBytes == sorted[j].keyBytes && i + 1 < j {
        LessTrichotomy(sorted[i].keyBytes, sorted[i + 1].keyBytes);
      }
    }
    assert KeyOrder(value, KeysOf(sorted));
    KeyOrderUnique(value, OrderedKeys(value), KeysOf(sorted));
  }

  lemma EntriesStep(v: Cbor, keys: seq<Cbor>, n: nat)
    requires v.Map? && (forall i :: 0 <= i < |keys| ==> keys[i] in v.entries.Keys) && n < |keys|
    requires Encode(keys[n]).Some?
    ensures
      EncodeEntries(v, keys[n..]) ==
      match Encode(v.entries[keys[n]])
      case None => None
      case Some(bytes) => AfterSome(Encode(keys[n]).value + bytes, EncodeEntries(v, keys[n + 1..]))
  {
    assert keys[n..][0] == keys[n] && keys[n..][1..] == keys[n + 1..];
  }

  lemma {:induction false} ItemsEncode(v: Cbor, items: seq<Cbor>)
    requires forall i :: 0 <= i < |items| ==> items[i] < v
    ensures EncodeItems(v, items).Some? <==> forall i :: 0 <= i < |items| ==> Encode(items[i]).Some?
  {
    if items != [] {
      ItemsEncode(v, items[1..]);
      assert forall i :: 1 <= i < |items| ==> items[i] == items[1..][i - 1];
      assert forall i :: 0 <= i < |items[1..]| ==> items[1..][i] == items[i + 1];
    }
  }

  lemma {:induction false} EntriesEncode(v: Cbor, keys: seq<Cbor>)
    requires v.Map? && forall i :: 0 <= i < |keys| ==> keys[i] in v.entries.Keys
    ensures EncodeEntries(v, keys).Some? <==>
      forall i :: 0 <= i < |keys| ==> Encode(keys[i]).Some? && Encode(v.entries[keys[i]]).Some?
  {
    if keys != [] {
      EntriesEncode(v, keys[1..]);
      assert forall i :: 1 <= i < |keys| ==> keys[i] == keys[1..][i - 1];
      assert forall i :: 0 <= i < |keys[1..]| ==> keys[1..][i] == keys[i + 1];
    }
  }

  lemma ListKeys(value: Cbor) returns (keyed: seq<Keyed>)
    requires value.Map? && forall k :: k in value.entries.Keys ==> Encode(k).Some?
    ensures KeyedFrom(keyed, value, {}) && |keyed| == |value.entries|
  {
    keyed := [];
    var left := value.entries.Keys;
    AllKeysLeft(value);
    while left != {}
      invariant left <= value.entries.Keys && |keyed| + |left| == |value.entries|
      invariant KeyedFrom(keyed, value, left)
    {
      var key :| key in left;
      KeyedGrows(keyed, value, left, key);
      left := left - {key};
      keyed := keyed + [Keyed(Encode(key).value, key)];
    }
  }

  lemma MapEncodes(v: Cbor)
    requires v.Map? && !KeysCollide(v)
    requires forall k :: k in v.entries.Keys ==> Encode(k).Some? && Encode(v.entries[k]).Some?
    ensures Encode(v).Some?
  {
    var keyed := ListKeys(v);
    var sorted := SortKeyed(keyed);
    SortedKeyedFrom(keyed, v);
    SortKeyedSorts(keyed);
    forall k | 1 <= k < |sorted| ensures sorted[k - 1].keyBytes != sorted[k].keyBytes {
      if sorted[k - 1].keyBytes == sorted[k].keyBytes {
        AdjacentCollide(sorted, v, k);
      }
    }
    SortedIsKeyOrder(sorted, v);
    EntriesEncode(v, KeysOf(sorted));
    EncodeOfOrdered(v, KeysOf(sorted));
  }

  /** A value can be encoded exactly when it holds no float or tag and no map in it has two
      different keys that encode alike; in range the second never happens. */
  lemma {:induction false} EncodesExactly(v: Cbor)
    ensures Encode(v).Some? <==> Supported(v) && !KeysCollide(v)
    decreases v
  {
    if v.Array? {
      forall i | 0 <= i < |v.items|
        ensures Encode(v.items[i]).Some? <==> Supported(v.items[i]) && !KeysCollide(v.items[i])
      {
        EncodesExactly(v.items[i]);
      }
      ItemsEncode(v, v.items);
    } else if v.Map? {
      forall k | k in v.entries.Keys
        ensures Encode(k).Some? <==> Supported(k) && !KeysCollide(k)
        ensures Encode(v.entries[k]).Some? <==> Supported(v.entries[k]) && !KeysCollide(v.entries[k])
      {
        EncodesExactly(k);
        EncodesExactly(v.entries[k]);
      }
      MapEncodesExactly(v);
    }
  }

  lemma MapEncodesExactly(v: Cbor)
    requires v.Map?
    requires forall k :: k in v.entries.Keys ==>
      && (Encode(k).Some? <==> Supported(k) && !KeysCollide(k))
      && (Encode(v.entries[k]).Some? <==> Supported(v.entries[k]) && !KeysCollide(v.entries[k]))
    ensures Encode(v).Some? <==> Supported(v) && !KeysCollide(v)
  {
    if Encode(v).Some? {
      var keys := OrderedKeys(v);
      EntriesEncode(v, keys);
      forall k | k in v.entries.Keys ensures Encode(k).Some? && Encode(v.entries[k]).Some? {
        var i := KeyOrderHas(v, keys, k);
      }
      forall k, k' | k in v.entries.Keys && k' in v.entries.Keys ensures !Colliding(k, k') {
        if Colliding(k, k') {
          CollidingKeys(v, k, k');
        }
      }
    } else if Supported(v) && !KeysCollide(v) {
      MapEncodes(v);
    }
  }

  method EncodeMap(value: Cbor, out: Bytes) returns (r: Result<Bytes, CborError>)
    requires value.Map?
    ensures r.Success? <==> Encode(value).Some?
    ensures r.Success? ==> r.value == out + Encode(value).value
    ensures r == Failure(DuplicateMapKey) ==> KeysCollide(value)
    ensures r == Failure(UnsupportedType) ==> !Supported(value)
    decreases value, 1
  {
    hide Encode, KeyedFrom, KeyOrder, Supported, KeysCollide, SortKeyed;
    var m := value.entries;
    AllKeysLeft(value);
    var keyed: seq<Keyed> := [];
    var left := m.Keys;
    while left != {}
      invariant left <= m.Keys && |keyed| + |left| == |m|
      invariant KeyedFrom(keyed, value, left)
    {
      var key :| key in left;
      var one := EncodeInto(key, []);
      if one.Failure? {
        UnencodableKey(value, key);
        EntryFails(value, key);
        return one;
      }
      AfterSomeBoth([], [], Encode(key));
      KeyedGrows(keyed, value, left, key);
      left := left - {key};
      keyed := keyed + [Keyed(one.value, key)];
    }
    var sorted := SortKeyed(keyed);
    SortedKeyedFrom(keyed, value);
    SortKeyedSorts(keyed);
    var idx := 1;
    while idx < |sorted|
      invariant 1 <= idx
      invariant forall k :: 1 <= k < idx && k < |sorted| ==> sorted[k - 1].keyBytes != sorted[k].keyBytes
    {
      if sorted[idx - 1].keyBytes == sorted[idx].keyBytes {
        AdjacentCollide(sorted, value, idx);
        return Failure(DuplicateMapKey);
      }
      idx := idx + 1;
    }
    SortedIsKeyOrder(sorted, value);
    r := EncodeSorted(value, sorted, out);
  }

  lemma EncodeOfOrdered(v: Cbor, keys: seq<Cbor>)
    requires v.Map? && KeyOrder(v, keys) && OrderedKeys(v) == keys
    ensures Encode(v) == AfterSome(Head(5, AsU64(|v.entries|)), EncodeEntries(v, keys))
  {
  }

  lemma EntriesEnd(v: Cbor)
    requires v.Map?
    ensures EncodeEntries(v, []) == Some([])
  {
  }

  /** A key or value that cannot be encoded spoils the map it is in. */
  lemma EntryFails(v: Cbor, key: Cbor)
    requires v.Map? && key in v.entries.Keys
    ensures !Supported(key) || !Supported(v.entries[key]) ==> !Supported(v)
    ensures KeysCollide(key) || KeysCollide(v.entries[key]) ==> KeysCollide(v)
  {
  }

  method EncodeSorted(value: Cbor, sorted: seq<Keyed>, out: Bytes) returns (r: Result<Bytes, CborError>)
    requires value.Map? && KeyedFrom(sorted, value, {}) && |sorted| == |value.entries|
    requires KeyOrder(value, KeysOf(sorted)) && OrderedKeys(value) == KeysOf(sorted)
    ensures r.Success? <==> Encode(value).Some?
    ensures r.Success? ==> r.value == out + Encode(value).value
    ensures r == Failure(DuplicateMapKey) ==> KeysCollide(value)
    ensures r == Failure(UnsupportedType) ==> !Supported(value)
    decreases value, 0
  {
    hide Encode, EncodeEntries, KeyOrder, Supported, KeysCollide, Head;
    ghost var keys := KeysOf(sorted);
    EncodeOfOrdered(value, keys);
    var start := EncodeMajor(out, 5, AsU64(|sorted|));
    var buffer := start;
    ghost var done: Bytes := [];
    AfterSomeBoth([], [], EncodeEntries(value, keys));
    assert keys[0..] == keys;
    for n := 0 to |sorted|
      invariant buffer == start + done
      invariant EncodeEntries(value, keys) == AfterSome(done, EncodeEntries(value, keys[n..]))
    {
      var keyBytes, key := sorted[n].keyBytes, sorted[n].key;
      EntriesStep(value, keys, n);
      EntryFails(value, key);
      var one := EncodeInto(value.entries[key], buffer + keyBytes);
      if one.Failure? {
        return one;
      }
      ghost var bytes := Encode(value.entries[key]).value;
      AfterSomeBoth(done, keyBytes + bytes, EncodeEntries(value, keys[n + 1..]));
      AppendAssociates(start + done, keyBytes, bytes);
      AppendAssociates(start, done, keyBytes + bytes);
      buffer, done := one.value, done + (keyBytes + bytes);
    }
    EntriesEnd(value);
    assert keys[|sorted|..] == [] && done + [] == done;
    AppendAssociates(out, Head(5, AsU64(|sorted|)), done);
    r := Success(buffer);
  }

  // ----- decoding ---------------------------------------------------------------------------------------------

  lemma {:induction false} ReadInRange(b: Bytes)
    ensures ReadItem(b).Some? ==> InRange(ReadItem(b).value.value)
    decreases |b|, 0, 0
  {
    if ReadHead(b).Some? {
      var HeadRead(major, argument, rest) := ReadHead(b).value;
      if major == 4 {
        ItemsInRange(argument, rest);
      } else if major == 5 {
        EntriesInRange(argument, rest);
      }
    }
  }

  lemma {:induction false} ItemsInRange(n: nat, b: Bytes)
    ensures ReadItems(n, b).Some? ==>
      forall i :: 0 <= i < n ==> InRange(ReadItems(n, b).value.value[i])
    decreases |b|, 1, n
  {
    if n > 0 && ReadItem(b).Some? {
      ReadInRange(b);
      ItemsInRange(n - 1, ReadItem(b).value.rest);
    }
  }

  lemma {:induction false} EntriesInRange(n: nat, b: Bytes)
    ensures ReadEntries(n, b).Some? ==>
      var m := ReadEntries(n, b).value.value;
      |m| <= n && forall k :: k in m.Keys ==> InRange(k) && InRange(m[k])
    decreases |b|, 1, n
  {
    if n > 0 && ReadEntries(n, b).Some? {
      var key := ReadItem(b).value;
      var value := ReadItem(key.rest).value;
      var more := ReadEntries(n - 1, value.rest).value;
      hide InRange, ReadItem;
      ReadInRange(b);
      ReadInRange(key.rest);
      EntriesInRange(n - 1, value.rest);
      OneMoreEntry(key.value, value.value, more.value);
    }
  }

  lemma OneMoreEntry(key: Cbor, value: Cbor, more: map<Cbor, Cbor>)
    ensures |map[key := value] + more| <= 1 + |more|
  {
    var m := map[key := value] + more;
    assert m.Keys == {key} + more.Keys;
    assert |m| == |m.Keys| && |more| == |more.Keys|;
  }

  /** `decode_cbor`: what is read must encode back to the very same bytes. */
  ghost function Decoded(b: Bytes): Option<Cbor> {
    match ReadItem(b)
    case None => None
    case Some(Read(value, rest)) => if rest == [] && Encode(value) == Some(b) then Some(value) else None
  }

  method DecodeCbor(b: Bytes) returns (r: Option<Cbor>)
    ensures r == Decoded(b)
  {
    hide Encode, ReadItem;
    var read := ReadItem(b);
    if read.None? || read.value.rest != [] {
      return None;
    }
    var encoded := EncodeInto(read.value.value, []);
    assert forall e: Bytes :: [] + e == e;
    if encoded.Failure? || encoded.value != b {
      return None;
    }
    r := Some(read.value.value);
  }

  /** The decoder accepts exactly the encodings of values in range, one string for each value. */
  lemma DecodedExactly(b: Bytes, v: Cbor)
    ensures Decoded(b) == Some(v) <==> InRange(v) && Encode(v) == Some(b)
  {
    hide Encode, ReadItem, InRange;
    ReadInRange(b);
    if InRange(v) && Encode(v) == Some(b) {
      ReadsBack(v, []);
      assert b + [] == b;
    }
  }

  // ----- integers out of range ---------------------------------------------------------------------------------

  /** An integer somewhere in the value is beyond the 64-bit arguments. */
  ghost predicate WideInside(v: Cbor)
    decreases v
  {
    match v
    case Integer(i) => !InRange(v)
    case Array(items) => exists i :: 0 <= i < |items| && WideInside(items[i])
    case Map(m) => exists k :: k in m.Keys && (WideInside(k) || WideInside(m[k]))
    case _ => false
  }

  lemma {:induction false} ItemsAlike(v: Cbor, items: seq<Cbor>, w: Cbor, items': seq<Cbor>)
    requires |items| == |items'|
    requires forall i :: 0 <= i < |items| ==> items[i] < v && items'[i] < w && Encode(items[i]) == Encode(items'[i])
    ensures EncodeItems(v, items) == EncodeItems(w, items')
    decreases |items|
  {
    if items != [] {
      ItemsAlike(v, items[1..], w, items'[1..]);
    }
  }

  lemma {:induction false} EntriesAlike(v: Cbor, keys: seq<Cbor>, w: Cbor, keys': seq<Cbor>)
    requires v.Map? && w.Map? && |keys| == |keys'|
    requires forall i :: 0 <= i < |keys| ==> keys[i] in v.entries.Keys && keys'[i] in w.entries.Keys
    requires forall i :: 0 <= i < |keys| ==>
      Encode(keys[i]) == Encode(keys'[i]) && Encode(v.entries[keys[i]]) == Encode(w.entries[keys'[i]])
    ensures EncodeEntries(v, keys) == EncodeEntries(w, keys')
    decreases |keys|
  {
    if keys != [] {
      EntriesAlike(v, keys[1..], w, keys'[1..]);
    }
  }

  /** Maps whose entries encode alike, key by key in order, encode alike. */
  lemma MapsAlike(v: Cbor, keys: seq<Cbor>, w: Cbor, keys': seq<Cbor>)
    requires v.Map? && w.Map? && |v.entries| == |w.entries| && KeyOrder(v, keys) && KeyOrder(w, keys')
    requires forall i :: 0 <= i < |keys| ==>
      Encode(keys[i]) == Encode(keys'[i]) && Encode(v.entries[keys[i]]) == Encode(w.entries[keys'[i]])
    ensures Encode(v) == Encode(w)
  {
    KeysMembers(v, keys);
    KeysMembers(w, keys');
    hide Encode, EncodeEntries, KeyOrder, Head, AsU64;
    EncodeInOrder(v, keys);
    EncodeInOrder(w, keys');
    EntriesAlike(v, keys, w, keys');
  }

  lemma KeysMembers(v: Cbor, keys: seq<Cbor>)
    requires v.Map? && KeyOrder(v, keys)
    ensures |keys| == |v.entries| && forall i :: 0 <= i < |keys| ==> keys[i] in v.entries.Keys
  {
  }

  /** Any order of the keys by their encodings is the one the encoding has. */
  lemma EncodeInOrder(v: Cbor, keys: seq<Cbor>)
    requires v.Map? && KeyOrder(v, keys) && forall i :: 0 <= i < |keys| ==> keys[i] in v.entries.Keys
    ensures Encode(v) == AfterSome(Head(5, AsU64(|v.entries|)), EncodeEntries(v, keys))
  {
    KeyOrderUnique(v, OrderedKeys(v), keys);
    hide Head, AsU64, KeyOrder;
    EncodeOfOrdered(v, keys);
  }

  lemma PartsEncode(v: Cbor, k: Cbor)
    requires v.Map? && Encode(v).Some? && k in v.entries.Keys
    ensures Encode(k).Some? && Encode(v.entries[k]).Some?
  {
    var keys := OrderedKeys(v);
    EntriesEncode(v, keys);
    var i := KeyOrderHas(v, keys, k);
  }

  // ----- what encodes alike ------------------------------------------------------------------------------------

  /** `as u64`, on either side of zero. */
  function CastInteger(i: int): int {
    if i >= 0 then AsU64(i) else -1 - AsU64(-1 - i)
  }

  lemma CastIntegerFits(i: int)
    ensures InRange(Integer(CastInteger(i))) && Encode(Integer(CastInteger(i))) == Encode(Integer(i))
  {
    var cast := if i >= 0 then AsU64(i) else AsU64(-1 - i);
    assert 0 <= cast < U64 && AsU64(cast) == cast;
  }

  /** The value with every integer inside it cast to 64 bits, in map keys too. */
  ghost function Casted(v: Cbor): Cbor
    decreases v, 1, 0
  {
    match v
    case Integer(i) => Integer(CastInteger(i))
    case Array(items) => Array(seq(|items|, i requires 0 <= i < |items| => Casted(items[i])))
    case Map(m) => Map(map c | c in CastedKeys(v) :: Casted(m[KeyFor(v, c)]))
    case _ => v
  }

  ghost function CastedKeys(v: Cbor): set<Cbor>
    requires v.Map?
    decreases v, 0, 0
  {
    set k | k in v.entries.Keys :: Casted(k)
  }

  /** A key that is cast to `c`; for a value that can be encoded there is only one. */
  ghost function KeyFor(v: Cbor, c: Cbor): (k: Cbor)
    requires v.Map? && c in CastedKeys(v)
    ensures k in v.entries.Keys && Casted(k) == c
    decreases v, 0, 1
  {
    var k :| k in v.entries.Keys && Casted(k) == c;
    k
  }

  ghost predicate LengthsInRange(v: Cbor)
    decreases v
  {
    match v
    case ByteString(bytes) => |bytes| < U64
    case Text(utf8) => |utf8| < U64
    case Array(items) => |items| < U64 && forall i :: 0 <= i < |items| ==> LengthsInRange(items[i])
    case Map(m) => |m| < U64 && forall k :: k in m.Keys ==> LengthsInRange(k) && LengthsInRange(m[k])
    case _ => true
  }

  lemma EncodedKeysDistinct(v: Cbor, keys: seq<Cbor>, k: Cbor, k': Cbor)
    requires v.Map? && KeyOrder(v, keys) && k in v.entries.Keys && k' in v.entries.Keys && Encode(k) == Encode(k')
    ensures k == k'
  {
    hide Encode;
    var i := KeyOrderHas(v, keys, k);
    var j := KeyOrderHas(v, keys, k');
    LessIrreflexive(Encode(k).value);
  }

  lemma CastedMap(v: Cbor)
    requires v.Map?
    ensures Casted(v).Map? && Casted(v).entries.Keys == CastedKeys(v)
  {
  }

  /** The keys of a map stay apart when they are cast. */
  lemma CastedSize(v: Cbor, keys: seq<Cbor>, keys': seq<Cbor>)
    requires v.Map? && KeyOrder(v, keys)
    requires |keys'| == |keys| && forall i :: 0 <= i < |keys| ==> keys'[i] == Casted(keys[i])
    requires forall k :: k in v.entries.Keys ==> Encode(Casted(k)) == Encode(k)
    ensures |CastedKeys(v)| == |v.entries|
  {
    hide Encode, Casted;
    var listed := set i | 0 <= i < |keys'| :: keys'[i];
    forall i, j | 0 <= i < j < |keys'| ensures keys'[i] != keys'[j] {
      LessIrreflexive(Encode(keys[i]).value);
    }
    DistinctSize(keys', |keys'|);
    forall k | k in v.entries.Keys ensures Casted(k) in listed {
      var i := KeyOrderHas(v, keys, k);
      assert keys'[i] == Casted(k);
    }
    forall i | 0 <= i < |keys'| ensures keys'[i] in CastedKeys(v) {
      assert keys[i] in v.entries.Keys;
    }
    assert listed == CastedKeys(v);
  }

  /** And they stay in their order. */
  lemma CastedOrder(v: Cbor, keys: seq<Cbor>) returns (keys': seq<Cbor>)
    requires v.Map? && KeyOrder(v, keys)
    requires forall k :: k in v.entries.Keys ==> Encode(Casted(k)) == Encode(k)
    ensures |keys'| == |keys| && forall i :: 0 <= i < |keys| ==> keys'[i] == Casted(keys[i])
    ensures Casted(v).Map? && |Casted(v).entries| == |v.entries| && KeyOrder(Casted(v), keys')
  {
    hide Encode, Casted;
    keys' := seq(|keys|, i requires 0 <= i < |keys| => Casted(keys[i]));
    CastedSize(v, keys, keys');
    CastedMap(v);
    assert |Casted(v).entries| == |Casted(v).entries.Keys|;
  }

  lemma CastedMapSame(v: Cbor, keys: seq<Cbor>)
    requires v.Map? && KeyOrder(v, keys)
    requires forall k :: k in v.entries.Keys ==>
      Encode(Casted(k)) == Encode(k) && Encode(Casted(v.entries[k])) == Encode(v.entries[k])
    ensures Encode(Casted(v)) == Encode(v) && |Casted(v).entries| == |v.entries|
  {
    var keys' := CastedOrder(v, keys);
    forall i | 0 <= i < |keys|
      ensures keys'[i] in Casted(v).entries.Keys && Encode(Casted(v).entries[keys'[i]]) == Encode(v.entries[keys[i]])
    {
      CastedValue(v, keys, keys[i]);
    }
    hide Encode, KeyOrder, Casted;
    MapsAlike(v, keys, Casted(v), keys');
  }

  lemma CastedValue(v: Cbor, keys: seq<Cbor>, k: Cbor)
    requires v.Map? && KeyOrder(v, keys) && k in v.entries.Keys
    requires forall k :: k in v.entries.Keys ==> Encode(Casted(k)) == Encode(k)
    ensures Casted(k) in Casted(v).entries.Keys && Casted(v).entries[Casted(k)] == Casted(v.entries[k])
  {
    hide Encode, KeyOrder;
    assert Casted(k) in CastedKeys(v);
    EncodedKeysDistinct(v, keys, k, KeyFor(v, Casted(k)));
  }

  /** Casting the integers in a value does not change its encoding, and brings it in range. */
  lemma {:induction false} CastEncodesSame(v: Cbor)
    requires Encode(v).Some?
    ensures Encode(Casted(v)) == Encode(v) && (LengthsInRange(v) ==> InRange(Casted(v)))
    decreases v
  {
    match v
    case Integer(i) =>
      CastIntegerFits(i);
    case Array(items) =>
      ItemsEncode(v, items);
      forall i | 0 <= i < |items|
        ensures Encode(Casted(items[i])) == Encode(items[i])
        ensures LengthsInRange(items[i]) ==> InRange(Casted(items[i]))
      {
        CastEncodesSame(items[i]);
      }
      CastedArraySame(v);
    case Map(m) =>
      forall k | k in m.Keys
        ensures Encode(Casted(k)) == Encode(k) && Encode(Casted(m[k])) == Encode(m[k])
        ensures LengthsInRange(k) && LengthsInRange(m[k]) ==> InRange(Casted(k)) && InRange(Casted(m[k]))
      {
        PartsEncode(v, k);
        CastEncodesSame(k);
        CastEncodesSame(m[k]);
      }
      CastedMapSame(v, OrderedKeys(v));
      CastedMapInRange(v);
    case _ =>
  }

  lemma CastedArraySame(v: Cbor)
    requires v.Array? && forall i :: 0 <= i < |v.items| ==> Encode(Casted(v.items[i])) == Encode(v.items[i])
    ensures Encode(Casted(v)) == Encode(v)
  {
    var items' := Casted(v).items;
    ItemsAlike(v, v.items, Casted(v), items');
  }

  lemma CastedMapInRange(v: Cbor)
    requires v.Map? && |Casted(v).entries| == |v.entries|
    requires forall k :: k in v.entries.Keys && LengthsInRange(k) && LengthsInRange(v.entries[k]) ==>
      InRange(Casted(k)) && InRange(Casted(v.entries[k]))
    ensures LengthsInRange(v) ==> InRange(Casted(v))
  {
    if LengthsInRange(v) {
      forall c | c in Casted(v).entries.Keys ensures InRange(c) && InRange(Casted(v).entries[c]) {
        var k := KeyFor(v, c);
        assert InRange(Casted(k)) && InRange(Casted(v.entries[k]));
      }
    }
  }

  /** Two values that can be encoded, with lengths that fit 64 bits, encode alike if and only if
      they agree once the integers in them are cast; and nothing appended can hide a difference. */
  lemma EncodeAlikeExactly(v: Cbor, w: Cbor, x: Bytes, y: Bytes)
    requires Encode(v).Some? && Encode(w).Some? && LengthsInRange(v) && LengthsInRange(w)
    ensures Encode(v).value + x == Encode(w).value + y <==> Casted(v) == Casted(w) && x == y
  {
    hide Encode, Casted, InRange, LengthsInRange;
    CastEncodesSame(v);
    CastEncodesSame(w);
    if Encode(v).value + x == Encode(w).value + y {
      PrefixFree(Casted(v), Casted(w), x, y);
    }
  }

  lemma {:induction false} CastNarrows(v: Cbor)
    ensures !WideInside(Casted(v))
    decreases v
  {
    match v
    case Integer(i) =>
      CastIntegerFits(i);
    case Array(items) =>
      forall i | 0 <= i < |items| ensures !WideInside(Casted(v).items[i]) {
        CastNarrows(items[i]);
      }
    case Map(m) =>
      forall c | c in Casted(v).entries.Keys ensures !WideInside(c) && !WideInside(Casted(v).entries[c]) {
        var k := KeyFor(v, c);
        CastNarrows(k);
        CastNarrows(m[k]);
      }
    case _ =>
  }

  /** So a value that can be encoded with an integer out of range anywhere inside it encodes
      exactly like another value, which is in range if its lengths are. */
  lemma OutOfRangeCollides(v: Cbor)
    requires Encode(v).Some? && WideInside(v)
    ensures Colliding(v, Casted(v)) && (LengthsInRange(v) ==> InRange(Casted(v)))
  {
    hide Encode, Casted, InRange, LengthsInRange;
    CastEncodesSame(v);
    CastNarrows(v);
  }
}
