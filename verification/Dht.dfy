/** The file-backed value table of `dht.rs`: a cache, one record per key on disk, and restarts. */
module Dht {
  import opened Wrappers
  import opened Bytes

  /** The width of `u64`: an expiry time that does not fit wraps around. */
  const U64: nat := 0x1_0000_0000_0000_0000

  type Seconds = n: nat | n < U64 witness 0

  datatype DhtValue = DhtValue(value: Bytes, ttl: Seconds, created: Seconds)

  type Record = seq<DhtValue>

  predicate IsExpired(v: DhtValue, now: Seconds) {
    v.ttl != 0 && now > (v.created + v.ttl) % U64
  }

  /** `values.retain(|v| !v.is_expired(now))`. */
  function Live(vs: Record, now: Seconds): (live: Record)
    ensures |live| <= |vs|
  {
    if vs == [] then []
    else
      var front, last := Live(vs[..|vs| - 1], now), vs[|vs| - 1];
      if IsExpired(last, now) then front else front + [last]
  }

  predicate Holds(vs: Record, value: Bytes) {
    exists i :: 0 <= i < |vs| && vs[i].value == value
  }

  function Values(vs: Record): seq<Bytes> {
    seq(|vs|, i requires 0 <= i < |vs| => vs[i].value)
  }

  function Lookup(m: map<Bytes, Record>, key: Bytes): Record {
    if key in m then m[key] else []
  }

  // ----- retaining ---------------------------------------------------------------------------

  lemma {:induction false} LiveAppend(a: Record, b: Record, t: Seconds)
    ensures Live(a + b, t) == Live(a, t) + Live(b, t)
  {
    if b == [] {
      assert a + b == a;
    } else {
      LiveAppend(a, b[..|b| - 1], t);
      assert (a + b)[..|a + b| - 1] == a + b[..|b| - 1];
    }
  }

  /** What is expired stays expired, so retaining early changes nothing later. */
  lemma {:induction false} LiveTwice(vs: Record, s: Seconds, t: Seconds)
    requires s <= t
    ensures Live(Live(vs, s), t) == Live(vs, t)
  {
    if vs != [] {
      var front, last := vs[..|vs| - 1], vs[|vs| - 1];
      LiveTwice(front, s, t);
      LiveAppend(Live(front, s), [last], t);
    }
  }

  lemma {:induction false} LiveMember(vs: Record, t: Seconds, v: DhtValue)
    ensures v in Live(vs, t) <==> v in vs && !IsExpired(v, t)
  {
    if vs != [] {
      LiveMember(vs[..|vs| - 1], t, v);
      assert vs == vs[..|vs| - 1] + [vs[|vs| - 1]];
    }
  }

  // ----- the operations, on values ----------------------------------------------------------------

  /** The shared cache and the directory, one entry per file. */
  datatype Node = Node(cache: map<Bytes, Record>, disk: map<Bytes, Record>)

  function Put(n: Node, key: Bytes, value: Bytes, ttl: Seconds, now: Seconds): Node {
    var live := Live(Lookup(n.cache, key), now);
    if Holds(live, value) then
      n.(cache := n.cache[key := live])
    else
      var record := live + [DhtValue(value, ttl, now)];
      Node(n.cache[key := record], n.disk[key := record])
  }

  function GetAll(n: Node, key: Bytes, now: Seconds): (Node, seq<Bytes>) {
    if key !in n.cache then (n, [])
    else
      var live := Live(n.cache[key], now);
      if |live| == |n.cache[key]| then (n.(cache := n.cache[key := live]), Values(live))
      else if live == [] then (Node(n.cache - {key}, n.disk - {key}), [])
      else (Node(n.cache[key := live], n.disk[key := live]), Values(live))
  }

  function Cleaned(n: Node, now: Seconds): Node {
    Node(
      map k | k in n.cache && Live(n.cache[k], now) != [] :: Live(n.cache[k], now),
      map k | k in n.disk.Keys + n.cache.Keys && OnDisk(n, k, now) :: CleanedFile(n, k, now))
  }

  /** Whether a file is there after cleanup. */
  predicate OnDisk(n: Node, k: Bytes, now: Seconds) {
    if k in n.cache then
      Live(n.cache[k], now) != [] && (k in n.disk || |Live(n.cache[k], now)| != |n.cache[k]|)
    else k in n.disk
  }

  function CleanedFile(n: Node, k: Bytes, now: Seconds): Record
    requires OnDisk(n, k, now)
  {
    if k in n.cache && |Live(n.cache[k], now)| != |n.cache[k]| then Live(n.cache[k], now) else n.disk[k]
  }

  /** The places of the expired values among the given keys. */
  function Expired(cache: map<Bytes, Record>, keys: set<Bytes>, now: Seconds): set<(Bytes, int)> {
    set k, i | k in keys && k in cache && 0 <= i < |cache[k]| && IsExpired(cache[k][i], now) :: (k, i)
  }

  /** Part way through a cleanup: the keys in `done` are finished, the others untouched. */
  ghost predicate PartlyCleaned(n: Node, done: set<Bytes>, m: Node, now: Seconds) {
    (forall k :: k in m.cache <==> k in n.cache && (k !in done || Live(n.cache[k], now) != [])) &&
    (forall k :: k in m.cache ==> m.cache[k] == if k in done then Live(n.cache[k], now) else n.cache[k]) &&
    (forall k :: k in m.disk <==> if k in done then OnDisk(n, k, now) else k in n.disk) &&
    (forall k :: k in m.disk ==> m.disk[k] == if k in done then CleanedFile(n, k, now) else n.disk[k])
  }

  /** One key's turn. */
  function CleanOne(m: Node, key: Bytes, now: Seconds): Node
    requires key in m.cache
  {
    var live := Live(m.cache[key], now);
    if live == [] then Node(m.cache - {key}, m.disk - {key})
    else Node(m.cache[key := live], if |live| != |m.cache[key]| then m.disk[key := live] else m.disk)
  }

  lemma CleanNext(n: Node, done: set<Bytes>, m: Node, key: Bytes, now: Seconds)
    requires PartlyCleaned(n, done, m, now) && key in n.cache && key !in done
    ensures key in m.cache && m.cache[key] == n.cache[key]
    ensures PartlyCleaned(n, done + {key}, CleanOne(m, key, now), now)
  {
    hide Live;
  }

  lemma CleanAll(n: Node, m: Node, now: Seconds)
    requires PartlyCleaned(n, n.cache.Keys, m, now)
    ensures m == Cleaned(n, now)
  {
    hide Live;
    assert m.cache == Cleaned(n, now).cache;
    assert m.disk == Cleaned(n, now).disk;
  }

  // ----- file names --------------------------------------------------------------------------------

  function HexDigit(value: nat): char
    requires value < 16
  {
    "0123456789abcdef"[value]
  }

  function Hex(key: Bytes): string {
    if key == [] then "" else [HexDigit(key[0] / 16), HexDigit(key[0] % 16)] + Hex(key[1..])
  }

  function Nibble(ch: char): Option<nat> {
    if '0' <= ch <= '9' then Some((ch - '0') as nat)
    else if 'a' <= ch <= 'f' then Some(10 + (ch - 'a') as nat)
    else if 'A' <= ch <= 'F' then Some(10 + (ch - 'A') as nat)
    else None
  }

  /** `hex::decode`. */
  function Unhex(s: string): Option<seq<nat>> {
    if s == "" then Some([])
    else if |s| == 1 then None
    else
      match (Nibble(s[0]), Nibble(s[1]), Unhex(s[2..]))
      case (Some(high), Some(low), Some(rest)) => Some([16 * high + low] + rest)
      case _ => None
  }

  function FileName(key: Bytes): string {
    Hex(key) + ".json"
  }

  /** The place of the last dot of a name; -1 if there is none. */
  function LastDot(name: string): (i: int)
    ensures -1 <= i < |name|
  {
    if name == "" then -1 else if name[|name| - 1] == '.' then |name| - 1 else LastDot(name[..|name| - 1])
  }

  /** `Path::extension` and `Path::file_stem`: a dot in front of a name starts no extension. */
  function Extension(name: string): Option<string> {
    var i := LastDot(name);
    if i <= 0 then None else Some(name[i + 1..])
  }

  function Stem(name: string): string {
    var i := LastDot(name);
    if i <= 0 then name else name[..i]
  }

  /** Whether a start reads the file of a key back, and under that key. */
  predicate IsReadBack(key: Bytes) {
    Extension(FileName(key)) == Some("json") && Unhex(Stem(FileName(key))) == Some(key)
  }

  lemma {:induction false} HexRoundTrips(key: Bytes)
    ensures Unhex(Hex(key)) == Some(key) && '.' !in Hex(key)
  {
    if key != [] {
      HexRoundTrips(key[1..]);
      UnhexFirst(key[0], Hex(key[1..]));
      assert key == [key[0]] + key[1..];
    }
  }

  lemma UnhexFirst(b: Byte, rest: string)
    requires Unhex(rest).Some? && '.' !in rest
    ensures
      var s := [HexDigit(b / 16), HexDigit(b % 16)] + rest;
      Unhex(s) == Some([b as nat] + Unhex(rest).value) && '.' !in s
  {
    NibbleOf(b / 16);
    NibbleOf(b % 16);
    hide Nibble, HexDigit;
    var pair := [HexDigit(b / 16), HexDigit(b % 16)];
    assert (pair + rest)[2..] == rest && (pair + rest)[0] == pair[0] && (pair + rest)[1] == pair[1];
  }

  lemma NibbleOf(value: nat)
    requires value < 16
    ensures Nibble(HexDigit(value)) == Some(value) && HexDigit(value) != '.'
  {
  }

  lemma LastDotOfFile(stem: string)
    requires '.' !in stem
    ensures LastDot(stem + ".json") == |stem|
  {
    var name := stem + ".json";
    assert name[..|name| - 1] == stem + ".jso" && name[..|name| - 1][..|name| - 2] == stem + ".js";
    assert name[..|name| - 2] == stem + ".js" && (stem + ".js")[..|name| - 3] == stem + ".j";
    assert (stem + ".j")[..|name| - 4] == stem + ".";
    assert LastDot(stem + ".") == LastDot(stem + ".j") == LastDot(stem + ".js") == LastDot(stem + ".jso");
  }

  /** A start reads every file back except that of the empty key: it is called `.json`, which is a
      name without an extension. No two keys share a file. */
  lemma ReadBackExactly(key: Bytes, other: Bytes)
    ensures IsReadBack(key) <==> key != []
    ensures FileName(key) == FileName(other) <==> key == other
  {
    HexRoundTrips(key);
    HexRoundTrips(other);
    LastDotOfFile(Hex(key));
    LastDotOfFile(Hex(other));
    var name := FileName(key);
    assert name[..|Hex(key)|] == Hex(key) && name[|Hex(key)| + 1..] == "json";
    assert FileName(other)[..|Hex(other)|] == Hex(other);
    assert Hex(key) == "" <==> key == [];
  }

  /** A node started on a directory. */
  function Loaded(disk: map<Bytes, Record>, now: Seconds): Node {
    Node(map k | k in disk && IsReadBack(k) && Live(disk[k], now) != [] :: Live(disk[k], now), disk)
  }

  // ----- the operations, in place -------------------------------------------------------------------

  class FileDht {
    var cache: map<Bytes, Record>
    var disk: map<Bytes, Record>

    function State(): Node
      reads this
    {
      Node(cache, disk)
    }

    constructor (files: map<Bytes, Record>, now: Seconds)
      ensures State() == Loaded(files, now)
    {
      hide IsReadBack;
      cache, disk := map[], files;
      new;
      var entries := files.Keys;
      while entries != {}
        invariant disk == files && entries <= files.Keys
        invariant forall k :: k in cache <==> k in files && k !in entries && IsReadBack(k) && Live(files[k], now) != []
        invariant forall k :: k in cache ==> cache[k] == Live(files[k], now)
        decreases |entries|
      {
        var key :| key in entries;
        entries := entries - {key};
        if !IsReadBack(key) {
          continue;
        }
        var record := Live(files[key], now);
        if record != [] {
          cache := cache[key := record];
        }
      }
    }

    method PutValue(key: Bytes, value: Bytes, ttl: Seconds, now: Seconds)
      modifies this
      ensures State() == Put(old(State()), key, value, ttl, now)
    {
      if key !in cache {
        cache := cache[key := []];
      }
      cache := cache[key := Live(cache[key], now)];
      if exists i :: 0 <= i < |cache[key]| && cache[key][i].value == value {
        return;
      }
      cache := cache[key := cache[key] + [DhtValue(value, ttl, now)]];
      disk := disk[key := cache[key]];
    }

    method GetValues(key: Bytes, now: Seconds) returns (values: seq<Bytes>)
      modifies this
      ensures (State(), values) == GetAll(old(State()), key, now)
    {
      if key !in cache {
        return [];
      }
      var originalLength := |cache[key]|;
      cache := cache[key := Live(cache[key], now)];
      if |cache[key]| != originalLength {
        if cache[key] == [] {
          cache := cache - {key};
          disk := disk - {key};
          assert cache == old(cache) - {key};
          return [];
        } else {
          disk := disk[key := cache[key]];
        }
      }
      values := Values(cache[key]);
    }

    /** Removes the expired values of every cached key and counts them. */
    method CleanupExpired(now: Seconds) returns (removed: nat)
      modifies this
      ensures State() == Cleaned(old(State()), now)
      ensures removed == |Expired(old(cache), old(cache).Keys, now)|
    {
      hide Live, Expired, PartlyCleaned, Cleaned;
      ghost var n := State();
      removed := 0;
      CleanStart(n, now);
      var keys := cache.Keys;
      ghost var done: set<Bytes> := {};
      while keys != {}
        invariant keys <= n.cache.Keys && done == n.cache.Keys - keys
        invariant PartlyCleaned(n, done, State(), now)
        invariant removed == |Expired(n.cache, done, now)|
        decreases |keys|
      {
        var key :| key in keys;
        ExpiredGrows(n.cache, done, key, now);
        CleanNext(n, done, State(), key, now);
        var record := Live(cache[key], now);
        removed := removed + |cache[key]| - |record|;
        if record == [] {
          cache := cache - {key};
          disk := disk - {key};
        } else {
          if |cache[key]| != |record| {
            disk := disk[key := record];
          }
          cache := cache[key := record];
        }
        keys := keys - {key};
        done := done + {key};
      }
      assert done == n.cache.Keys;
      CleanAll(n, State(), now);
    }
  }

  /** The places of the expired values of one record. */
  function ExpiredIn(key: Bytes, vs: Record, now: Seconds): set<(Bytes, int)> {
    set i | 0 <= i < |vs| && IsExpired(vs[i], now) :: (key, i)
  }

  lemma {:induction false} LiveLength(key: Bytes, vs: Record, now: Seconds)
    ensures |ExpiredIn(key, vs, now)| == |vs| - |Live(vs, now)|
  {
    hide IsExpired;
    if vs == [] {
      assert ExpiredIn(key, vs, now) == {};
    } else {
      var front, n := vs[..|vs| - 1], |vs| - 1;
      LiveLength(key, front, now);
      if IsExpired(vs[n], now) {
        assert ExpiredIn(key, vs, now) == ExpiredIn(key, front, now) + {(key, n)};
      } else {
        assert ExpiredIn(key, vs, now) == ExpiredIn(key, front, now);
      }
    }
  }

  lemma CleanStart(n: Node, now: Seconds)
    ensures PartlyCleaned(n, {}, n, now) && |Expired(n.cache, {}, now)| == 0
  {
    assert Expired(n.cache, {}, now) == {};
  }

  lemma ExpiredGrows(cache: map<Bytes, Record>, keys: set<Bytes>, key: Bytes, now: Seconds)
    requires key in cache && key !in keys
    ensures |Expired(cache, keys + {key}, now)| == |Expired(cache, keys, now)| + |cache[key]| - |Live(cache[key], now)|
  {
    LiveLength(key, cache[key], now);
    var added := ExpiredIn(key, cache[key], now);
    assert Expired(cache, keys + {key}, now) == Expired(cache, keys, now) + added;
    assert Expired(cache, keys, now) * added == {};
  }

  // ----- runs -----------------------------------------------------------------------------------------

  datatype Op = PutOp(key: Bytes, value: Bytes, ttl: Seconds) | GetOp(key: Bytes) | CleanupOp | RestartOp

  datatype Event = Event(op: Op, now: Seconds)

  function Step(n: Node, e: Event): Node {
    match e.op
    case PutOp(key, value, ttl) => Put(n, key, value, ttl, e.now)
    case GetOp(key) => GetAll(n, key, e.now).0
    case CleanupOp => Cleaned(n, e.now)
    case RestartOp => Loaded(n.disk, e.now)
  }

  /** A run from an empty directory. */
  function Run(events: seq<Event>): Node {
    if events == [] then Node(map[], map[]) else Step(Run(events[..|events| - 1]), events[|events| - 1])
  }

  /** The clock never goes back. */
  predicate Ordered(events: seq<Event>) {
    forall i, j :: 0 <= i < j < |events| ==> events[i].now <= events[j].now
  }

  predicate NotAfter(events: seq<Event>, t: Seconds) {
    forall i :: 0 <= i < |events| ==> events[i].now <= t
  }

  /** The puts of a key that took effect: all but those whose value was there, unexpired, already.
      Nothing is deleted here, and cache, disk and cleanups play no part; nor do restarts, except
      that they forget the one key whose file is not read back. */
  function Effective(events: seq<Event>, key: Bytes): Record {
    if events == [] then []
    else
      var before, e := Effective(events[..|events| - 1], key), events[|events| - 1];
      if e.op.PutOp? && e.op.key == key && !Holds(Live(before, e.now), e.op.value)
      then before + [DhtValue(e.op.value, e.op.ttl, e.now)]
      else if e.op.RestartOp? && !IsReadBack(key) then []
      else before
  }

  /** What a table should hold at time `t`. */
  function Expected(events: seq<Event>, key: Bytes, t: Seconds): Record {
    Live(Effective(events, key), t)
  }

  /** Which keys a table answers for: the cache for all, the disk for those it gives back. */
  predicate Covers(all: bool, key: Bytes) {
    all || IsReadBack(key)
  }

  /** From time `now` on, the table shows just what it should. */
  ghost predicate Shows(table: map<Bytes, Record>, events: seq<Event>, now: Seconds, all: bool) {
    forall k, t: Seconds :: Covers(all, k) && now <= t ==> Live(Lookup(table, k), t) == Expected(events, k, t)
  }

  ghost predicate NodeShows(n: Node, events: seq<Event>, now: Seconds) {
    Shows(n.cache, events, now, true) && Shows(n.disk, events, now, false)
  }

  lemma ShowsLater(n: Node, events: seq<Event>, s: Seconds, t: Seconds)
    requires NodeShows(n, events, s) && s <= t
    ensures NodeShows(n, events, t)
  {
  }

  /** A record may be replaced by what is left of it. */
  lemma RetainShows(before: map<Bytes, Record>, table: map<Bytes, Record>, events: seq<Event>, now: Seconds, all: bool)
    requires Shows(before, events, now, all)
    requires forall k :: Covers(all, k) ==>
      Lookup(table, k) == Lookup(before, k) || Lookup(table, k) == Live(Lookup(before, k), now)
    ensures Shows(table, events, now, all)
  {
    hide Effective;
    forall k, t: Seconds | Covers(all, k) && now <= t ensures Live(Lookup(table, k), t) == Expected(events, k, t) {
      LiveTwice(Lookup(before, k), now, t);
    }
  }

  /** One record may be replaced by another that shows the same. */
  lemma ReplaceShows(before: map<Bytes, Record>, table: map<Bytes, Record>, events: seq<Event>,
                     now: Seconds, all: bool, key: Bytes, source: Record)
    requires Shows(before, events, now, all)
    requires forall t: Seconds :: now <= t ==> Live(source, t) == Expected(events, key, t)
    requires Lookup(table, key) == source || Lookup(table, key) == Live(source, now)
    requires forall k :: k != key ==> Lookup(table, k) == Lookup(before, k)
    ensures Shows(table, events, now, all)
  {
    hide Effective;
    forall k, t: Seconds | Covers(all, k) && now <= t ensures Live(Lookup(table, k), t) == Expected(events, k, t) {
      LiveTwice(source, now, t);
    }
  }

  lemma Extended(events: seq<Event>, e: Event, k: Bytes, t: Seconds)
    requires !e.op.PutOp?
    ensures Expected(events + [e], k, t) == if e.op.RestartOp? && !IsReadBack(k) then [] else Expected(events, k, t)
  {
    assert (events + [e])[..|events|] == events;
  }

  lemma PutShows(n: Node, events: seq<Event>, e: Event)
    requires e.op.PutOp? && NodeShows(n, events, e.now)
    ensures NodeShows(Step(n, e), events + [e], e.now)
  {
    hide Live, IsReadBack;
    var next, more := Step(n, e), events + [e];
    assert more[..|events|] == events;
    var key, now := e.op.key, e.now;
    forall k, t: Seconds | now <= t
      ensures Live(Lookup(next.cache, k), t) == Expected(more, k, t)
      ensures IsReadBack(k) ==> Live(Lookup(next.disk, k), t) == Expected(more, k, t)
    {
      assert Live(Lookup(n.cache, key), now) == Live(Effective(events, key), now);
      assert Live(Lookup(n.cache, k), t) == Expected(events, k, t);
      assert IsReadBack(k) ==> Live(Lookup(n.disk, k), t) == Expected(events, k, t);
      LiveTwice(Lookup(n.cache, key), now, t);
      var added := [DhtValue(e.op.value, e.op.ttl, now)];
      LiveAppend(Live(Lookup(n.cache, key), now), added, t);
      LiveAppend(Effective(events, key), added, t);
    }
  }

  lemma RestartShows(n: Node, events: seq<Event>, e: Event)
    requires e.op.RestartOp? && NodeShows(n, events, e.now)
    ensures NodeShows(Step(n, e), events + [e], e.now)
  {
    hide Effective, Expected, IsReadBack;
    var next := Step(n, e);
    forall k, t: Seconds | e.now <= t
      ensures Live(Lookup(next.cache, k), t) == Expected(events + [e], k, t)
      ensures IsReadBack(k) ==> Live(Lookup(next.disk, k), t) == Expected(events + [e], k, t)
    {
      Extended(events, e, k, t);
      LiveTwice(Lookup(n.disk, k), e.now, t);
    }
  }

  lemma StepShows(n: Node, events: seq<Event>, e: Event)
    requires NodeShows(n, events, e.now)
    ensures NodeShows(Step(n, e), events + [e], e.now)
  {
    hide Effective, NodeShows, Live, Expected;
    match e.op
    case PutOp(_, _, _) =>
      PutShows(n, events, e);
    case GetOp(key) =>
      GetShows(n, events, key, e.now);
      SameShows(Step(n, e), events, e);
    case CleanupOp =>
      CleanupShows(n, events, e.now);
      SameShows(Step(n, e), events, e);
    case RestartOp =>
      RestartShows(n, events, e);
  }

  lemma SameShows(n: Node, events: seq<Event>, e: Event)
    requires NodeShows(n, events, e.now) && !e.op.PutOp? && !e.op.RestartOp?
    ensures NodeShows(n, events + [e], e.now)
  {
    hide Expected;
    forall k, t: Seconds ensures Expected(events + [e], k, t) == Expected(events, k, t) {
      Extended(events, e, k, t);
    }
  }

  lemma CacheRecord(n: Node, events: seq<Event>, key: Bytes, now: Seconds)
    requires NodeShows(n, events, now)
    ensures forall t: Seconds :: now <= t ==> Live(Lookup(n.cache, key), t) == Expected(events, key, t)
  {
  }

  lemma GetShows(n: Node, events: seq<Event>, key: Bytes, now: Seconds)
    requires NodeShows(n, events, now)
    ensures NodeShows(GetAll(n, key, now).0, events, now)
  {
    var next := GetAll(n, key, now).0;
    CacheRecord(n, events, key, now);
    RetainShows(n.cache, next.cache, events, now, true);
    if next.disk != n.disk {
      ReplaceShows(n.disk, next.disk, events, now, false, key, Lookup(n.cache, key));
    }
  }

  lemma CleanupShows(n: Node, events: seq<Event>, now: Seconds)
    requires NodeShows(n, events, now)
    ensures NodeShows(Cleaned(n, now), events, now)
  {
    var next := Cleaned(n, now);
    RetainShows(n.cache, next.cache, events, now, true);
    forall k, t: Seconds | IsReadBack(k) && now <= t ensures Live(Lookup(next.disk, k), t) == Expected(events, k, t) {
      LiveTwice(Lookup(n.cache, k), now, t);
    }
  }

  // ----- main results ------------------------------------------------------------------------------------

  /** After any run under a clock that never goes back, the cache shows the put history, and so
      does the disk for every key it gives back. */
  lemma {:induction false} EveryRunShowsHistory(events: seq<Event>, t: Seconds)
    requires Ordered(events) && NotAfter(events, t)
    ensures NodeShows(Run(events), events, t)
  {
    hide NodeShows;
    if events == [] {
      NothingShown(t);
    } else {
      var before, e := events[..|events| - 1], events[|events| - 1];
      assert events == before + [e];
      EveryRunShowsHistory(before, e.now);
      StepShows(Run(before), before, e);
      ShowsLater(Run(events), events, e.now, t);
    }
  }

  lemma NothingShown(t: Seconds)
    ensures NodeShows(Run([]), [], t)
  {
  }

  /** A query answers the unexpired, deduplicated history, in order. */
  lemma QueriesAnswerHistory(events: seq<Event>, key: Bytes, t: Seconds)
    requires Ordered(events) && NotAfter(events, t)
    ensures GetAll(Run(events), key, t).1 == Values(Expected(events, key, t))
  {
    EveryRunShowsHistory(events, t);
    var n := Run(events);
    assert Live(Lookup(n.cache, key), t) == Expected(events, key, t);
    assert key !in n.cache ==> Live([], t) == [];
  }

  /** An event that leaves the history as it is leaves every later history as it is. */
  lemma {:induction false} LeavesHistory(before: seq<Event>, e: Event, after: seq<Event>, key: Bytes)
    requires Effective(before + [e], key) == Effective(before, key)
    ensures Effective(before + [e] + after, key) == Effective(before + after, key)
  {
    hide Live, Holds, IsReadBack;
    if after == [] {
      assert before + after == before && before + [e] + after == before + [e];
    } else {
      var front := after[..|after| - 1];
      LeavesHistory(before, e, front, key);
      assert (before + [e] + after)[..|before| + |after|] == before + [e] + front;
      assert (before + after)[..|before| + |after| - 1] == before + front;
    }
  }

  lemma Invisible(before: seq<Event>, e: Event, after: seq<Event>, key: Bytes, t: Seconds)
    requires Effective(before + [e], key) == Effective(before, key)
    requires Ordered(before + [e] + after) && NotAfter(before + [e] + after, t)
    ensures GetAll(Run(before + [e] + after), key, t).1 == GetAll(Run(before + after), key, t).1
  {
    hide Effective, Run, GetAll;
    var with, without := before + [e] + after, before + after;
    forall i, j | 0 <= i < j < |without| ensures without[i].now <= without[j].now {
      assert without[i] == with[if i < |before| then i else i + 1];
      assert without[j] == with[if j < |before| then j else j + 1];
    }
    forall i | 0 <= i < |without| ensures without[i].now <= t {
      assert without[i] == with[if i < |before| then i else i + 1];
    }
    QueriesAnswerHistory(with, key, t);
    QueriesAnswerHistory(without, key, t);
    LeavesHistory(before, e, after, key);
  }

  /** A restart at any point of a run cannot be noticed: every later query, except for the empty
      key, answers as if it had not happened. */
  lemma RestartInvisible(before: seq<Event>, r: Event, after: seq<Event>, key: Bytes, t: Seconds)
    requires r.op.RestartOp? && key != [] && Ordered(before + [r] + after) && NotAfter(before + [r] + after, t)
    ensures GetAll(Run(before + [r] + after), key, t).1 == GetAll(Run(before + after), key, t).1
  {
    hide IsReadBack, Run, GetAll;
    ReadBackExactly(key, key);
    assert (before + [r])[..|before|] == before;
    Invisible(before, r, after, key, t);
  }

  /** A restart keeps the answers for a key exactly if the key is not empty or there were none. */
  lemma RestartKeepsAnswersExactly(events: seq<Event>, key: Bytes, t: Seconds)
    requires Ordered(events) && NotAfter(events, t)
    ensures
      var n := Run(events);
      GetAll(Loaded(n.disk, t), key, t).1 == GetAll(n, key, t).1 <==> key != [] || GetAll(n, key, t).1 == []
  {
    hide Expected, IsReadBack, GetAll, Run, Loaded;
    var r := Event(RestartOp, t);
    ReadBackExactly(key, key);
    QueriesAnswerHistory(events, key, t);
    QueriesAnswerHistory(events + [r], key, t);
    Extended(events, r, key, t);
    RunAppend(events, r);
  }

  /** The empty key loses its values. */
  lemma EmptyKeyIsLost(value: Bytes, t: Seconds)
    ensures
      var n := Run([Event(PutOp([], value, 0), t)]);
      GetAll(n, [], t).1 == [value] && GetAll(Loaded(n.disk, t), [], t).1 == []
  {
    var events := [Event(PutOp([], value, 0), t)];
    assert [][..] == events[..0];
    LiveOne(DhtValue(value, 0, t), t);
    assert Effective(events, []) == [DhtValue(value, 0, t)];
    hide IsReadBack, Effective, Run, GetAll;
    ReadBackExactly([], []);
    QueriesAnswerHistory(events, [], t);
    NotLoaded(Run(events).disk, [], t);
  }

  lemma NotLoaded(disk: map<Bytes, Record>, key: Bytes, t: Seconds)
    requires !IsReadBack(key)
    ensures GetAll(Loaded(disk, t), key, t).1 == []
  {
    hide IsReadBack;
  }

  ghost predicate Distinct(vs: Record) {
    forall i, j :: 0 <= i < j < |vs| ==> vs[i].value != vs[j].value
  }

  /** A value absent at an earlier time is still absent among what is left of the same record. */
  lemma AbsentLater(vs: Record, value: Bytes, s: Seconds, t: Seconds)
    requires s <= t && !Holds(Live(vs, s), value)
    ensures !Holds(Live(vs, t), value)
  {
    forall i | 0 <= i < |Live(vs, t)| ensures Live(vs, t)[i].value != value {
      LiveTwice(vs, s, t);
      LiveMember(Live(vs, s), t, Live(vs, t)[i]);
    }
  }

  lemma DistinctAppend(prior: Record, added: DhtValue, s: Seconds, t: Seconds)
    requires s <= t && Distinct(Live(prior, t)) && !Holds(Live(prior, s), added.value)
    ensures Distinct(Live(prior + [added], t))
  {
    hide Live, IsExpired;
    LiveAppend(prior, [added], t);
    LiveOne(added, t);
    AbsentLater(prior, added.value, s, t);
  }

  /** No value is answered twice. */
  lemma {:induction false} AnswersDistinct(events: seq<Event>, key: Bytes, t: Seconds)
    requires Ordered(events) && NotAfter(events, t)
    ensures Distinct(Expected(events, key, t))
  {
    hide Live, IsExpired, Distinct, Holds;
    NothingDistinct(t);
    if events != [] {
      var before, e := events[..|events| - 1], events[|events| - 1];
      AnswersDistinct(before, key, t);
      if e.op.PutOp? {
        var added := DhtValue(e.op.value, e.op.ttl, e.now);
        if !Holds(Live(Effective(before, key), e.now), e.op.value) {
          DistinctAppend(Effective(before, key), added, e.now, t);
        }
      }
    }
  }

  lemma NothingDistinct(t: Seconds)
    ensures Distinct(Live([], t))
  {
  }

  /** A put is answered at once, unless its expiry time does not fit in 64 bits: then exactly if
      the value was there already. */
  lemma PutAnsweredExactly(events: seq<Event>, key: Bytes, value: Bytes, ttl: Seconds, now: Seconds)
    requires Ordered(events) && NotAfter(events, now)
    ensures
      Holds(Expected(events + [Event(PutOp(key, value, ttl), now)], key, now), value) <==>
      Holds(Expected(events, key, now), value) || ttl == 0 || now + ttl < U64
  {
    hide Live;
    var e := Event(PutOp(key, value, ttl), now);
    assert (events + [e])[..|events|] == events;
    var prior, added := Effective(events, key), DhtValue(value, ttl, now);
    LiveAppend(prior, [added], now);
    LiveOne(added, now);
    var live := Live(prior, now) + Live([added], now);
    if Holds(Live(prior, now), value) {
    } else if !IsExpired(added, now) {
      assert live[|live| - 1].value == value;
    } else {
      assert live == Live(prior, now);
    }
  }

  lemma LiveOne(v: DhtValue, now: Seconds)
    ensures Live([v], now) == if IsExpired(v, now) then [] else [v]
  {
    assert [v][..0] == [];
  }

  predicate Restarts(events: seq<Event>) {
    exists i :: 0 <= i < |events| && events[i].op.RestartOp?
  }

  /** What took effect stays: later answers lose a value only by its expiry, or by a restart when
      its file is not read back. */
  lemma {:induction false} OnlyExpiryRemoves(events: seq<Event>, more: seq<Event>, key: Bytes, s: Seconds, t: Seconds)
    requires s <= t && (Restarts(more) ==> IsReadBack(key))
    ensures Effective(events, key) <= Effective(events + more, key)
    ensures forall v :: v in Expected(events, key, s) && !IsExpired(v, t) ==> v in Expected(events + more, key, t)
  {
    if more == [] {
      assert events + more == events;
    } else {
      var front := more[..|more| - 1];
      assert forall i :: 0 <= i < |front| ==> front[i] == more[i];
      OnlyExpiryRemoves(events, front, key, s, t);
      assert (events + more)[|events + more| - 1] == more[|more| - 1];
      assert (events + more)[..|events + more| - 1] == events + more[..|more| - 1];
    }
    forall v | v in Expected(events, key, s) && !IsExpired(v, t) ensures v in Expected(events + more, key, t) {
      LiveMember(Effective(events, key), s, v);
      LiveMember(Effective(events + more, key), t, v);
    }
  }

  // ----- how long a value lives ------------------------------------------------------------------------

  /** It is put again only while it lives. */
  predicate PutAgainAlive(events: seq<Event>, key: Bytes, v: DhtValue) {
    forall i :: 0 <= i < |events| && events[i].op.PutOp? && events[i].op.key == key && events[i].op.value == v.value ==>
      v.ttl == 0 || events[i].now <= v.created + v.ttl < U64
  }

  /** Then no other copy of the value comes into the record. */
  lemma {:induction false} NoOtherCopy(before: seq<Event>, more: seq<Event>, key: Bytes, added: DhtValue, v: DhtValue)
    requires added in Effective(before, key) && PutAgainAlive(more, key, added)
    requires (key == [] ==> !Restarts(more)) && forall i :: 0 <= i < |more| ==> added.created <= more[i].now
    requires v.value == added.value && v in Effective(before + more, key)
    ensures v in Effective(before, key)
  {
    hide Live, Holds, IsReadBack;
    if more == [] {
      assert before + more == before;
    } else {
      var front, last := more[..|more| - 1], more[|more| - 1];
      assert (before + more)[..|before + more| - 1] == before + front;
      assert (before + more)[|before + more| - 1] == last;
      assert forall i :: 0 <= i < |front| ==> front[i] == more[i];
      if last.op.PutOp? && last.op.key == key && last.op.value == added.value {
        StaysInEffect(before, front, key);
        assert !IsExpired(added, last.now);
        StillHeld(Effective(before + front, key), added, last.now);
      }
      NoOtherCopy(before, front, key, added, v);
    }
  }

  lemma StillHeld(vs: Record, v: DhtValue, t: Seconds)
    requires v in vs && !IsExpired(v, t)
    ensures Holds(Live(vs, t), v.value)
  {
    LiveMember(vs, t, v);
    var i :| 0 <= i < |Live(vs, t)| && Live(vs, t)[i] == v;
  }

  lemma HoldsLive(vs: Record, value: Bytes, t: Seconds)
    ensures value in Values(Live(vs, t)) <==> exists v :: v in vs && v.value == value && !IsExpired(v, t)
  {
    hide Live, IsExpired;
    var live := Live(vs, t);
    if value in Values(live) {
      var i :| 0 <= i < |live| && live[i].value == value;
      LiveMember(vs, t, live[i]);
    }
    if v :| v in vs && v.value == value && !IsExpired(v, t) {
      LiveMember(vs, t, v);
      var i :| 0 <= i < |live| && live[i] == v;
      assert Values(live)[i] == value;
    }
  }

  /** The record of a key just after a put of a value that was not there. */
  lemma PutTakesEffect(events: seq<Event>, key: Bytes, value: Bytes, ttl: Seconds, now: Seconds)
    requires value !in Values(Expected(events, key, now))
    ensures Effective(events + [Event(PutOp(key, value, ttl), now)], key) ==
            Effective(events, key) + [DhtValue(value, ttl, now)]
  {
    hide Live, Effective;
    var live := Expected(events, key, now);
    forall i | 0 <= i < |live| ensures live[i].value != value { assert Values(live)[i] == live[i].value; }
    EffectiveStep(events, Event(PutOp(key, value, ttl), now), key);
  }

  lemma EffectiveStep(events: seq<Event>, e: Event, key: Bytes)
    requires e.op.PutOp?
    ensures Effective(events + [e], key) ==
      if e.op.key == key && !Holds(Live(Effective(events, key), e.now), e.op.value)
      then Effective(events, key) + [DhtValue(e.op.value, e.op.ttl, e.now)] else Effective(events, key)
  {
    assert (events + [e])[..|events|] == events;
  }

  lemma {:induction false} OrderedPrefix(a: seq<Event>, b: seq<Event>, now: Seconds)
    requires Ordered(a + b) && b != [] && b[0].now == now
    ensures Ordered(a) && NotAfter(a, now)
  {
    forall i | 0 <= i < |a| ensures a[i].now <= now { assert (a + b)[i] == a[i] && (a + b)[|a|] == b[0]; }
    forall i, j | 0 <= i < j < |a| ensures a[i].now <= a[j].now { assert (a + b)[i] == a[i] && (a + b)[j] == a[j]; }
  }

  /** A value put where it was not answered is answered from then on, through any queries, cleanups,
      restarts and further puts, up to and including the second its lifetime ends, and not after,
      unless it is put again later still: putting it again before does not extend its life. With a
      lifetime of zero it is answered for good, and with one whose end does not fit in 64 bits not
      even at once. */
  lemma LifetimeExactly(events: seq<Event>, key: Bytes, value: Bytes, ttl: Seconds, now: Seconds, more: seq<Event>,
                        t: Seconds)
    requires Ordered(events + [Event(PutOp(key, value, ttl), now)] + more)
    requires NotAfter([Event(PutOp(key, value, ttl), now)] + more, t)
    requires value !in GetAll(Run(events), key, now).1
    requires PutAgainAlive(more, key, DhtValue(value, ttl, now)) && (key == [] ==> !Restarts(more))
    ensures
      value in GetAll(Run(events + [Event(PutOp(key, value, ttl), now)] + more), key, t).1 <==>
      ttl == 0 || t <= now + ttl < U64
  {
    hide Effective, Live, Run, GetAll, IsReadBack, IsExpired, PutAgainAlive, Restarts;
    var e, added := Event(PutOp(key, value, ttl), now), DhtValue(value, ttl, now);
    var whole := events + [e] + more;
    assert whole == events + ([e] + more) && ([e] + more)[0] == e;
    OrderedPrefix(events, [e] + more, now);
    NotAfterWhole(events, [e] + more, now, t);
    QueriesAnswerHistory(events, key, now);
    QueriesAnswerHistory(whole, key, t);
    PutTakesEffect(events, key, value, ttl, now);
    HoldsLive(Effective(events, key), value, now);
    HoldsLive(Effective(whole, key), value, t);
    StaysInEffect(events + [e], more, key);
    assert (Effective(events, key) + [added])[|Effective(events, key)|] == added;
    forall i | 0 <= i < |more| ensures now <= more[i].now {
      assert whole[|events|] == e && whole[|events| + 1 + i] == more[i];
    }
    forall v | v in Effective(whole, key) && v.value == value ensures v == added || v in Effective(events, key) {
      NoOtherCopy(events + [e], more, key, added, v);
    }
    LifetimeInRecord(Effective(events, key), Effective(whole, key), added, t);
  }

  /** Of one value, a record holds one copy that has just been made, and others that had expired then. */
  lemma LifetimeInRecord(prior: Record, whole: Record, added: DhtValue, t: Seconds)
    requires added in whole && added.created <= t
    requires forall v :: v in whole && v.value == added.value ==> v == added || v in prior
    requires forall v :: v in prior && v.value == added.value ==> IsExpired(v, added.created)
    ensures (exists v :: v in whole && v.value == added.value && !IsExpired(v, t)) <==>
            added.ttl == 0 || t <= added.created + added.ttl < U64
  {
    assert !IsExpired(added, t) <==> added.ttl == 0 || t <= added.created + added.ttl < U64;
    forall v | v in prior && v.value == added.value ensures IsExpired(v, t) {
      assert IsExpired(v, added.created);
    }
  }

  lemma NotAfterWhole(a: seq<Event>, b: seq<Event>, now: Seconds, t: Seconds)
    requires b != [] && b[0].now == now && NotAfter(a, now) && NotAfter(b, t)
    ensures now <= t && NotAfter(a + b, t)
  {
  }

  lemma StaysInEffect(events: seq<Event>, more: seq<Event>, key: Bytes)
    requires key == [] ==> !Restarts(more)
    ensures forall v :: v in Effective(events, key) ==> v in Effective(events + more, key)
  {
    ReadBackExactly(key, key);
    OnlyExpiryRemoves(events, more, key, 0, 0);
  }

  /** A refresh in good time is lost: put for ten seconds, and again after five, a value is gone after
      eleven. */
  lemma RefreshIsLost(key: Bytes, value: Bytes)
    ensures
      value !in GetAll(Run([Event(PutOp(key, value, 10), 0), Event(PutOp(key, value, 10), 5)]), key, 11).1
  {
    hide Run, GetAll;
    var first, again := Event(PutOp(key, value, 10), 0), Event(PutOp(key, value, 10), 5);
    assert [] + [first] + [again] == [first, again] && [first] + [again] == [first, again];
    QueriesAnswerHistory([], key, 0);
    Nothing();
    LifetimeExactly([], key, value, 10, 0, [again], 11);
  }

  /** What a put changes at once: a value that was not answered comes behind those that were, unless
      the end of its lifetime does not fit. */
  lemma PutAppends(events: seq<Event>, key: Bytes, value: Bytes, ttl: Seconds, now: Seconds)
    requires Ordered(events) && NotAfter(events, now)
    ensures
      var answers := GetAll(Run(events), key, now).1;
      GetAll(Run(events + [Event(PutOp(key, value, ttl), now)]), key, now).1 ==
      if value in answers || (ttl != 0 && now + ttl >= U64) then answers else answers + [value]
  {
    hide Effective, Live, Run, GetAll, IsReadBack;
    var e, added := Event(PutOp(key, value, ttl), now), DhtValue(value, ttl, now);
    var prior, live := Effective(events, key), Expected(events, key, now);
    assert Ordered(events + [e]) && NotAfter(events + [e], now);
    QueriesAnswerHistory(events, key, now);
    QueriesAnswerHistory(events + [e], key, now);
    forall i | 0 <= i < |live| ensures Values(live)[i] == live[i].value { }
    if value in Values(live) {
      var i :| 0 <= i < |live| && Values(live)[i] == value;
      EffectiveStep(events, e, key);
    } else {
      PutTakesEffect(events, key, value, ttl, now);
      LiveAppend(prior, [added], now);
      LiveOne(added, now);
      ValuesAppend(live, added);
      assert IsExpired(added, now) <==> ttl != 0 && now + ttl >= U64;
      assert live + [] == live;
    }
  }

  lemma ValuesAppend(vs: Record, v: DhtValue)
    ensures Values(vs + [v]) == Values(vs) + [v.value]
  {
  }

  /** And a put of a value that is answered changes nothing ever: it does not even extend its life. */
  lemma RepeatedPutInvisible(events: seq<Event>, key: Bytes, value: Bytes, ttl: Seconds, now: Seconds, more: seq<Event>,
                             other: Bytes, t: Seconds)
    requires Ordered(events + [Event(PutOp(key, value, ttl), now)] + more)
    requires NotAfter(events + [Event(PutOp(key, value, ttl), now)] + more, t)
    requires value in GetAll(Run(events), key, now).1
    ensures
      GetAll(Run(events + [Event(PutOp(key, value, ttl), now)] + more), other, t).1 ==
      GetAll(Run(events + more), other, t).1
  {
    var e := Event(PutOp(key, value, ttl), now);
    assert events + [e] + more == events + ([e] + more) && ([e] + more)[0] == e;
    OrderedPrefix(events, [e] + more, now);
    QueriesAnswerHistory(events, key, now);
    EffectiveStep(events, e, other);
    hide Effective, Live, Run, GetAll;
    var live := Expected(events, key, now);
    var i :| 0 <= i < |Values(live)| && Values(live)[i] == value;
    assert live[i].value == value;
    Invisible(events, e, more, other, t);
  }

  /** Cleanup at time `t` changes no answer from then on. */
  lemma CleanupInvisible(events: seq<Event>, key: Bytes, t: Seconds, u: Seconds)
    requires Ordered(events) && NotAfter(events, t) && t <= u
    ensures GetAll(Cleaned(Run(events), t), key, u).1 == GetAll(Run(events), key, u).1
  {
    var e := Event(CleanupOp, t);
    var more := events + [e];
    assert more[..|events|] == events;
    QueriesAnswerHistory(events, key, u);
    QueriesAnswerHistory(more, key, u);
  }

  /** An expiry time that does not fit in 64 bits: the value just put is not answered. */
  lemma OverflowingPutIsLost(key: Bytes, value: Bytes, ttl: Seconds, now: Seconds)
    requires now + ttl >= U64
    ensures GetAll(Run([Event(PutOp(key, value, ttl), now)]), key, now).1 == []
  {
    hide GetAll, Run;
    var e := Event(PutOp(key, value, ttl), now);
    assert [] + [e] == [e];
    PutAppends([], key, value, ttl, now);
    QueriesAnswerHistory([], key, now);
  }

  // ----- what cleanup leaves behind --------------------------------------------------------------------

  predicate Stale(vs: Record, now: Seconds) {
    exists i :: 0 <= i < |vs| && IsExpired(vs[i], now)
  }

  lemma {:induction false} StaleIsLonger(vs: Record, now: Seconds)
    ensures !Stale(Live(vs, now), now)
    ensures Stale(vs, now) <==> |Live(vs, now)| != |vs|
  {
    forall v ensures v in Live(vs, now) ==> !IsExpired(v, now) { LiveMember(vs, now, v); }
    forall i | 0 <= i < |Live(vs, now)| ensures !IsExpired(Live(vs, now)[i], now) {
      assert Live(vs, now)[i] in Live(vs, now);
    }
    if vs != [] {
      var front, last := vs[..|vs| - 1], vs[|vs| - 1];
      StaleIsLonger(front, now);
      assert vs == front + [last];
      assert Stale(vs, now) <==> Stale(front, now) || IsExpired(last, now) by {
        if Stale(front, now) {
          var i :| 0 <= i < |front| && IsExpired(front[i], now);
          assert IsExpired(vs[i], now);
        }
        assert vs[|front|] == last;
      }
    }
  }

  /** After a cleanup nothing cached is expired. A file that is left holds expired values exactly
      if it did before while the cache, which may not know the key at all, held none of them: then
      the cleanup saw no change. */
  lemma CleanupPurgesExactly(n: Node, now: Seconds, key: Bytes)
    ensures !Stale(Lookup(Cleaned(n, now).cache, key), now)
    ensures Stale(Lookup(Cleaned(n, now).disk, key), now) <==>
      !Stale(Lookup(n.cache, key), now) && Stale(Lookup(n.disk, key), now) &&
      (key in n.cache ==> Live(n.cache[key], now) != [])
  {
    hide Live, Stale;
    StaleIsLonger(Lookup(n.cache, key), now);
    StaleIsLonger([], now);
    NothingLive(now);
  }

  /** A query of a cached key leaves expired values in its file exactly if it saw none in the cache;
      and of no other key does it change anything. */
  lemma QueryPurgesExactly(n: Node, now: Seconds, key: Bytes, other: Bytes)
    ensures
      var n' := GetAll(n, key, now).0;
      && !(key in n.cache && Stale(Lookup(n'.cache, key), now))
      && (Stale(Lookup(n'.disk, key), now) <==>
            Stale(Lookup(n.disk, key), now) && !Stale(Lookup(n.cache, key), now))
      && (other != key ==>
            Lookup(n'.cache, other) == Lookup(n.cache, other) && Lookup(n'.disk, other) == Lookup(n.disk, other))
  {
    hide Live, Stale;
    StaleIsLonger(Lookup(n.cache, key), now);
    NothingLive(now);
  }

  /** A put leaves expired values in the file of its key exactly if they were there and the value was
      answered already, or if its own lifetime does not fit; and of no other key does it change
      anything. */
  lemma PutPurgesExactly(n: Node, key: Bytes, value: Bytes, ttl: Seconds, now: Seconds, other: Bytes)
    ensures
      var n', held := Put(n, key, value, ttl, now), value in Values(Live(Lookup(n.cache, key), now));
      && (Stale(Lookup(n'.disk, key), now) <==>
            if held then Stale(Lookup(n.disk, key), now) else ttl != 0 && now + ttl >= U64)
      && (other != key ==>
            Lookup(n'.cache, other) == Lookup(n.cache, other) && Lookup(n'.disk, other) == Lookup(n.disk, other))
  {
    hide Live;
    var live, added := Live(Lookup(n.cache, key), now), DhtValue(value, ttl, now);
    forall i | 0 <= i < |live| ensures Values(live)[i] == live[i].value { }
    assert Holds(live, value) <==> value in Values(live);
    StaleIsLonger(Lookup(n.cache, key), now);
    assert (live + [added])[|live|] == added;
    assert Stale(live + [added], now) <==> IsExpired(added, now);
  }

  lemma NothingLive(now: Seconds)
    ensures Live([], now) == [] && !Stale([], now)
  {
  }

  lemma RunAppend(events: seq<Event>, e: Event)
    ensures Run(events + [e]) == Step(Run(events), e)
  {
    assert (events + [e])[..|events|] == events;
  }

  /** A put, a second put, the second put again after the first value expired: the repetition
      drops the expired value from the cache but does not write the file. */
  function Repetition(key: Bytes, a: Bytes, b: Bytes): seq<Event> {
    [Event(PutOp(key, a, 5), 0), Event(PutOp(key, b, 0), 0)] + [Event(PutOp(key, b, 0), 10)]
  }

  lemma LiveTwo(v: DhtValue, w: DhtValue, now: Seconds)
    ensures Live([v, w], now) == (if IsExpired(v, now) then [] else [v]) + (if IsExpired(w, now) then [] else [w])
  {
    LiveOne(v, now);
    assert [v, w][..1] == [v];
  }

  /** A put whose value is new or there already, as a step of a run. */
  lemma PutStep(events: seq<Event>, key: Bytes, value: Bytes, ttl: Seconds, now: Seconds, live: Record)
    requires Live(Lookup(Run(events).cache, key), now) == live
    ensures
      var n, n' := Run(events), Run(events + [Event(PutOp(key, value, ttl), now)]);
      n' == if Holds(live, value) then n.(cache := n.cache[key := live])
            else
              var record := live + [DhtValue(value, ttl, now)];
              Node(n.cache[key := record], n.disk[key := record])
  {
    hide Live, Holds;
    RunAppend(events, Event(PutOp(key, value, ttl), now));
  }

  lemma RepetitionRun(key: Bytes, a: Bytes, b: Bytes)
    requires a != b
    ensures Run(Repetition(key, a, b)) ==
      Node(map[key := [DhtValue(b, 0, 0)]], map[key := [DhtValue(a, 5, 0), DhtValue(b, 0, 0)]])
  {
    hide Run, Live;
    var first, second := DhtValue(a, 5, 0), DhtValue(b, 0, 0);
    var e1, e2 := Event(PutOp(key, a, 5), 0), Event(PutOp(key, b, 0), 0);
    Nothing();
    LiveOne(first, 0);
    LiveTwo(first, second, 10);
    PutStep([], key, a, 5, 0, []);
    assert [] + [e1] == [e1] && [] + [first] == [first];
    assert Run([e1]) == Node(map[key := [first]], map[key := [first]]);
    PutStep([e1], key, b, 0, 0, [first]);
    assert [e1] + [e2] == [e1, e2] && [first] + [second] == [first, second];
    assert Run([e1, e2]) == Node(map[key := [first, second]], map[key := [first, second]]);
    assert [second][0].value == b;
    PutStep([e1, e2], key, b, 0, 10, [second]);
  }

  lemma Nothing()
    ensures Run([]) == Node(map[], map[]) && Live([], 0) == []
  {
  }

  /** So an expired value can stay on disk through a cleanup, which reports that it removed
      nothing. */
  lemma CleanupCanLeaveExpired(key: Bytes, a: Bytes, b: Bytes)
    requires a != b
    ensures
      var n := Run(Repetition(key, a, b));
      && key in n.cache && Expired(n.cache, n.cache.Keys, 10) == {}
      && key in Cleaned(n, 10).disk && Stale(Cleaned(n, 10).disk[key], 10)
  {
    hide Run, Live;
    var first, second := DhtValue(a, 5, 0), DhtValue(b, 0, 0);
    RepetitionRun(key, a, b);
    var n := Run(Repetition(key, a, b));
    LiveOne(second, 10);
    assert IsExpired([first, second][0], 10) && !IsExpired(second, 10);
    CleanupPurgesExactly(n, 10, key);
  }

  function RunFrom(n: Node, events: seq<Event>): Node {
    if events == [] then n else Step(RunFrom(n, events[..|events| - 1]), events[|events| - 1])
  }

  predicate NoPutOf(events: seq<Event>, key: Bytes) {
    forall i :: 0 <= i < |events| ==> !(events[i].op.PutOp? && events[i].op.key == key)
  }

  lemma StaleFileStep(n: Node, e: Event, key: Bytes)
    requires key !in n.cache && key in n.disk && Live(n.disk[key], e.now) == []
    requires !(e.op.PutOp? && e.op.key == key)
    ensures key !in Step(n, e).cache && key in Step(n, e).disk && Step(n, e).disk[key] == n.disk[key]
  {
    hide Live;
  }

  /** A file whose values are all expired, of a key the cache does not hold, stays as it is through
      any queries, cleanups and restarts: only a put of its key replaces it. */
  lemma {:induction false} StaleFileStays(n: Node, events: seq<Event>, key: Bytes, t: Seconds)
    requires key !in n.cache && key in n.disk && Live(n.disk[key], t) == []
    requires NoPutOf(events, key) && forall i :: 0 <= i < |events| ==> t <= events[i].now
    ensures
      var n' := RunFrom(n, events);
      key !in n'.cache && key in n'.disk && n'.disk[key] == n.disk[key]
  {
    hide Live, Step;
    if events != [] {
      var before, e := events[..|events| - 1], events[|events| - 1];
      StaleFileStays(n, before, key, t);
      LiveTwice(n.disk[key], t, e.now);
      NothingLive(e.now);
      StaleFileStep(RunFrom(n, before), e, key);
    }
  }

  /** Such a file is what a restart leaves when all values of a key have expired: it holds the
      expired value for good, and no cleanup counts it. */
  lemma {:induction false} RestartCanLeaveExpired(key: Bytes, value: Bytes, events: seq<Event>, now: Seconds)
    requires NoPutOf(events, key) && now >= 10 && forall i :: 0 <= i < |events| ==> 10 <= events[i].now
    ensures
      var n := RunFrom(Run([Event(PutOp(key, value, 5), 0), Event(RestartOp, 10)]), events);
      && key in Cleaned(n, now).disk && Stale(Cleaned(n, now).disk[key], now)
      && forall i :: (key, i) !in Expired(n.cache, n.cache.Keys, now)
  {
    var put, restart := Event(PutOp(key, value, 5), 0), Event(RestartOp, 10);
    var v := DhtValue(value, 5, 0);
    Nothing();
    PutStep([], key, value, 5, 0, []);
    RunAppend([put], restart);
    assert [] + [put] == [put] && [put] + [restart] == [put, restart] && [] + [v] == [v];
    LiveOne(v, 10);
    var n := Run([put, restart]);
    assert key !in n.cache && key in n.disk && n.disk[key] == [v];
    StaleFileStays(n, events, key, 10);
    assert IsExpired([v][0], now);
  }
}
