/** The observed-remove set of `sync.rs`. */
module OrSet {

  /** The tags recorded for each value. */
  type Tags<!T(==)> = map<T, set<nat>>

  datatype State<!T(==)> = State(adds: Tags<T>, removes: Tags<T>)

  function TagsOf<T>(tags: Tags<T>, value: T): set<nat> {
    if value in tags then tags[value] else {}
  }

  /** `entry(value).or_default()` extended with more tags. */
  function WithTags<T>(tags: Tags<T>, value: T, more: set<nat>): Tags<T> {
    tags[value := TagsOf(tags, value) + more]
  }

  function JoinTags<T>(a: Tags<T>, b: Tags<T>): Tags<T> {
    map value | value in a.Keys + b.Keys :: TagsOf(a, value) + TagsOf(b, value)
  }

  function Empty<T(==)>(): State<T> {
    State(map[], map[])
  }

  function Add<T>(s: State<T>, value: T, tag: nat): State<T> {
    s.(adds := WithTags(s.adds, value, {tag}))
  }

  function Remove<T>(s: State<T>, value: T, tags: set<nat>): State<T> {
    if tags == {} then s else s.(removes := WithTags(s.removes, value, tags))
  }

  function Merge<T>(s: State<T>, other: State<T>): State<T> {
    State(JoinTags(s.adds, other.adds), JoinTags(s.removes, other.removes))
  }

  /** A value is in the set while some add tag of it has not been removed. */
  function Values<T>(s: State<T>): set<T> {
    set value | value in s.adds && !(s.adds[value] <= TagsOf(s.removes, value)) :: value
  }

  // ----- merging --------------------------------------------------------------------------

  lemma MergeCommutes<T>(a: State<T>, b: State<T>)
    ensures Merge(a, b) == Merge(b, a)
  {
    JoinCommutes(a.adds, b.adds);
    JoinCommutes(a.removes, b.removes);
  }

  lemma JoinCommutes<T>(a: Tags<T>, b: Tags<T>)
    ensures JoinTags(a, b) == JoinTags(b, a)
  {
    forall value | value in JoinTags(a, b) ensures JoinTags(a, b)[value] == JoinTags(b, a)[value] {
    }
  }

  lemma MergeAssociates<T>(a: State<T>, b: State<T>, c: State<T>)
    ensures Merge(Merge(a, b), c) == Merge(a, Merge(b, c))
  {
    JoinAssociates(a.adds, b.adds, c.adds);
    JoinAssociates(a.removes, b.removes, c.removes);
  }

  lemma JoinAt<T>(a: Tags<T>, b: Tags<T>, value: T)
    ensures TagsOf(JoinTags(a, b), value) == TagsOf(a, value) + TagsOf(b, value)
    ensures value in JoinTags(a, b) <==> value in a || value in b
  {
  }

  lemma JoinAssociates<T>(a: Tags<T>, b: Tags<T>, c: Tags<T>)
    ensures JoinTags(JoinTags(a, b), c) == JoinTags(a, JoinTags(b, c))
  {
    hide JoinTags;
    var left, right := JoinTags(JoinTags(a, b), c), JoinTags(a, JoinTags(b, c));
    forall value: T ensures (value in left <==> value in right) && TagsOf(left, value) == TagsOf(right, value) {
      JoinAt(a, b, value);
      JoinAt(b, c, value);
      JoinAt(JoinTags(a, b), c, value);
      JoinAt(a, JoinTags(b, c), value);
    }
    SameTags(left, right);
  }

  lemma SameTags<T>(a: Tags<T>, b: Tags<T>)
    requires forall value :: (value in a <==> value in b) && TagsOf(a, value) == TagsOf(b, value)
    ensures a == b
  {
  }

  lemma MergeIdempotent<T>(a: State<T>)
    ensures Merge(a, a) == a
  {
    JoinIdempotent(a.adds);
    JoinIdempotent(a.removes);
  }

  lemma JoinIdempotent<T>(a: Tags<T>)
    ensures JoinTags(a, a) == a
  {
    forall value | value in a ensures JoinTags(a, a)[value] == a[value] {
      assert TagsOf(a, value) + TagsOf(a, value) == a[value];
    }
  }

  // ----- replicas ---------------------------------------------------------------------------

  /** How a replica came about: adds and removes of its own, and merges with others. */
  datatype History<!T(==)> =
    | New
    | Added(before: History<T>, value: T, tag: nat)
    | Removed(before: History<T>, value: T, tags: set<nat>)
    | Merged(before: History<T>, other: History<T>)

  function StateAfter<T(==)>(h: History<T>): State<T> {
    match h
    case New => Empty()
    case Added(before, value, tag) => Add(StateAfter(before), value, tag)
    case Removed(before, value, tags) => Remove(StateAfter(before), value, tags)
    case Merged(before, other) => Merge(StateAfter(before), StateAfter(other))
  }

  /** The adds, and the removes, a replica has absorbed: its own and those it merged in. */
  function AddsIn<T(==)>(h: History<T>): set<(T, nat)> {
    match h
    case New => {}
    case Added(before, value, tag) => AddsIn(before) + {(value, tag)}
    case Removed(before, _, _) => AddsIn(before)
    case Merged(before, other) => AddsIn(before) + AddsIn(other)
  }

  function RemovesIn<T(==)>(h: History<T>): set<(T, nat)> {
    match h
    case New => {}
    case Added(before, _, _) => RemovesIn(before)
    case Removed(before, value, tags) => RemovesIn(before) + (set tag | tag in tags :: (value, tag))
    case Merged(before, other) => RemovesIn(before) + RemovesIn(other)
  }

  /** A tag map holds exactly these pairs, and no value without a tag. */
  ghost predicate Holds<T(!new)>(tags: Tags<T>, pairs: set<(T, nat)>) {
    && (forall value, tag :: (value, tag) in pairs <==> value in tags && tag in tags[value])
    && (forall value :: value in tags ==> tags[value] != {})
  }

  lemma WithTagsHolds<T(!new)>(tags: Tags<T>, pairs: set<(T, nat)>, value: T, more: set<nat>)
    requires Holds(tags, pairs) && more != {}
    ensures Holds(WithTags(tags, value, more), pairs + (set tag | tag in more :: (value, tag)))
  {
  }

  lemma JoinHolds<T(!new)>(a: Tags<T>, pa: set<(T, nat)>, b: Tags<T>, pb: set<(T, nat)>)
    requires Holds(a, pa) && Holds(b, pb)
    ensures Holds(JoinTags(a, b), pa + pb)
  {
  }

  /** A replica's state records exactly what it absorbed. */
  lemma {:induction false} StateHolds<T(!new)>(h: History<T>)
    ensures Holds(StateAfter(h).adds, AddsIn(h)) && Holds(StateAfter(h).removes, RemovesIn(h))
  {
    match h {
      case New =>
      case Added(before, value, tag) =>
        StateHolds(before);
        WithTagsHolds(StateAfter(before).adds, AddsIn(before), value, {tag});
        assert (set t | t in {tag} :: (value, t)) == {(value, tag)};
      case Removed(before, value, tags) =>
        StateHolds(before);
        if tags == {} {
          assert RemovesIn(h) == RemovesIn(before);
        } else {
          WithTagsHolds(StateAfter(before).removes, RemovesIn(before), value, tags);
        }
      case Merged(before, other) =>
        StateHolds(before);
        StateHolds(other);
        JoinHolds(StateAfter(before).adds, AddsIn(before), StateAfter(other).adds, AddsIn(other));
        JoinHolds(StateAfter(before).removes, RemovesIn(before), StateAfter(other).removes, RemovesIn(other));
    }
  }

  lemma HoldsUnique<T(!new)>(a: Tags<T>, b: Tags<T>, pairs: set<(T, nat)>)
    requires Holds(a, pairs) && Holds(b, pairs)
    ensures a == b
  {
    forall value ensures value in a ==> value in b && a[value] == b[value] {
      HoldsContained(a, b, pairs, value);
      HoldsContained(b, a, pairs, value);
    }
    forall value ensures value in b ==> value in a {
      HoldsContained(b, a, pairs, value);
    }
  }

  lemma HoldsContained<T(!new)>(a: Tags<T>, b: Tags<T>, pairs: set<(T, nat)>, value: T)
    requires Holds(a, pairs) && Holds(b, pairs)
    ensures value in a ==> value in b && a[value] <= b[value]
  {
    if value in a {
      forall tag | tag in a[value] ensures value in b && tag in b[value] {
        assert (value, tag) in pairs;
      }
    }
  }

  /** Replicas that absorbed the same adds and removes, in any order, with any duplication
      and through any pattern of merges, are in the same state and report the same values:
      those with an add that no remove has named. */
  lemma ReplicasConverge<T(!new)>(a: History<T>, b: History<T>)
    requires AddsIn(a) == AddsIn(b) && RemovesIn(a) == RemovesIn(b)
    ensures StateAfter(a) == StateAfter(b) && Values(StateAfter(a)) == Values(StateAfter(b))
  {
    StateHolds(a);
    StateHolds(b);
    HoldsUnique(StateAfter(a).adds, StateAfter(b).adds, AddsIn(a));
    HoldsUnique(StateAfter(a).removes, StateAfter(b).removes, RemovesIn(a));
  }

  lemma VisibleExactly<T(!new)>(h: History<T>, value: T)
    ensures value in Values(StateAfter(h)) <==> exists tag :: (value, tag) in AddsIn(h) && (value, tag) !in RemovesIn(h)
  {
    StateHolds(h);
    var s := StateAfter(h);
    if value in Values(s) {
      var tag :| tag in s.adds[value] && tag !in TagsOf(s.removes, value);
      assert (value, tag) in AddsIn(h) && (value, tag) !in RemovesIn(h);
    }
    if tag :| (value, tag) in AddsIn(h) && (value, tag) !in RemovesIn(h) {
      assert tag in s.adds[value] && tag !in TagsOf(s.removes, value);
    }
  }

  /** An add whose tag no remove has named stays visible through every merge. */
  lemma AddSurvivesMerge<T(!new)>(h: History<T>, other: History<T>, value: T, tag: nat)
    requires (value, tag) in AddsIn(h) && (value, tag) !in RemovesIn(h) && (value, tag) !in RemovesIn(other)
    ensures value in Values(StateAfter(Merged(h, other))) && value in Values(StateAfter(Merged(other, h)))
  {
    VisibleExactly(Merged(h, other), value);
    VisibleExactly(Merged(other, h), value);
    assert (value, tag) in AddsIn(Merged(h, other)) && (value, tag) in AddsIn(Merged(other, h));
  }

  // ----- the set, in place ---------------------------------------------------------------------

  class ORSet<T(==)> {
    var adds: Tags<T>
    var removes: Tags<T>

    ghost function Value(): State<T>
      reads this
    {
      State(adds, removes)
    }

    constructor ()
      ensures Value() == Empty()
    {
      adds, removes := map[], map[];
    }

    method Insert(value: T, tag: nat)
      modifies this
      ensures Value() == Add(old(Value()), value, tag)
    {
      adds := WithTags(adds, value, {tag});
    }

    method Delete(value: T, tags: seq<nat>)
      modifies this
      ensures Value() == Remove(old(Value()), value, set tag | tag in tags)
    {
      var named := set tag | tag in tags;
      if |tags| == 0 {
        return;
      }
      assert tags[0] in named;
      removes := WithTags(removes, value, named);
    }

    method MergeFrom(other: ORSet<T>)
      modifies this
      ensures Value() == Merge(old(Value()), old(other.Value()))
    {
      var otherAdds, otherRemoves := other.adds, other.removes;
      adds := Extend(adds, otherAdds);
      removes := Extend(removes, otherRemoves);
    }

    method CurrentValues() returns (values: set<T>)
      ensures values == Values(Value())
    {
      values := {};
      var left := adds.Keys;
      while left != {}
        invariant left <= adds.Keys
        invariant values == set value | value in adds && value !in left && !(adds[value] <= TagsOf(removes, value)) :: value
      {
        var value :| value in left;
        var tags := adds[value];
        var present := false;
        while tags != {} && !present
          invariant tags <= adds[value]
          invariant present ==> !(adds[value] <= TagsOf(removes, value))
          invariant !present ==> adds[value] - tags <= TagsOf(removes, value)
          decreases |tags|, !present
        {
          var tag :| tag in tags;
          if value !in removes || tag !in removes[value] {
            present := true;
          } else {
            tags := tags - {tag};
          }
        }
        left := left - {value};
        if present {
          values := values + {value};
        }
      }
    }
  }

  /** Joins every entry of `more` into `tags`, in any order. */
  method Extend<T(==)>(tags: Tags<T>, more: Tags<T>) returns (joined: Tags<T>)
    ensures joined == JoinTags(tags, more)
  {
    joined := tags;
    var left := more.Keys;
    while left != {}
      invariant left <= more.Keys
      invariant joined.Keys == tags.Keys + (more.Keys - left)
      invariant forall value :: value in joined ==>
        joined[value] == if value in left then TagsOf(tags, value) else TagsOf(tags, value) + TagsOf(more, value)
    {
      var value :| value in left;
      joined := WithTags(joined, value, more[value]);
      left := left - {value};
    }
  }
}
