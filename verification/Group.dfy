/** Group membership: roles, ordered updates and their replay, `group.rs`. */
module Group {
  import opened Wrappers
  import opened Bytes
  import Encoding

  const DOT: Byte := 0x2E
  const PLUS: Byte := 0x2B
  const ZERO: Byte := 0x30
  const U64_MAX: nat := 0xFFFF_FFFF_FFFF_FFFF

  datatype Role = Owner | Admin | Moderator | Member

  /** Identifiers and versions are the UTF-8 bytes of the strings the code holds. */
  datatype GroupMember = GroupMember(iid: Bytes, role: Role)

  datatype Action = AddMember | RemoveMember | PromoteAdmin | DemoteAdmin | UpdateInfo | RotateSenderKey

  datatype Update = Update(action: Action, groupId: Bytes, target: Option<Bytes>, version: Bytes, actor: Bytes)

  datatype GroupError =
    | InvalidId | ShortCreator | GroupMismatch | VersionFormat | VersionClock | VersionSuffix | VersionActor
    | ActorNotMember | RoleNotAllowed | MissingTarget

  datatype Group = Group(groupId: Bytes, version: Bytes, members: map<Bytes, GroupMember>, last: Option<Update>)

  predicate ValidId(id: Bytes) {
    id != [] && forall i :: 0 <= i < |id| ==> Encoding.IsBase32Lower(id[i] as char)
  }

  // ----- versions --------------------------------------------------------------------------

  /** `split('.')`. */
  function Parts(s: Bytes): (parts: seq<Bytes>)
    ensures |parts| >= 1
  {
    if s == [] then [[]]
    else
      var rest := Parts(s[1..]);
      if s[0] == DOT then [[]] + rest else [[s[0]] + rest[0]] + rest[1..]
  }

  function Digits(s: Bytes): Option<nat> {
    if s == [] then Some(0)
    else
      var front, last := Digits(s[..|s| - 1]), s[|s| - 1];
      if front.Some? && ZERO <= last <= ZERO + 9 then Some(10 * front.value + (last - ZERO)) else None
  }

  /** `parse::<u64>()`: decimal digits, at least one, after an optional plus sign. */
  function ParseU64(s: Bytes): Option<nat> {
    var digits := if |s| > 1 && s[0] == PLUS then s[1..] else s;
    if digits == [] then None
    else
      var value := Digits(digits);
      if value.Some? && value.value <= U64_MAX then value else None
  }

  function ParseVersion(version: Bytes): Result<(nat, Bytes), GroupError> {
    var parts := Parts(version);
    if |parts| != 2 then Failure(VersionFormat)
    else if ParseU64(parts[0]).None? then Failure(VersionClock)
    else if |parts[1]| != 8 then Failure(VersionSuffix)
    else Success((ParseU64(parts[0]).value, parts[1]))
  }

  function ValidateVersion(version: Bytes, actor: Bytes): Result<(), GroupError> {
    var parsed := ParseVersion(version);
    if parsed.Failure? then Failure(parsed.error)
    else if parsed.value.0 == 0 && !([ZERO, DOT] <= version) then Failure(VersionFormat)
    else if !(parsed.value.1 <= actor) then Failure(VersionActor)
    else Success(())
  }

  // ----- the order of updates ----------------------------------------------------------------

  datatype Ordering = Lower | Equal | Greater {
    function Then(next: Ordering): Ordering {
      if this == Equal then next else this
    }

    function Flip(): Ordering {
      match this
      case Lower => Greater
      case Equal => Equal
      case Greater => Lower
    }
  }

  function CompareNat(a: nat, b: nat): Ordering {
    if a < b then Lower else if a == b then Equal else Greater
  }

  function CompareBytes(a: Bytes, b: Bytes): Ordering {
    if Less(a, b) then Lower else if a == b then Equal else Greater
  }

  function Name(action: Action): string {
    match action
    case AddMember => "add_member"
    case RemoveMember => "remove_member"
    case PromoteAdmin => "promote_admin"
    case DemoteAdmin => "demote_admin"
    case UpdateInfo => "update_info"
    case RotateSenderKey => "rotate_sender_key"
  }

  function AsBytes(s: string): Bytes {
    seq(|s|, i requires 0 <= i < |s| => s[i] as int % 256)
  }

  function ClockOf(u: Update): nat {
    var parsed := ParseVersion(u.version);
    if parsed.Success? then parsed.value.0 else 0
  }

  function SuffixOf(u: Update): Bytes {
    var parsed := ParseVersion(u.version);
    if parsed.Success? then parsed.value.1 else []
  }

  function CompareUpdates(a: Update, b: Update): Ordering {
    CompareNat(ClockOf(a), ClockOf(b)).Then(
      CompareBytes(SuffixOf(a), SuffixOf(b)).Then(
        CompareBytes(a.actor, b.actor).Then(
          CompareBytes(AsBytes(Name(a.action)), AsBytes(Name(b.action))))))
  }

  lemma BytesCompared(a: Bytes, b: Bytes, c: Bytes)
    ensures CompareBytes(b, a) == CompareBytes(a, b).Flip()
    ensures CompareBytes(a, b) == Equal <==> a == b
    ensures CompareBytes(a, b) != Greater && CompareBytes(b, c) != Greater ==>
      CompareBytes(a, c) == CompareBytes(a, b).Then(CompareBytes(b, c))
  {
    LessTrichotomy(a, b);
    LessTrichotomy(b, c);
    if Less(a, b) {
      LessAsymmetric(a, b);
      if Less(b, c) {
        LessTransitive(a, b, c);
      }
    } else if Less(b, a) {
      LessAsymmetric(b, a);
    }
  }

  lemma NameTells(a: Action, b: Action)
    requires AsBytes(Name(a)) == AsBytes(Name(b))
    ensures a == b
  {
    assert |Name(a)| == |Name(b)|;
    assert AsBytes(Name(a))[0] == AsBytes(Name(b))[0];
  }

  /** The order is a total preorder; updates tie exactly when clock, suffix, actor and action agree. */
  lemma TotalPreorder(a: Update, b: Update, c: Update)
    ensures CompareUpdates(b, a) == CompareUpdates(a, b).Flip()
    ensures CompareUpdates(a, b) == Equal <==>
      ClockOf(a) == ClockOf(b) && SuffixOf(a) == SuffixOf(b) && a.actor == b.actor && a.action == b.action
    ensures CompareUpdates(a, b) != Greater && CompareUpdates(b, c) != Greater ==>
      CompareUpdates(a, c) == CompareUpdates(a, b).Then(CompareUpdates(b, c))
  {
    hide CompareBytes, AsBytes, Name, ClockOf, SuffixOf;
    BytesCompared(SuffixOf(a), SuffixOf(b), SuffixOf(c));
    BytesCompared(a.actor, b.actor, c.actor);
    BytesCompared(AsBytes(Name(a.action)), AsBytes(Name(b.action)), AsBytes(Name(c.action)));
    if AsBytes(Name(a.action)) == AsBytes(Name(b.action)) {
      NameTells(a.action, b.action);
    }
  }

  ghost predicate Newer(a: Update, b: Update) {
    CompareUpdates(a, b) == Greater
  }

  lemma NewerTransitive(a: Update, b: Update, c: Update)
    requires Newer(a, b) && Newer(b, c)
    ensures Newer(a, c)
  {
    hide CompareUpdates;
    TotalPreorder(b, a, a);
    TotalPreorder(c, b, a);
    TotalPreorder(a, c, c);
    TotalPreorder(c, a, a);
  }

  lemma NotNewerBack(a: Update, b: Update)
    requires a == b || Newer(b, a)
    ensures !Newer(a, b)
  {
    hide CompareUpdates;
    TotalPreorder(a, b, b);
  }

  // ----- one update --------------------------------------------------------------------------

  datatype Outcome = Applied | Stale | Refused(error: GroupError)

  function Create(groupId: Bytes, creator: Bytes): Result<Group, GroupError> {
    if !ValidId(groupId) || !ValidId(creator) then Failure(InvalidId)
    else if |creator| < 8 then Failure(ShortCreator)
    else Success(Group(groupId, [ZERO, DOT] + creator[..8], map[creator := GroupMember(creator, Owner)], None))
  }

  function RoleOf(g: Group, iid: Bytes): Option<Role> {
    if iid in g.members then Some(g.members[iid].role) else None
  }

  /** Whether the actor's role allows the action. */
  function Permission(g: Group, u: Update): Result<(), GroupError>
    requires u.actor in g.members
  {
    var role := g.members[u.actor].role;
    match u.action
    case AddMember =>
      if role == Owner || role == Admin || role == Moderator then Success(()) else Failure(RoleNotAllowed)
    case RemoveMember =>
      if u.target.None? then Failure(MissingTarget)
      else if u.target.value == u.actor then Success(())
      else if role == Owner || role == Admin then Success(())
      else if role == Moderator && RoleOf(g, u.target.value) == Some(Member) then Success(())
      else Failure(RoleNotAllowed)
    case PromoteAdmin => if role == Owner then Success(()) else Failure(RoleNotAllowed)
    case DemoteAdmin => if role == Owner then Success(()) else Failure(RoleNotAllowed)
    case UpdateInfo => if role == Owner || role == Admin then Success(()) else Failure(RoleNotAllowed)
    case RotateSenderKey => if role == Owner || role == Admin then Success(()) else Failure(RoleNotAllowed)
  }

  function WithRole(members: map<Bytes, GroupMember>, iid: Bytes, role: Role): map<Bytes, GroupMember> {
    if iid in members then members[iid := members[iid].(role := role)] else members
  }

  /** The members after a permitted action. */
  function Effect(g: Group, u: Update): Result<map<Bytes, GroupMember>, GroupError> {
    if u.action == UpdateInfo || u.action == RotateSenderKey then Success(g.members)
    else if u.target.None? then Failure(MissingTarget)
    else
      var target := u.target.value;
      if u.action == AddMember then
        if !ValidId(target) then Failure(InvalidId)
        else Success(if target in g.members then g.members else g.members[target := GroupMember(target, Member)])
      else if u.action == RemoveMember then Success(g.members - {target})
      else if u.action == PromoteAdmin then Success(WithRole(g.members, target, Admin))
      else Success(WithRole(g.members, target, Member))
  }

  function Apply(g: Group, u: Update): (Group, Outcome) {
    var version := ValidateVersion(u.version, u.actor);
    if u.groupId != g.groupId then (g, Refused(GroupMismatch))
    else if version.Failure? then (g, Refused(version.error))
    else if g.last.Some? && CompareUpdates(u, g.last.value) != Greater then (g, Stale)
    else if u.actor !in g.members then (g, Refused(ActorNotMember))
    else if Permission(g, u).Failure? then (g, Refused(Permission(g, u).error))
    else
      var members := Effect(g, u);
      if members.Failure? then (g, Refused(members.error))
      else (Group(g.groupId, u.version, members.value, Some(u)), Applied)
  }

  class GroupState {
    var groupId: Bytes
    var version: Bytes
    var members: map<Bytes, GroupMember>
    var lastUpdate: Option<Update>

    function State(): Group
      reads this
    {
      Group(groupId, version, members, lastUpdate)
    }

    constructor Empty(groupId: Bytes, version: Bytes)
      ensures State() == Group(groupId, version, map[], None)
    {
      this.groupId, this.version, members, lastUpdate := groupId, version, map[], None;
    }

    /** `GroupState::new`; a valid creator shorter than eight bytes makes the code panic. */
    static method New(groupId: Bytes, creator: Bytes) returns (r: Result<GroupState, GroupError>)
      ensures r.Failure? <==> Create(groupId, creator).Failure?
      ensures r.Failure? ==> r.error == Create(groupId, creator).error
      ensures r.Success? ==> fresh(r.value) && r.value.State() == Create(groupId, creator).value
    {
      if !ValidId(groupId) {
        return Failure(InvalidId);
      }
      if !ValidId(creator) {
        return Failure(InvalidId);
      }
      if |creator| < 8 {
        return Failure(ShortCreator);
      }
      var version := [ZERO, DOT] + creator[..8];
      var state := new GroupState.Empty(groupId, version);
      state.members := state.members[creator := GroupMember(creator, Owner)];
      r := Success(state);
    }

    method ApplyUpdate(u: Update) returns (outcome: Outcome)
      modifies this
      ensures (State(), outcome) == Apply(old(State()), u)
      ensures outcome != Applied ==> State() == old(State())
    {
      hide ValidateVersion, CompareUpdates;
      if u.groupId != groupId {
        return Refused(GroupMismatch);
      }
      var valid := ValidateVersion(u.version, u.actor);
      if valid.Failure? {
        return Refused(valid.error);
      }
      if lastUpdate.Some? && CompareUpdates(u, lastUpdate.value) != Greater {
        return Stale;
      }
      if u.actor !in members {
        return Refused(ActorNotMember);
      }
      var role := members[u.actor].role;
      var targetRole: Option<Role> := None;
      if u.target.Some? && u.target.value in members {
        targetRole := Some(members[u.target.value].role);
      }
      match u.action {
        case AddMember =>
          if role == Member {
            return Refused(RoleNotAllowed);
          }
        case RemoveMember =>
          if u.target.None? {
            return Refused(MissingTarget);
          }
          if u.target.value != u.actor {
            if role == Member || (role == Moderator && targetRole != Some(Member)) {
              return Refused(RoleNotAllowed);
            }
          }
        case PromoteAdmin =>
          if role != Owner {
            return Refused(RoleNotAllowed);
          }
        case DemoteAdmin =>
          if role != Owner {
            return Refused(RoleNotAllowed);
          }
        case UpdateInfo =>
          if role != Owner && role != Admin {
            return Refused(RoleNotAllowed);
          }
        case RotateSenderKey =>
          if role != Owner && role != Admin {
            return Refused(RoleNotAllowed);
          }
      }
      if u.action != UpdateInfo && u.action != RotateSenderKey {
        if u.target.None? {
          return Refused(MissingTarget);
        }
        var target := u.target.value;
        if u.action == AddMember {
          if !ValidId(target) {
            return Refused(InvalidId);
          }
          if target !in members {
            members := members[target := GroupMember(target, Member)];
          }
        } else if u.action == RemoveMember {
          members := members - {target};
        } else if target in members {
          members := members[target := members[target].(role := if u.action == PromoteAdmin then Admin else Member)];
        }
      }
      version := u.version;
      lastUpdate := Some(u);
      outcome := Applied;
    }
  }

  // ----- runs -------------------------------------------------------------------------------------

  function Run(g: Group, updates: seq<Update>): Group {
    if updates == [] then g else Apply(Run(g, updates[..|updates| - 1]), updates[|updates| - 1]).0
  }

  /** The updates of a run that took effect. */
  function Taken(g: Group, updates: seq<Update>): seq<Update> {
    if updates == [] then []
    else
      var before, u := updates[..|updates| - 1], updates[|updates| - 1];
      Taken(g, before) + if Apply(Run(g, before), u).1 == Applied then [u] else []
  }

  ghost predicate Increasing(updates: seq<Update>) {
    forall i, j :: 0 <= i < j < |updates| ==> Newer(updates[j], updates[i])
  }

  lemma ApplyFacts(g: Group, u: Update)
    ensures Apply(g, u).1 != Applied ==> Apply(g, u).0 == g
    ensures Apply(g, u).1 == Applied ==>
      Apply(g, u).0.last == Some(u) && u.groupId == g.groupId && ValidateVersion(u.version, u.actor).Success? &&
      u.actor in g.members && (g.last.Some? ==> Newer(u, g.last.value))
    ensures Apply(g, u).0.groupId == g.groupId
  {
    hide ValidateVersion, CompareUpdates;
  }

  lemma RunAppend(g: Group, updates: seq<Update>, u: Update)
    ensures Run(g, updates + [u]) == Apply(Run(g, updates), u).0
    ensures Taken(g, updates + [u]) == Taken(g, updates) + if Apply(Run(g, updates), u).1 == Applied then [u] else []
  {
    assert (updates + [u])[..|updates|] == updates;
  }

  /** The last update remembered is the last that took effect. */
  lemma {:induction false} Remembered(g: Group, updates: seq<Update>)
    ensures
      var t := Taken(g, updates);
      Run(g, updates).last == if t == [] then g.last else Some(t[|t| - 1])
    ensures Run(g, updates).groupId == g.groupId
  {
    hide Apply;
    if updates != [] {
      Remembered(g, updates[..|updates| - 1]);
      ApplyFacts(Run(g, updates[..|updates| - 1]), updates[|updates| - 1]);
    }
  }

  /** The version of a group is that of the last update that took effect. */
  lemma {:induction false} VersionIsLast(g: Group, updates: seq<Update>)
    ensures
      var t := Taken(g, updates);
      Run(g, updates).version == if t == [] then g.version else t[|t| - 1].version
  {
    if updates != [] {
      VersionIsLast(g, updates[..|updates| - 1]);
      VersionAfter(Run(g, updates[..|updates| - 1]), updates[|updates| - 1]);
      hide Apply;
    }
  }

  lemma VersionAfter(g: Group, u: Update)
    ensures Apply(g, u).0.version == if Apply(g, u).1 == Applied then u.version else g.version
  {
    hide ValidateVersion, CompareUpdates;
  }

  /** The updates that take effect are strictly increasing. */
  lemma {:induction false} TakenIncreasing(g: Group, updates: seq<Update>)
    ensures Increasing(Taken(g, updates))
  {
    hide Apply, Newer;
    if updates != [] {
      var before, u := updates[..|updates| - 1], updates[|updates| - 1];
      TakenIncreasing(g, before);
      Remembered(g, before);
      ApplyFacts(Run(g, before), u);
      var t := Taken(g, before);
      if Apply(Run(g, before), u).1 == Applied && t != [] {
        forall i | 0 <= i < |t| ensures Newer(u, t[i]) {
          if i < |t| - 1 {
            NewerTransitive(u, t[|t| - 1], t[i]);
          }
        }
      }
    }
  }

  /** Replaying just the updates that took effect gives the same group, and all of them take
      effect again. */
  lemma {:induction false} Replay(g: Group, updates: seq<Update>)
    ensures Run(g, Taken(g, updates)) == Run(g, updates)
    ensures Taken(g, Taken(g, updates)) == Taken(g, updates)
  {
    hide Apply;
    if updates != [] {
      var before, u := updates[..|updates| - 1], updates[|updates| - 1];
      Replay(g, before);
      ApplyFacts(Run(g, before), u);
      RunAppend(g, Taken(g, before), u);
      if Apply(Run(g, before), u).1 != Applied {
        assert Taken(g, updates) == Taken(g, before);
      }
    }
  }

  lemma {:induction false} TakenAreValid(g: Group, updates: seq<Update>, i: nat)
    requires i < |Taken(g, updates)|
    ensures
      var u := Taken(g, updates)[i];
      u.groupId == g.groupId && ValidateVersion(u.version, u.actor).Success?
  {
    hide Apply, ValidateVersion;
    var before, u := updates[..|updates| - 1], updates[|updates| - 1];
    if i < |Taken(g, before)| {
      TakenAreValid(g, before, i);
    } else {
      Remembered(g, before);
      ApplyFacts(Run(g, before), u);
    }
  }

  lemma StaleIgnored(g: Group, u: Update)
    requires u.groupId == g.groupId && ValidateVersion(u.version, u.actor).Success?
    requires g.last.Some? && !Newer(u, g.last.value)
    ensures Apply(g, u) == (g, Stale)
  {
  }

  /** Delivering again anything that took effect changes nothing and reports no error. */
  lemma RedeliveryChangesNothing(g: Group, updates: seq<Update>, u: Update)
    requires u in Taken(g, updates)
    ensures Apply(Run(g, updates), u) == (Run(g, updates), Stale)
  {
    hide Apply, Run, Taken, ValidateVersion, CompareUpdates, Newer;
    var t := Taken(g, updates);
    var i :| 0 <= i < |t| && t[i] == u;
    TakenAreValid(g, updates, i);
    TakenIncreasing(g, updates);
    Remembered(g, updates);
    NotNewerBack(u, t[|t| - 1]);
    StaleIgnored(Run(g, updates), u);
  }

  lemma RunNothing(g: Group)
    ensures Run(g, []) == g
  {
  }

  /** What arrives late is lost: after a newer update an older one has no effect, whatever it
      would have done before. */
  lemma LateUpdateLost(g: Group, early: Update, late: Update)
    requires Newer(late, early) && Apply(g, late).1 == Applied
    ensures Run(g, [late, early]) == Run(g, [late])
  {
    hide Apply, Newer, Run, Taken, ValidateVersion;
    RunNothing(g);
    var g' := Apply(g, late).0;
    RunAppend(g, [], late);
    RunAppend(g, [late], early);
    assert [] + [late] == [late] && [late] + [early] == [late, early];
    ApplyFacts(g, late);
    ApplyFacts(g', early);
    NotNewerBack(early, late);
  }

  /** So replicas that see the same updates in different orders need not agree: one of them
      misses the member whose addition came late. */
  lemma OrderMatters(g: Group, add: Update, other: Update)
    requires add.action == AddMember && other.action == RotateSenderKey && Newer(other, add)
    requires Apply(g, add).1 == Applied && Apply(Apply(g, add).0, other).1 == Applied && Apply(g, other).1 == Applied
    requires add.target.value !in g.members
    ensures add.target.value in Run(g, [add, other]).members && add.target.value !in Run(g, [other, add]).members
  {
    hide Run, Taken, ValidateVersion, CompareUpdates;
    RunNothing(g);
    LateUpdateLost(g, add, other);
    RunAppend(g, [], add);
    RunAppend(g, [], other);
    RunAppend(g, [add], other);
    assert [] + [add] == [add] && [] + [other] == [other] && [add] + [other] == [add, other];
  }

  /** Strictly increasing lists of the same updates are the same list. */
  lemma {:induction false} IncreasingUnique(a: seq<Update>, b: seq<Update>)
    requires Increasing(a) && Increasing(b) && forall u :: u in a <==> u in b
    ensures a == b
  {
    hide Newer;
    FirstIsIn(a);
    FirstIsIn(b);
    if a != [] {
      var front, front' := a[..|a| - 1], b[..|b| - 1];
      SameLast(a, b);
      FrontIncreases(a);
      FrontIncreases(b);
      hide Increasing;
      assert a == front + [a[|a| - 1]] && b == front' + [b[|b| - 1]];
      forall u ensures u in front <==> u in front' {
        NotLast(a, u);
        NotLast(b, u);
      }
      IncreasingUnique(front, front');
    }
  }

  lemma FrontIncreases(a: seq<Update>)
    requires Increasing(a) && a != []
    ensures Increasing(a[..|a| - 1])
  {
    hide Newer;
  }

  lemma FirstIsIn(a: seq<Update>)
    ensures a != [] ==> a[0] in a
  {
  }

  lemma NotLast(a: seq<Update>, u: Update)
    requires Increasing(a) && a != []
    ensures u in a[..|a| - 1] <==> u in a && u != a[|a| - 1]
  {
    hide Newer;
    if u in a[..|a| - 1] {
      var i :| 0 <= i < |a| - 1 && a[i] == u;
      if u == a[|a| - 1] {
        NotNewerBack(a[|a| - 1], a[i]);
      }
    }
  }

  lemma SameLast(a: seq<Update>, b: seq<Update>)
    requires Increasing(a) && Increasing(b) && a != [] && b != [] && forall u :: u in a <==> u in b
    ensures a[|a| - 1] == b[|b| - 1]
  {
    hide Newer;
    var x, y := a[|a| - 1], b[|b| - 1];
    assert x in b && y in a;
    var j :| 0 <= j < |b| && b[j] == x;
    var i :| 0 <= i < |a| && a[i] == y;
    if x != y {
      NotNewerBack(y, x);
    }
  }

  /** What a group becomes depends only on which updates took effect: replicas for which these are
      the same end equal, whatever else they were sent and in whatever order. */
  lemma ReplicasAgree(g: Group, a: seq<Update>, b: seq<Update>)
    requires forall u :: u in Taken(g, a) <==> u in Taken(g, b)
    ensures Run(g, a) == Run(g, b)
  {
    hide Apply, Run, Taken, Newer, Increasing;
    TakenIncreasing(g, a);
    TakenIncreasing(g, b);
    IncreasingUnique(Taken(g, a), Taken(g, b));
    Replay(g, a);
    Replay(g, b);
  }

  // ----- who may do what ----------------------------------------------------------------------------

  /** The roles an action is open to, as spec/03-messaging-sync/group-messaging.md lists them. */
  function OpenTo(action: Action): set<Role> {
    match action
    case AddMember => {Owner, Admin, Moderator}
    case RemoveMember => {Owner, Admin}
    case PromoteAdmin => {Owner}
    case DemoteAdmin => {Owner}
    case UpdateInfo => {Owner, Admin}
    case RotateSenderKey => {Owner, Admin}
  }

  /** Besides these, a member may remove itself, and a moderator may remove an ordinary member. */
  predicate MayRemove(g: Group, u: Update) {
    u.action == RemoveMember && u.target.Some? &&
    (u.target.value == u.actor ||
     (RoleOf(g, u.actor) == Some(Moderator) && RoleOf(g, u.target.value) == Some(Member)))
  }

  predicate NeedsTarget(action: Action) {
    action != UpdateInfo && action != RotateSenderKey
  }

  /** The update is for this group, carries a version its actor may use, comes from a member its
      action is open to, and names a target where one is needed, a valid one where a member is
      added. */
  predicate Entitled(g: Group, u: Update) {
    && u.groupId == g.groupId && ValidateVersion(u.version, u.actor).Success?
    && RoleOf(g, u.actor).Some? && (RoleOf(g, u.actor).value in OpenTo(u.action) || MayRemove(g, u))
    && (NeedsTarget(u.action) ==> u.target.Some?) && (u.action == AddMember ==> ValidId(u.target.value))
  }

  /** An update takes effect exactly when it is entitled to and newer than the last that did. */
  lemma AppliedExactly(g: Group, u: Update)
    ensures Apply(g, u).1 == Applied <==> Entitled(g, u) && (g.last.Some? ==> Newer(u, g.last.value))
  {
    hide ValidateVersion, CompareUpdates, ValidId;
  }

  /** An update that takes effect changes the role of its target at most: a new member joins as
      such, a member keeps its role when added again, a removed one is gone, and only members are
      promoted or demoted. */
  lemma RolesAfter(g: Group, u: Update, iid: Bytes)
    requires Apply(g, u).1 == Applied
    ensures RoleOf(Apply(g, u).0, iid) ==
      if !NeedsTarget(u.action) || u.target != Some(iid) then RoleOf(g, iid)
      else if u.action == AddMember then Some(if RoleOf(g, iid).Some? then RoleOf(g, iid).value else Member)
      else if u.action == RemoveMember || RoleOf(g, iid).None? then None
      else Some(if u.action == PromoteAdmin then Admin else Member)
  {
    hide ValidateVersion, CompareUpdates, ValidId, Permission;
  }

  /** Each update is entitled to take effect when it comes. */
  predicate EntitledInTurn(g: Group, updates: seq<Update>) {
    forall i :: 0 <= i < |updates| ==> Entitled(Run(g, updates[..i]), updates[i])
  }

  lemma InTurnAppend(g: Group, before: seq<Update>, u: Update)
    ensures EntitledInTurn(g, before + [u]) <==> EntitledInTurn(g, before) && Entitled(Run(g, before), u)
  {
    hide Entitled, Run;
    var updates := before + [u];
    forall i | 0 <= i < |before| ensures updates[..i] == before[..i] && updates[i] == before[i] { }
    assert updates[..|before|] == before && updates[|before|] == u;
  }

  lemma IncreasingAppend(before: seq<Update>, u: Update)
    ensures Increasing(before + [u]) <==>
      Increasing(before) && (before != [] ==> Newer(u, before[|before| - 1]))
  {
    hide Newer;
    var updates := before + [u];
    assert updates[|before|] == u && forall i :: 0 <= i < |before| ==> updates[i] == before[i];
    if Increasing(before) && before != [] && Newer(u, before[|before| - 1]) {
      forall i | 0 <= i < |before| ensures Newer(u, before[i]) {
        if i < |before| - 1 {
          NewerTransitive(u, before[|before| - 1], before[i]);
        }
      }
    }
  }

  lemma AllTakenAppend(g: Group, before: seq<Update>, u: Update)
    ensures Taken(g, before + [u]) == before + [u] <==>
      Taken(g, before) == before && Apply(Run(g, before), u).1 == Applied
  {
    hide Apply, Run, Taken;
    RunAppend(g, before, u);
    TakenLength(g, before);
    var taken := Taken(g, before);
    assert (taken + [u])[..|taken|] == taken && (before + [u])[..|before|] == before;
  }

  /** A replica loses none of the updates it is sent exactly when they come in strictly increasing
      order, from above the last it knows, and each is entitled to when it comes. */
  lemma {:induction false} NothingLostExactly(g: Group, updates: seq<Update>)
    ensures Taken(g, updates) == updates <==>
      && Increasing(updates)
      && (g.last.Some? && updates != [] ==> Newer(updates[0], g.last.value))
      && EntitledInTurn(g, updates)
  {
    hide Apply, Newer, Entitled, Increasing, EntitledInTurn, Taken, Run;
    if updates == [] {
      NothingSent(g);
    } else {
      var before, u := updates[..|updates| - 1], updates[|updates| - 1];
      assert updates == before + [u];
      NothingLostExactly(g, before);
      Remembered(g, before);
      AppliedExactly(Run(g, before), u);
      AllTakenAppend(g, before, u);
      InTurnAppend(g, before, u);
      IncreasingAppend(before, u);
      assert before != [] ==> updates[0] == before[0];
    }
  }

  lemma NothingSent(g: Group)
    ensures Taken(g, []) == [] && Increasing([]) && EntitledInTurn(g, [])
  {
  }

  lemma {:induction false} TakenLength(g: Group, updates: seq<Update>)
    ensures |Taken(g, updates)| <= |updates|
  {
    if updates != [] {
      TakenLength(g, updates[..|updates| - 1]);
    }
  }

  /** So replicas that lose none of the same updates end equal. */
  lemma LosslessReplicasAgree(g: Group, a: seq<Update>, b: seq<Update>)
    requires Taken(g, a) == a && Taken(g, b) == b && forall u :: u in a <==> u in b
    ensures a == b && Run(g, a) == Run(g, b)
  {
    hide Taken, Newer, Increasing;
    TakenIncreasing(g, a);
    TakenIncreasing(g, b);
    IncreasingUnique(a, b);
  }

  // ----- roles ----------------------------------------------------------------------------------------

  /** Members are filed under their own names, nobody is a moderator, and only the creator can
      be owner. */
  predicate RolesSound(g: Group, creator: Bytes) {
    forall iid :: iid in g.members ==>
      g.members[iid].iid == iid && g.members[iid].role != Moderator && (g.members[iid].role == Owner ==> iid == creator)
  }

  lemma ApplyKeepsRoles(g: Group, u: Update, creator: Bytes)
    requires RolesSound(g, creator)
    ensures RolesSound(Apply(g, u).0, creator)
  {
    hide ValidateVersion, CompareUpdates;
  }

  lemma {:induction false} EveryRunKeepsRoles(g: Group, updates: seq<Update>, creator: Bytes)
    requires RolesSound(g, creator)
    ensures RolesSound(Run(g, updates), creator)
  {
    if updates != [] {
      EveryRunKeepsRoles(g, updates[..|updates| - 1], creator);
      ApplyKeepsRoles(Run(g, updates[..|updates| - 1]), updates[|updates| - 1], creator);
    }
  }

  /** In every reachable group the only possible owner is the creator, and no one is a moderator. */
  lemma {:induction false} OnlyCreatorOwns(groupId: Bytes, creator: Bytes, updates: seq<Update>, iid: Bytes)
    requires Create(groupId, creator).Success?
    ensures
      var g := Run(Create(groupId, creator).value, updates);
      RoleOf(g, iid) != Some(Moderator) && (RoleOf(g, iid) == Some(Owner) ==> iid == creator)
  {
    EveryRunKeepsRoles(Create(groupId, creator).value, updates, creator);
  }

  /** Becoming administrator takes a promotion by an owner. */
  lemma NewAdmin(g: Group, u: Update, iid: Bytes)
    requires RoleOf(Apply(g, u).0, iid) == Some(Admin) && RoleOf(g, iid) != Some(Admin)
    ensures Apply(g, u).1 == Applied && u.action == PromoteAdmin && u.target == Some(iid)
    ensures RoleOf(g, u.actor) == Some(Owner)
  {
    hide ValidateVersion, CompareUpdates;
  }

  /** Whoever is administrator and was not one at the start was promoted, by an update that took
      effect and whose actor was owner at that moment. */
  lemma {:induction false} AdminsWerePromoted(g: Group, updates: seq<Update>, iid: Bytes) returns (i: nat)
    requires RoleOf(Run(g, updates), iid) == Some(Admin) && RoleOf(g, iid) != Some(Admin)
    ensures i < |Taken(g, updates)|
    ensures Taken(g, updates)[i].action == PromoteAdmin && Taken(g, updates)[i].target == Some(iid)
    ensures RoleOf(Run(g, Taken(g, updates)[..i]), Taken(g, updates)[i].actor) == Some(Owner)
  {
    hide Apply, RoleOf;
    var before, u := updates[..|updates| - 1], updates[|updates| - 1];
    var t := Taken(g, before);
    ApplyFacts(Run(g, before), u);
    if RoleOf(Run(g, before), iid) == Some(Admin) {
      i := AdminsWerePromoted(g, before, iid);
      assert Taken(g, updates)[..i] == t[..i];
    } else {
      NewAdmin(Run(g, before), u, iid);
      Replay(g, before);
      i := |t|;
      assert Taken(g, updates)[..i] == t;
    }
  }

  /** From the creation of a group on, that actor is the creator. */
  lemma AdminsOwedToCreator(groupId: Bytes, creator: Bytes, updates: seq<Update>, iid: Bytes) returns (i: nat)
    requires Create(groupId, creator).Success?
    requires RoleOf(Run(Create(groupId, creator).value, updates), iid) == Some(Admin)
    ensures
      var t := Taken(Create(groupId, creator).value, updates);
      i < |t| && t[i].action == PromoteAdmin && t[i].target == Some(iid) && t[i].actor == creator
  {
    var g := Create(groupId, creator).value;
    i := AdminsWerePromoted(g, updates, iid);
    OnlyCreatorOwns(groupId, creator, Taken(g, updates)[..i], Taken(g, updates)[i].actor);
  }

  predicate Ownerless(g: Group) {
    forall iid :: iid in g.members ==> g.members[iid].role != Owner
  }

  function Admins(g: Group): set<Bytes> {
    set iid | iid in g.members && g.members[iid].role == Admin
  }

  lemma OwnerlessStep(g: Group, u: Update)
    requires Ownerless(g)
    ensures Ownerless(Apply(g, u).0) && Admins(Apply(g, u).0) <= Admins(g)
  {
    hide ValidateVersion, CompareUpdates;
  }

  /** Once no owner remains there is never one again, and the administrators only get fewer. */
  lemma {:induction false} NoOwnerNoNewAdmins(g: Group, updates: seq<Update>)
    requires Ownerless(g)
    ensures Ownerless(Run(g, updates)) && Admins(Run(g, updates)) <= Admins(g)
  {
    hide Apply, Ownerless, Admins;
    if updates != [] {
      NoOwnerNoNewAdmins(g, updates[..|updates| - 1]);
      OwnerlessStep(Run(g, updates[..|updates| - 1]), updates[|updates| - 1]);
    }
  }

  // ----- the order, spelled out ----------------------------------------------------------------------------

  /** The places of the actions by their names. */
  function Rank(action: Action): nat {
    match action
    case AddMember => 0
    case DemoteAdmin => 1
    case PromoteAdmin => 2
    case RemoveMember => 3
    case RotateSenderKey => 4
    case UpdateInfo => 5
  }

  /** The higher clock decides, then the greater suffix, then the greater actor, then the action. */
  predicate Outranks(a: Update, b: Update) {
    ClockOf(a) > ClockOf(b) || (ClockOf(a) == ClockOf(b) &&
      (Less(SuffixOf(b), SuffixOf(a)) || (SuffixOf(a) == SuffixOf(b) &&
        (Less(b.actor, a.actor) || (a.actor == b.actor && Rank(a.action) > Rank(b.action))))))
  }

  lemma NameStarts(action: Action)
    ensures |AsBytes(Name(action))| > 2
    ensures AsBytes(Name(action))[0] == [0x61, 0x64, 0x70, 0x72, 0x72, 0x75][Rank(action)]
    ensures AsBytes(Name(action))[1] == [0x64, 0x65, 0x72, 0x65, 0x6F, 0x70][Rank(action)]
  {
  }

  lemma NamesInOrder(a: Action, b: Action)
    ensures Less(AsBytes(Name(a)), AsBytes(Name(b))) <==> Rank(a) < Rank(b)
  {
    NameStarts(a);
    NameStarts(b);
    var x, y := AsBytes(Name(a)), AsBytes(Name(b));
    hide Less, AsBytes, Name;
    if a == b {
      LessTrichotomy(x, y);
      NotLessItself(x);
    } else {
      var k := if x[0] != y[0] then 0 else 1;
      FirstLess(x, y, k);
    }
  }

  lemma NotLessItself(x: Bytes)
    ensures !Less(x, x)
  {
    if Less(x, x) {
      LessAsymmetric(x, x);
    }
  }

  lemma FirstLess(x: Bytes, y: Bytes, k: nat)
    requires k < |x| && k < |y| && x[..k] == y[..k] && x[k] != y[k]
    ensures Less(x, y) <==> x[k] < y[k]
  {
    LessExactly(x, y);
    LessExactly(y, x);
    if x[k] < y[k] {
      assert FirstDifference(x, y, k);
    } else {
      assert FirstDifference(y, x, k);
      LessAsymmetric(y, x);
    }
  }

  lemma NewerExactly(a: Update, b: Update)
    ensures Newer(a, b) <==> Outranks(a, b)
  {
    hide CompareBytes, AsBytes, Name, ClockOf, SuffixOf, Less, Rank;
    CompareGreater(SuffixOf(a), SuffixOf(b));
    CompareGreater(a.actor, b.actor);
    CompareGreater(AsBytes(Name(a.action)), AsBytes(Name(b.action)));
    NamesInOrder(b.action, a.action);
  }

  lemma CompareGreater(a: Bytes, b: Bytes)
    ensures CompareBytes(a, b) == Greater <==> Less(b, a)
    ensures CompareBytes(a, b) == Equal <==> a == b
  {
    BytesCompared(a, b, b);
    LessTrichotomy(a, b);
    if Less(a, b) {
      LessAsymmetric(a, b);
    }
  }

  /** In every run the clocks of the updates that take effect never fall, and of equal clocks the
      greater suffix comes later. */
  lemma ClocksNeverFall(g: Group, updates: seq<Update>, i: nat, j: nat)
    requires i < j < |Taken(g, updates)|
    ensures
      var a, b := Taken(g, updates)[i], Taken(g, updates)[j];
      ClockOf(a) < ClockOf(b) || (ClockOf(a) == ClockOf(b) && !Less(SuffixOf(b), SuffixOf(a)))
  {
    hide Taken, Newer, ClockOf, SuffixOf, Less;
    TakenIncreasing(g, updates);
    var a, b := Taken(g, updates)[i], Taken(g, updates)[j];
    NewerExactly(b, a);
    if Less(SuffixOf(b), SuffixOf(a)) {
      NotBoth(SuffixOf(b), SuffixOf(a));
    }
  }

  lemma NotBoth(a: Bytes, b: Bytes)
    requires Less(a, b)
    ensures !Less(b, a) && a != b
  {
    LessAsymmetric(a, b);
    if a == b {
      LessAsymmetric(a, b);
    }
  }

  /** And an entitled update with a higher clock than any before takes effect. */
  lemma HigherClockTakesEffect(g: Group, u: Update)
    requires Entitled(g, u) && (g.last.Some? ==> ClockOf(u) > ClockOf(g.last.value))
    ensures Apply(g, u).1 == Applied
  {
    hide Entitled, Apply, Newer;
    AppliedExactly(g, u);
    if g.last.Some? {
      NewerExactly(u, g.last.value);
    }
  }

  // ----- versions read back --------------------------------------------------------------------------------

  lemma {:induction false} PartsAround(a: Bytes, b: Bytes)
    requires DOT !in a && DOT !in b
    ensures Parts(b) == [b] && Parts(a + [DOT] + b) == [a, b]
  {
    if a != [] {
      PartsAround(a[1..], b);
      assert (a + [DOT] + b)[1..] == a[1..] + [DOT] + b;
      assert [a[0]] + a[1..] == a;
    } else if b != [] {
      PartsAround([], b[1..]);
      assert [b[0]] + b[1..] == b;
      assert (a + [DOT] + b)[1..] == b;
    } else {
      assert (a + [DOT] + b)[1..] == b;
    }
  }

  /** A version made of a clock and a suffix is read back as just these. */
  lemma VersionRoundTrips(clock: Bytes, suffix: Bytes)
    requires DOT !in clock && DOT !in suffix && |suffix| == 8
    ensures
      ParseVersion(clock + [DOT] + suffix) ==
      if ParseU64(clock).Some? then Success((ParseU64(clock).value, suffix)) else Failure(VersionClock)
  {
    PartsAround(clock, suffix);
  }

  /** A number in decimal digits, without leading zeros. */
  function Decimal(n: nat): (s: Bytes)
    ensures s != []
  {
    if n < 10 then [ZERO + n] else Decimal(n / 10) + [ZERO + n % 10]
  }

  lemma {:induction false} DecimalDigits(n: nat)
    ensures Digits(Decimal(n)) == Some(n) && DOT !in Decimal(n) && Decimal(n)[0] != PLUS
  {
    if n < 10 {
      assert Decimal(n)[..0] == [];
      assert Digits([]) == Some(0);
    } else {
      DecimalDigits(n / 10);
      assert Decimal(n)[..|Decimal(n)| - 1] == Decimal(n / 10);
    }
  }

  /** A number written in decimal is read back as that clock, if it fits 64 bits. */
  lemma DecimalVersion(n: nat, suffix: Bytes)
    requires DOT !in suffix && |suffix| == 8
    ensures ParseVersion(Decimal(n) + [DOT] + suffix) ==
            if n <= U64_MAX then Success((n, suffix)) else Failure(VersionClock)
  {
    hide Decimal, Digits;
    DecimalDigits(n);
    VersionRoundTrips(Decimal(n), suffix);
  }

  lemma {:induction false} PartsShape(s: Bytes)
    ensures |Parts(s)| == 1 ==> Parts(s) == [s] && DOT !in s
    ensures |Parts(s)| == 2 ==> IsVersion(s, Parts(s)[0], Parts(s)[1])
  {
    if s != [] {
      var rest := Parts(s[1..]);
      assert s == [s[0]] + s[1..];
      assert Parts(s) == if s[0] == DOT then [[]] + rest else [[s[0]] + rest[0]] + rest[1..];
      PartsShape(s[1..]);
      hide Parts;
      if s[0] == DOT {
        assert s == [] + [DOT] + s[1..];
      } else if |rest| == 2 {
        assert [s[0]] + (rest[0] + [DOT] + rest[1]) == [s[0]] + rest[0] + [DOT] + rest[1];
      }
    }
  }

  /** A clock and a suffix with one dot between them. */
  predicate IsVersion(version: Bytes, clock: Bytes, suffix: Bytes) {
    version == clock + [DOT] + suffix && DOT !in clock && DOT !in suffix
  }

  /** The first eight bytes of the actor behind a clock that is a 64-bit number, and which is spelled
      "0" if it is zero. */
  predicate ActorsVersion(clock: Bytes, suffix: Bytes, actor: Bytes) {
    && ParseU64(clock).Some? && (ParseU64(clock).value == 0 ==> clock == [ZERO])
    && |suffix| == 8 && suffix <= actor
  }

  /** These and no others are the versions an actor may use. */
  lemma ValidVersionExactly(version: Bytes, actor: Bytes)
    ensures ValidateVersion(version, actor).Success? <==>
      exists clock, suffix :: IsVersion(version, clock, suffix) && ActorsVersion(clock, suffix, actor)
  {
    hide ParseU64, Parts;
    PartsShape(version);
    if ValidateVersion(version, actor).Success? {
      var clock, suffix := Parts(version)[0], Parts(version)[1];
      ZeroClock(version, clock, suffix);
      assert IsVersion(version, clock, suffix) && ActorsVersion(clock, suffix, actor);
    }
    if clock, suffix :| IsVersion(version, clock, suffix) && ActorsVersion(clock, suffix, actor) {
      VersionRoundTrips(clock, suffix);
      ZeroClock(version, clock, suffix);
    }
  }

  lemma ZeroClock(version: Bytes, clock: Bytes, suffix: Bytes)
    requires IsVersion(version, clock, suffix)
    ensures [ZERO, DOT] <= version <==> clock == [ZERO]
  {
    assert forall k :: 0 <= k < |clock| ==> version[k] == clock[k];
    assert version[|clock|] == DOT;
    if [ZERO, DOT] <= version {
      assert version[0] == ZERO && version[1] == DOT;
    }
  }

  /** The version a group starts with is one its creator may use. */
  lemma FirstVersionValid(groupId: Bytes, creator: Bytes)
    requires Create(groupId, creator).Success?
    ensures ValidateVersion(Create(groupId, creator).value.version, creator).Success?
  {
    var suffix := creator[..8];
    assert DOT !in suffix by {
      forall i | 0 <= i < 8 ensures suffix[i] != DOT { assert suffix[i] == creator[i]; }
    }
    VersionRoundTrips([ZERO], suffix);
    assert Digits([ZERO]) == Some(0) by { assert [ZERO][..0] == []; }
    assert ParseU64([ZERO]) == Some(0);
    assert creator[..8] <= creator;
    assert [ZERO] + [DOT] + suffix == [ZERO, DOT] + suffix;
  }

  // ----- two replicas that part ----------------------------------------------------------------------------

  const ONE: Byte := 0x31
  const TWO: Byte := 0x32

  function AddFirst(groupId: Bytes, creator: Bytes, target: Bytes): Update
    requires |creator| >= 8
  {
    Update(AddMember, groupId, Some(target), [ONE] + [DOT] + creator[..8], creator)
  }

  function RotateSecond(groupId: Bytes, creator: Bytes): Update
    requires |creator| >= 8
  {
    Update(RotateSenderKey, groupId, None, [TWO] + [DOT] + creator[..8], creator)
  }

  lemma OneDigit(digit: Byte)
    requires ZERO < digit <= ZERO + 9
    ensures ParseU64([digit]) == Some((digit - ZERO) as nat)
  {
    assert Digits([digit]) == Some((digit - ZERO) as nat) by { assert [digit][..0] == []; }
  }

  lemma CreatorsVersion(digit: Byte, creator: Bytes)
    requires ZERO < digit <= ZERO + 9 && ValidId(creator) && |creator| >= 8
    ensures
      var version := [digit] + [DOT] + creator[..8];
      ParseVersion(version) == Success(((digit - ZERO) as nat, creator[..8])) &&
      ValidateVersion(version, creator).Success?
  {
    var suffix := creator[..8];
    assert DOT !in suffix by {
      forall i | 0 <= i < 8 ensures suffix[i] != DOT { assert suffix[i] == creator[i]; }
    }
    OneDigit(digit);
    VersionRoundTrips([digit], suffix);
    assert suffix <= creator;
  }

  /** In every group that can be created, and for every new member, two updates of its creator end
      differently at two replicas that get them in different orders. */
  lemma ReplicasPart(groupId: Bytes, creator: Bytes, target: Bytes)
    requires Create(groupId, creator).Success? && ValidId(target) && target != creator
    ensures
      var g := Create(groupId, creator).value;
      var add, other := AddFirst(groupId, creator, target), RotateSecond(groupId, creator);
      target in Run(g, [add, other]).members && target !in Run(g, [other, add]).members
  {
    var g := Create(groupId, creator).value;
    var add, other := AddFirst(groupId, creator, target), RotateSecond(groupId, creator);
    CreatorsVersion(ONE, creator);
    CreatorsVersion(TWO, creator);
    assert Newer(other, add);
    hide ValidateVersion, ParseVersion, CompareUpdates, ValidId, Run;
    AppliedExactly(g, add);
    AppliedExactly(g, other);
    AppliedExactly(Apply(g, add).0, other);
    OrderMatters(g, add, other);
  }
}
