/** The per-application, per-domain request limits of `network.rs`: fixed windows of a minute
    and of a day. */
module RateLimiter {
  import opened Wrappers

  // Instants and durations, in nanoseconds of the monotonic clock.
  const SECOND: nat := 1_000_000_000
  const MINUTE: nat := 60 * SECOND
  const DAY: nat := 60 * 60 * 24 * SECOND

  const REQUESTS_PER_MINUTE: nat := 100
  const REQUESTS_PER_DAY: nat := 10_000
  const BYTES_PER_DAY: nat := 100 * 1024 * 1024
  const U64_MAX: nat := 0xFFFF_FFFF_FFFF_FFFF

  datatype Limits = Limits(requestsPerMinute: nat, requestsPerDay: nat, bytesPerDay: nat)

  datatype Override = Override(requestsPerMinute: Option<nat>, requestsPerDay: Option<nat>)

  datatype Bucket = Bucket(minuteStart: nat, dayStart: nat, minuteCount: nat, dayCount: nat, dayBytes: nat)

  type Pair = (string, string)

  /** The clock readings of one call, in the order it takes them. */
  datatype Clock = Clock(created: nat, minuteCheck: nat, minuteReset: nat, dayCheck: nat, dayReset: nat) {
    predicate Ordered() {
      created <= minuteCheck <= minuteReset <= dayCheck <= dayReset
    }
  }

  function Min(a: nat, b: nat): nat {
    if b < a then b else a
  }

  function SaturatingAdd(a: nat, b: nat): nat {
    Min(a + b, U64_MAX)
  }

  // ----- the limiter, on values -----------------------------------------------------------------

  datatype Manager = Manager(buckets: map<Pair, Bucket>, overrides: map<string, map<string, Override>>)

  function Lowered(limit: nat, value: Option<nat>): nat {
    if value.Some? then Min(limit, value.value) else limit
  }

  function EffectiveLimits(overrides: map<string, map<string, Override>>, app: string, domain: string): Limits {
    var limits := Limits(REQUESTS_PER_MINUTE, REQUESTS_PER_DAY, BYTES_PER_DAY);
    if app in overrides && domain in overrides[app] then
      var o := overrides[app][domain];
      limits.(
      requestsPerMinute := Lowered(limits.requestsPerMinute, o.requestsPerMinute),
      requestsPerDay := Lowered(limits.requestsPerDay, o.requestsPerDay))
    else limits
  }

  function NewBucket(now: nat): Bucket {
    Bucket(now, now, 0, 0, 0)
  }

  function Rollover(b: Bucket, c: Clock): Bucket {
    var minute :=
      if c.minuteCheck - b.minuteStart >= MINUTE then b.(minuteStart := c.minuteReset, minuteCount := 0) else b;
    if c.dayCheck - b.dayStart >= DAY then minute.(dayStart := c.dayReset, dayCount := 0, dayBytes := 0) else minute
  }

  predicate Admits(b: Bucket, bytes: nat, limits: Limits) {
    b.minuteCount < limits.requestsPerMinute && b.dayCount < limits.requestsPerDay &&
    SaturatingAdd(b.dayBytes, bytes) <= limits.bytesPerDay
  }

  function Charged(b: Bucket, bytes: nat): Bucket {
    b.(minuteCount := b.minuteCount + 1, dayCount := b.dayCount + 1, dayBytes := SaturatingAdd(b.dayBytes, bytes))
  }

  /** The bucket a call finds, created if need be. */
  function Found(m: Manager, pair: Pair, c: Clock): Bucket {
    if pair in m.buckets then m.buckets[pair] else NewBucket(c.created)
  }

  /** The bucket a call works on, rolled over. */
  function Current(m: Manager, pair: Pair, c: Clock): Bucket {
    Rollover(Found(m, pair, c), c)
  }

  function Check(m: Manager, pair: Pair, bytes: nat, c: Clock): (Manager, bool) {
    var b := Current(m, pair, c);
    if Admits(b, bytes, EffectiveLimits(m.overrides, pair.0, pair.1))
    then (m.(buckets := m.buckets[pair := Charged(b, bytes)]), true)
    else (m.(buckets := m.buckets[pair := b]), false)
  }

  function Respond(m: Manager, pair: Pair, bytes: nat, c: Clock): (Manager, bool) {
    var b := Current(m, pair, c);
    if SaturatingAdd(b.dayBytes, bytes) <= EffectiveLimits(m.overrides, pair.0, pair.1).bytesPerDay
    then (m.(buckets := m.buckets[pair := b.(dayBytes := SaturatingAdd(b.dayBytes, bytes))]), true)
    else (m.(buckets := m.buckets[pair := b]), false)
  }

  function SetLimits(m: Manager, app: string, limits: map<string, Override>): Manager {
    m.(overrides := m.overrides[app := limits])
  }

  // ----- the limiter, in place -------------------------------------------------------------------

  class NetworkManager {
    var buckets: map<Pair, Bucket>
    var overrides: map<string, map<string, Override>>

    function State(): Manager
      reads this
    {
      Manager(buckets, overrides)
    }

    constructor ()
      ensures State() == Manager(map[], map[])
    {
      buckets, overrides := map[], map[];
    }

    method SetAppLimits(app: string, limits: map<string, Override>)
      modifies this
      ensures State() == SetLimits(old(State()), app, limits)
    {
      overrides := overrides[app := limits];
    }

    method EnsureRolled(pair: Pair, c: Clock)
      modifies `buckets
      ensures pair in buckets && buckets == old(buckets)[pair := Current(old(State()), pair, c)]
    {
      if pair !in buckets {
        buckets := buckets[pair := NewBucket(c.created)];
      }
      if c.minuteCheck - buckets[pair].minuteStart >= MINUTE {
        buckets := buckets[pair := buckets[pair].(minuteStart := c.minuteReset, minuteCount := 0)];
      }
      if c.dayCheck - buckets[pair].dayStart >= DAY {
        buckets := buckets[pair := buckets[pair].(dayStart := c.dayReset, dayCount := 0, dayBytes := 0)];
      }
    }

    method CheckRequest(pair: Pair, bytes: nat, c: Clock) returns (ok: bool)
      modifies `buckets
      ensures (State(), ok) == Check(old(State()), pair, bytes, c)
    {
      var limits := EffectiveLimits(overrides, pair.0, pair.1);
      EnsureRolled(pair, c);
      var b := buckets[pair];
      if b.minuteCount >= limits.requestsPerMinute || b.dayCount >= limits.requestsPerDay ||
         SaturatingAdd(b.dayBytes, bytes) > limits.bytesPerDay
      {
        return false;
      }
      b := b.(minuteCount := b.minuteCount + 1);
      b := b.(dayCount := b.dayCount + 1);
      b := b.(dayBytes := SaturatingAdd(b.dayBytes, bytes));
      buckets := buckets[pair := b];
      assert buckets == old(buckets)[pair := b];
      ok := true;
    }

    method RecordResponse(pair: Pair, bytes: nat, c: Clock) returns (ok: bool)
      modifies `buckets
      ensures (State(), ok) == Respond(old(State()), pair, bytes, c)
    {
      var limits := EffectiveLimits(overrides, pair.0, pair.1);
      EnsureRolled(pair, c);
      var b := buckets[pair];
      if SaturatingAdd(b.dayBytes, bytes) > limits.bytesPerDay {
        return false;
      }
      b := b.(dayBytes := SaturatingAdd(b.dayBytes, bytes));
      buckets := buckets[pair := b];
      assert buckets == old(buckets)[pair := b];
      ok := true;
    }
  }

  // ----- logs of what was accepted, and fixed windows over them -------------------------------------

  datatype Entry = Entry(time: nat, weight: nat)

  type Log = seq<Entry>

  function Sum(log: Log): nat {
    if log == [] then 0 else Sum(log[..|log| - 1]) + log[|log| - 1].weight
  }

  /** The weight accepted in the half-open span of the given length from `x` on. */
  function SumIn(log: Log, x: int, length: nat): nat {
    if log == [] then 0
    else
      var last := log[|log| - 1];
      SumIn(log[..|log| - 1], x, length) + if x <= last.time < x + length then last.weight else 0
  }

  lemma {:induction false} SumInAppend(a: Log, b: Log, x: int, length: nat)
    ensures SumIn(a + b, x, length) == SumIn(a, x, length) + SumIn(b, x, length)
  {
    if b == [] {
      assert a + b == a;
    } else {
      SumInAppend(a, b[..|b| - 1], x, length);
      assert (a + b)[..|a + b| - 1] == a + b[..|b| - 1];
    }
  }

  lemma {:induction false} SumInBelow(log: Log, x: int, length: nat)
    ensures SumIn(log, x, length) <= Sum(log)
  {
    if log != [] {
      SumInBelow(log[..|log| - 1], x, length);
    }
  }

  predicate AllBetween(log: Log, x: int, y: int) {
    forall i :: 0 <= i < |log| ==> x <= log[i].time < y
  }

  lemma {:induction false} SumOutside(log: Log, lo: int, hi: int, x: int, length: nat)
    requires AllBetween(log, lo, hi) && (hi <= x || x + length <= lo)
    ensures SumIn(log, x, length) == 0
  {
    if log != [] {
      SumOutside(log[..|log| - 1], lo, hi, x, length);
    }
  }

  lemma {:induction false} SumInside(log: Log, x: int, length: nat)
    requires AllBetween(log, x, x + length)
    ensures SumIn(log, x, length) == Sum(log)
  {
    if log != [] {
      SumInside(log[..|log| - 1], x, length);
    }
  }

  /** A fixed window: since when, and how much of it is used. */
  datatype Window = Window(start: nat, used: nat)

  /** The log split at the current window, the reading that opened this window, and the readings
      that opened windows so far. */
  datatype Track = Track(past: Log, current: Log, since: nat, openings: set<nat>)

  /** No window opens inside the span. */
  ghost predicate Quiet(openings: set<nat>, x: int, length: nat) {
    forall s :: s in openings ==> s <= x || x + length <= s
  }

  /** The counter is the weight accepted in the current window; and of one span of a window's
      length, the current window holds at most `cap`, the windows before it hold at most `cap` as
      long as the span goes on or when no window opens inside it, and never more than twice that. */
  ghost predicate Tracks(w: Window, k: Track, length: nat, x: int, cap: nat) {
    w.used == Sum(k.current) && k.since <= w.start &&
    k.since in k.openings && (forall s :: s in k.openings ==> s <= k.since) &&
    AllBetween(k.past, 0, k.since) && AllBetween(k.current, k.since, w.start + length) &&
    SumIn(k.current, x, length) <= cap &&
    SumIn(k.past, x, length) <= if k.since < x + length || Quiet(k.openings, x, length) then cap else 2 * cap
  }

  function Whole(k: Track): Log {
    k.past + k.current
  }

  function RolledWindow(w: Window, check: nat, reset: nat, length: nat): Window {
    if check - w.start >= length then Window(reset, 0) else w
  }

  function RolledTrack(w: Window, k: Track, check: nat, length: nat): Track {
    if check - w.start >= length then Track(Whole(k), [], check, k.openings + {check}) else k
  }

  /** Two windows' worth bounds a span, one if no window opens inside it. */
  lemma SpanBounded(w: Window, k: Track, length: nat, x: int, cap: nat)
    requires Tracks(w, k, length, x, cap)
    ensures SumIn(Whole(k), x, length) <= if Quiet(k.openings, x, length) then cap else 2 * cap
  {
    hide SumIn;
    SumInAppend(k.past, k.current, x, length);
    if k.since >= x + length {
      SumOutside(k.current, k.since, w.start + length, x, length);
    } else if Quiet(k.openings, x, length) {
      SumOutside(k.past, 0, k.since, x, length);
    }
  }

  lemma RollTracks(w: Window, k: Track, check: nat, reset: nat, length: nat, x: int, cap: nat)
    requires Tracks(w, k, length, x, cap) && w.start <= check <= reset
    ensures Tracks(RolledWindow(w, check, reset, length), RolledTrack(w, k, check, length), length, x, cap)
  {
    if check - w.start >= length {
      hide SumIn;
      NothingSummed(x, length);
      SpanBounded(w, k, length, x, cap);
      if check < x + length {
        SumInAppend(k.past, k.current, x, length);
        SumOutside(k.past, 0, k.since, x, length);
      } else if Quiet(k.openings + {check}, x, length) {
        assert Quiet(k.openings, x, length);
      }
    }
  }

  lemma NothingSummed(x: int, length: nat)
    ensures SumIn([], x, length) == 0
  {
  }

  lemma TakeTracks(w: Window, k: Track, length: nat, x: int, cap: nat, e: Entry)
    requires Tracks(w, k, length, x, cap) && k.since <= e.time < w.start + length
    requires x <= e.time < x + length ==> w.used + e.weight <= cap
    ensures Tracks(Window(w.start, w.used + e.weight), Taken(k, e), length, x, cap)
  {
    var more := k.current + [e];
    assert more[..|k.current|] == k.current;
    assert SumIn(more, x, length) == SumIn(k.current, x, length) + if x <= e.time < x + length then e.weight else 0;
    assert Sum(more) == w.used + e.weight;
    SumInBelow(more, x, length);
  }

  function Taken(k: Track, e: Entry): Track {
    k.(current := k.current + [e])
  }

  lemma TakenWhole(k: Track, e: Entry)
    ensures Whole(Taken(k, e)) == Whole(k) + [e]
  {
  }

  /** The counter is exactly what was accepted from the opening of the window on. */
  lemma WindowCounted(w: Window, k: Track, length: nat, x: int, cap: nat)
    requires Tracks(w, k, length, x, cap)
    ensures k.since <= w.start && w.used == SumIn(Whole(k), k.since, w.start + length - k.since)
  {
    hide SumIn, Sum;
    var span := w.start + length - k.since;
    SumInAppend(k.past, k.current, k.since, span);
    SumOutside(k.past, 0, k.since, k.since, span);
    SumInside(k.current, k.since, span);
  }

  // ----- runs -----------------------------------------------------------------------------------------

  datatype Call =
    | CheckCall(pair: Pair, bytes: nat)
    | ResponseCall(pair: Pair, bytes: nat)
    | LimitsCall(app: string, limits: map<string, Override>)

  datatype Event = Event(call: Call, clock: Clock)

  function Step(m: Manager, e: Event): (Manager, bool) {
    match e.call
    case CheckCall(pair, bytes) => Check(m, pair, bytes, e.clock)
    case ResponseCall(pair, bytes) => Respond(m, pair, bytes, e.clock)
    case LimitsCall(app, limits) => (SetLimits(m, app, limits), true)
  }

  function Run(events: seq<Event>): Manager {
    if events == [] then Manager(map[], map[]) else Step(Run(events[..|events| - 1]), events[|events| - 1]).0
  }

  /** Readings of the clock never decrease, within a call or from call to call. */
  predicate Monotone(events: seq<Event>) {
    (forall i :: 0 <= i < |events| ==> events[i].clock.Ordered()) &&
    (forall i, j :: 0 <= i < j < |events| ==> events[i].clock.dayReset <= events[j].clock.created)
  }

  function Now(events: seq<Event>): nat {
    if events == [] then 0 else events[|events| - 1].clock.dayReset
  }

  /** Whether the last call of a run was accepted for a pair. */
  predicate Accepted(events: seq<Event>, pair: Pair)
    requires events != []
  {
    var last := events[|events| - 1];
    !last.call.LimitsCall? && last.call.pair == pair && Step(Run(events[..|events| - 1]), last).1
  }

  /** Accepted requests, at the reading that placed them in a minute. */
  function MinuteLog(events: seq<Event>, pair: Pair): Log {
    if events == [] then []
    else
      var before, last := MinuteLog(events[..|events| - 1], pair), events[|events| - 1];
      if last.call.CheckCall? && Accepted(events, pair) then before + [Entry(last.clock.minuteCheck, 1)] else before
  }

  /** Accepted requests, at the reading that placed them in a day. */
  function DayLog(events: seq<Event>, pair: Pair): Log {
    if events == [] then []
    else
      var before, last := DayLog(events[..|events| - 1], pair), events[|events| - 1];
      if last.call.CheckCall? && Accepted(events, pair) then before + [Entry(last.clock.dayCheck, 1)] else before
  }

  /** Bytes of accepted requests and responses. */
  function ByteLog(events: seq<Event>, pair: Pair): Log {
    if events == [] then []
    else
      var before, last := ByteLog(events[..|events| - 1], pair), events[|events| - 1];
      if Accepted(events, pair) then before + [Entry(last.clock.dayCheck, last.call.bytes)] else before
  }

  /** The readings that open a minute: of a call that creates the bucket, and of one that finds
      the minute over. */
  function MinuteOpened(m: Manager, pair: Pair, c: Clock): set<nat> {
    (if pair in m.buckets then {} else {c.created}) +
    (if c.minuteCheck - Found(m, pair, c).minuteStart >= MINUTE then {c.minuteCheck} else {})
  }

  function DayOpened(m: Manager, pair: Pair, c: Clock): set<nat> {
    (if pair in m.buckets then {} else {c.created}) +
    (if c.dayCheck - Found(m, pair, c).dayStart >= DAY then {c.dayCheck} else {})
  }

  predicate Concerns(e: Event, pair: Pair) {
    !e.call.LimitsCall? && e.call.pair == pair
  }

  /** When a pair's minutes began in a run. */
  function MinuteOpenings(events: seq<Event>, pair: Pair): set<nat> {
    if events == [] then {}
    else
      var before, last := events[..|events| - 1], events[|events| - 1];
      MinuteOpenings(before, pair) +
      if Concerns(last, pair) then MinuteOpened(Run(before), pair, last.clock) else {}
  }

  function DayOpenings(events: seq<Event>, pair: Pair): set<nat> {
    if events == [] then {}
    else
      var before, last := events[..|events| - 1], events[|events| - 1];
      DayOpenings(before, pair) + if Concerns(last, pair) then DayOpened(Run(before), pair, last.clock) else {}
  }

  datatype Logs = Logs(minute: Log, day: Log, bytes: Log, minutes: set<nat>, days: set<nat>)

  const NO_LOGS := Logs([], [], [], {}, {})

  function LogsOf(events: seq<Event>, pair: Pair): Logs {
    Logs(MinuteLog(events, pair), DayLog(events, pair), ByteLog(events, pair),
         MinuteOpenings(events, pair), DayOpenings(events, pair))
  }

  function Opened(m: Manager, logs: Logs, pair: Pair, c: Clock): Logs {
    logs.(minutes := logs.minutes + MinuteOpened(m, pair, c), days := logs.days + DayOpened(m, pair, c))
  }

  function Requested(logs: Logs, bytes: nat, c: Clock): Logs {
    logs.(minute := logs.minute + [Entry(c.minuteCheck, 1)], day := logs.day + [Entry(c.dayCheck, 1)],
    bytes := logs.bytes + [Entry(c.dayCheck, bytes)])
  }

  function Responded(logs: Logs, bytes: nat, c: Clock): Logs {
    logs.(bytes := logs.bytes + [Entry(c.dayCheck, bytes)])
  }

  /** What a call adds to the logs of a pair. */
  lemma StepLogs(before: seq<Event>, e: Event, pair: Pair)
    ensures Run(before + [e]) == Step(Run(before), e).0 && Now(before + [e]) == e.clock.dayReset
    ensures
      var logs, ok := LogsOf(before, pair), Step(Run(before), e).1;
      var begun := Opened(Run(before), logs, pair, e.clock);
      LogsOf(before + [e], pair) ==
        if !Concerns(e, pair) then logs
        else if !ok then begun
        else if e.call.CheckCall? then Requested(begun, e.call.bytes, e.clock)
        else Responded(begun, e.call.bytes, e.clock)
  {
    assert (before + [e])[..|before|] == before;
  }

  /** What an override says about a pair, if there is one. */
  function OverrideOf(overrides: map<string, map<string, Override>>, app: string, domain: string): Override {
    if app in overrides && domain in overrides[app] then overrides[app][domain] else Override(None, None)
  }

  predicate Allows(limit: Option<nat>, n: nat) {
    limit.Some? ==> n < limit.value
  }

  /** A count is below an effective limit exactly when it is below the default and below the
      override: overrides only lower the limits, and none touches the bytes. */
  lemma LimitsExact(overrides: map<string, map<string, Override>>, app: string, domain: string, n: nat)
    ensures
      var l, o := EffectiveLimits(overrides, app, domain), OverrideOf(overrides, app, domain);
      && (n < l.requestsPerMinute <==> n < 100 && Allows(o.requestsPerMinute, n))
      && (n < l.requestsPerDay <==> n < 10_000 && Allows(o.requestsPerDay, n))
      && l.bytesPerDay == 100 * 1024 * 1024
  {
  }

  lemma LimitsBelowDefaults(overrides: map<string, map<string, Override>>, app: string, domain: string)
    ensures
      var l := EffectiveLimits(overrides, app, domain);
      && l.requestsPerMinute <= REQUESTS_PER_MINUTE && l.requestsPerDay <= REQUESTS_PER_DAY
      && l.bytesPerDay == BYTES_PER_DAY
  {
    LimitsExact(overrides, app, domain, REQUESTS_PER_MINUTE);
    LimitsExact(overrides, app, domain, REQUESTS_PER_DAY);
  }

  // ----- one pair's bucket and what it stands for -------------------------------------------------------

  datatype Trace = Trace(minute: Track, day: Track, bytes: Track)

  /** A span of time and the limits in force for the checks inside it. */
  datatype Span = Span(x: int, minute: nat, day: nat)

  ghost predicate BucketTracked(b: Bucket, t: Trace, s: Span) {
    Tracks(Window(b.minuteStart, b.minuteCount), t.minute, MINUTE, s.x, s.minute) &&
    Tracks(Window(b.dayStart, b.dayCount), t.day, DAY, s.x, s.day) &&
    Tracks(Window(b.dayStart, b.dayBytes), t.bytes, DAY, s.x, BYTES_PER_DAY) &&
    t.bytes.since == t.day.since && t.bytes.openings == t.day.openings
  }

  predicate BelowDefaults(b: Bucket) {
    b.minuteCount <= REQUESTS_PER_MINUTE && b.dayCount <= REQUESTS_PER_DAY && b.dayBytes <= BYTES_PER_DAY
  }

  function WholeTrace(t: Trace): Logs {
    Logs(Whole(t.minute), Whole(t.day), Whole(t.bytes), t.minute.openings, t.day.openings)
  }

  /** What a pair's bucket and its logs have to do with one another. */
  ghost predicate PairTracked(m: Manager, logs: Logs, pair: Pair, t: Trace, now: nat, s: Span) {
    if pair in m.buckets then
      BucketTracked(m.buckets[pair], t, s) && BelowDefaults(m.buckets[pair]) && logs == WholeTrace(t) &&
      m.buckets[pair].minuteStart <= now && m.buckets[pair].dayStart <= now
    else
      logs == NO_LOGS
  }

  /** What holds of a bucket when a call has rolled it over. */
  ghost predicate Ready(b: Bucket, t: Trace, c: Clock, s: Span) {
    BucketTracked(b, t, s) && BelowDefaults(b) &&
    t.minute.since <= c.minuteCheck < b.minuteStart + MINUTE && t.day.since <= c.dayCheck < b.dayStart + DAY &&
    b.minuteStart <= c.dayReset && b.dayStart <= c.dayReset
  }

  function RolledTrace(b: Bucket, t: Trace, c: Clock): Trace {
    Trace(RolledTrack(Window(b.minuteStart, b.minuteCount), t.minute, c.minuteCheck, MINUTE),
          RolledTrack(Window(b.dayStart, b.dayCount), t.day, c.dayCheck, DAY),
          RolledTrack(Window(b.dayStart, b.dayBytes), t.bytes, c.dayCheck, DAY))
  }

  lemma Openings(b: Bucket, t: Trace, s: Span)
    requires BucketTracked(b, t, s)
    ensures t.minute.since <= b.minuteStart && t.day.since <= b.dayStart && t.bytes.since <= b.dayStart
  {
  }

  lemma RollBucket(b: Bucket, t: Trace, c: Clock, s: Span)
    requires BucketTracked(b, t, s) && BelowDefaults(b)
    requires c.Ordered() && b.minuteStart <= c.minuteCheck && b.dayStart <= c.dayCheck
    ensures Ready(Rollover(b, c), RolledTrace(b, t, c), c, s)
  {
    RollTracks(Window(b.minuteStart, b.minuteCount), t.minute, c.minuteCheck, c.minuteReset, MINUTE, s.x, s.minute);
    RollTracks(Window(b.dayStart, b.dayCount), t.day, c.dayCheck, c.dayReset, DAY, s.x, s.day);
    RollTracks(Window(b.dayStart, b.dayBytes), t.bytes, c.dayCheck, c.dayReset, DAY, s.x, BYTES_PER_DAY);
    Openings(b, t, s);
    hide Tracks;
  }

  lemma RolledWhole(b: Bucket, t: Trace, c: Clock)
    requires t.bytes.openings == t.day.openings
    ensures
      WholeTrace(RolledTrace(b, t, c)) ==
      WholeTrace(t).(
      minutes := t.minute.openings + (if c.minuteCheck - b.minuteStart >= MINUTE then {c.minuteCheck} else {}),
      days := t.day.openings + (if c.dayCheck - b.dayStart >= DAY then {c.dayCheck} else {}))
  {
  }

  lemma FreshBucket(now: nat, s: Span) returns (t: Trace)
    ensures BucketTracked(NewBucket(now), t, s) && BelowDefaults(NewBucket(now))
    ensures WholeTrace(t) == NO_LOGS.(minutes := {now}, days := {now}) && t.bytes.openings == t.day.openings
  {
    var k := Track([], [], now, {now});
    t := Trace(k, k, k);
    NothingSummed(s.x, MINUTE);
    NothingSummed(s.x, DAY);
  }

  /** The bucket a call works on, with its trace. */
  lemma CurrentTracked(m: Manager, logs: Logs, pair: Pair, t: Trace, now: nat, c: Clock, s: Span) returns (t': Trace)
    requires PairTracked(m, logs, pair, t, now, s) && now <= c.created && c.Ordered()
    ensures Ready(Current(m, pair, c), t', c, s) && WholeTrace(t') == Opened(m, logs, pair, c)
  {
    var b, t0 := Found(m, pair, c), t;
    if pair !in m.buckets {
      t0 := FreshBucket(c.created, s);
    }
    assert BucketTracked(b, t0, s) && BelowDefaults(b) && b.minuteStart <= c.minuteCheck && b.dayStart <= c.dayCheck;
    assert t0.bytes.openings == t0.day.openings;
    hide BucketTracked, BelowDefaults, Ready, RolledTrace, Rollover, Whole;
    RollBucket(b, t0, c, s);
    RolledWhole(b, t0, c);
    t' := RolledTrace(b, t0, c);
    assert WholeTrace(t').minutes == Opened(m, logs, pair, c).minutes;
    assert WholeTrace(t').days == Opened(m, logs, pair, c).days;
  }

  lemma ChargeBucket(b: Bucket, t: Trace, c: Clock, bytes: nat, limits: Limits, s: Span)
    requires Ready(b, t, c, s) && Admits(b, bytes, limits) && c.Ordered()
    requires limits.requestsPerMinute <= REQUESTS_PER_MINUTE && limits.requestsPerDay <= REQUESTS_PER_DAY
    requires limits.bytesPerDay == BYTES_PER_DAY
    requires s.x <= c.minuteCheck < s.x + MINUTE ==> limits.requestsPerMinute <= s.minute
    requires s.x <= c.dayCheck < s.x + DAY ==> limits.requestsPerDay <= s.day
    ensures
      var t' := Trace(Taken(t.minute, Entry(c.minuteCheck, 1)), Taken(t.day, Entry(c.dayCheck, 1)),
                      Taken(t.bytes, Entry(c.dayCheck, bytes)));
      && BucketTracked(Charged(b, bytes), t', s) && BelowDefaults(Charged(b, bytes))
      && Charged(b, bytes).minuteStart <= c.dayReset && Charged(b, bytes).dayStart <= c.dayReset
      && WholeTrace(t') == Requested(WholeTrace(t), bytes, c)
  {
    hide Tracks;
    TakeTracks(Window(b.minuteStart, b.minuteCount), t.minute, MINUTE, s.x, s.minute, Entry(c.minuteCheck, 1));
    TakeTracks(Window(b.dayStart, b.dayCount), t.day, DAY, s.x, s.day, Entry(c.dayCheck, 1));
    TakeTracks(Window(b.dayStart, b.dayBytes), t.bytes, DAY, s.x, BYTES_PER_DAY, Entry(c.dayCheck, bytes));
    TakenWhole(t.minute, Entry(c.minuteCheck, 1));
    TakenWhole(t.day, Entry(c.dayCheck, 1));
    TakenWhole(t.bytes, Entry(c.dayCheck, bytes));
  }

  lemma AnswerBucket(b: Bucket, t: Trace, c: Clock, bytes: nat, s: Span)
    requires Ready(b, t, c, s) && SaturatingAdd(b.dayBytes, bytes) <= BYTES_PER_DAY
    ensures
      var b' := b.(dayBytes := SaturatingAdd(b.dayBytes, bytes));
      var t' := t.(bytes := Taken(t.bytes, Entry(c.dayCheck, bytes)));
      BucketTracked(b', t', s) && BelowDefaults(b') && WholeTrace(t') == Responded(WholeTrace(t), bytes, c)
  {
    hide Tracks;
    TakeTracks(Window(b.dayStart, b.dayBytes), t.bytes, DAY, s.x, BYTES_PER_DAY, Entry(c.dayCheck, bytes));
    TakenWhole(t.bytes, Entry(c.dayCheck, bytes));
  }

  lemma Installed(m: Manager, logs: Logs, pair: Pair, b: Bucket, t: Trace, now: nat, s: Span)
    requires BucketTracked(b, t, s) && BelowDefaults(b) && b.minuteStart <= now && b.dayStart <= now
    requires logs == WholeTrace(t)
    ensures PairTracked(m.(buckets := m.buckets[pair := b]), logs, pair, t, now, s)
  {
  }

  lemma CheckTracked(m: Manager, logs: Logs, t: Trace, now: nat, pair: Pair, bytes: nat, c: Clock, s: Span)
      returns (t': Trace)
    requires PairTracked(m, logs, pair, t, now, s) && now <= c.created && c.Ordered()
    requires
      var limits := EffectiveLimits(m.overrides, pair.0, pair.1);
      && (s.x <= c.minuteCheck < s.x + MINUTE ==> limits.requestsPerMinute <= s.minute)
      && (s.x <= c.dayCheck < s.x + DAY ==> limits.requestsPerDay <= s.day)
    ensures
      var r, begun := Check(m, pair, bytes, c), Opened(m, logs, pair, c);
      PairTracked(r.0, if r.1 then Requested(begun, bytes, c) else begun, pair, t', c.dayReset, s)
  {
    hide BucketTracked, PairTracked, BelowDefaults, EffectiveLimits, Current, Whole, Taken, Charged, WholeTrace;
    hide Opened, Requested, Ready, Admits;
    t' := CurrentTracked(m, logs, pair, t, now, c, s);
    LimitsBelowDefaults(m.overrides, pair.0, pair.1);
    var b, limits := Current(m, pair, c), EffectiveLimits(m.overrides, pair.0, pair.1);
    var begun := Opened(m, logs, pair, c);
    ReadyTracked(b, t', c, s);
    if Admits(b, bytes, limits) {
      ChargeBucket(b, t', c, bytes, limits, s);
      t' := Trace(Taken(t'.minute, Entry(c.minuteCheck, 1)), Taken(t'.day, Entry(c.dayCheck, 1)),
                  Taken(t'.bytes, Entry(c.dayCheck, bytes)));
      Installed(m, Requested(begun, bytes, c), pair, Charged(b, bytes), t', c.dayReset, s);
    } else {
      Installed(m, begun, pair, b, t', c.dayReset, s);
    }
  }

  lemma ReadyTracked(b: Bucket, t: Trace, c: Clock, s: Span)
    requires Ready(b, t, c, s)
    ensures BucketTracked(b, t, s) && BelowDefaults(b) && b.minuteStart <= c.dayReset && b.dayStart <= c.dayReset
  {
  }

  lemma RespondTracked(m: Manager, logs: Logs, t: Trace, now: nat, pair: Pair, bytes: nat, c: Clock, s: Span)
      returns (t': Trace)
    requires PairTracked(m, logs, pair, t, now, s) && now <= c.created && c.Ordered()
    ensures
      var r, begun := Respond(m, pair, bytes, c), Opened(m, logs, pair, c);
      PairTracked(r.0, if r.1 then Responded(begun, bytes, c) else begun, pair, t', c.dayReset, s)
  {
    hide BucketTracked, PairTracked, BelowDefaults, EffectiveLimits, Current, Whole, Taken, WholeTrace;
    hide Opened, Responded;
    t' := CurrentTracked(m, logs, pair, t, now, c, s);
    LimitsBelowDefaults(m.overrides, pair.0, pair.1);
    var b, begun := Current(m, pair, c), Opened(m, logs, pair, c);
    ReadyTracked(b, t', c, s);
    hide Ready;
    if SaturatingAdd(b.dayBytes, bytes) <= BYTES_PER_DAY {
      AnswerBucket(b, t', c, bytes, s);
      t' := t'.(bytes := Taken(t'.bytes, Entry(c.dayCheck, bytes)));
      var b' := b.(dayBytes := SaturatingAdd(b.dayBytes, bytes));
      Installed(m, Responded(begun, bytes, c), pair, b', t', c.dayReset, s);
    } else {
      Installed(m, begun, pair, b, t', c.dayReset, s);
    }
  }

  lemma OthersUntouched(m: Manager, e: Event, pair: Pair)
    requires !Concerns(e, pair)
    ensures
      var m' := Step(m, e).0;
      (pair in m'.buckets <==> pair in m.buckets) && (pair in m.buckets ==> m'.buckets[pair] == m.buckets[pair])
  {
  }

  /** The limits a pair's call met, overrides included. */
  function LimitsAt(events: seq<Event>, i: nat, pair: Pair): Limits
    requires i < |events|
  {
    EffectiveLimits(Run(events[..i]).overrides, pair.0, pair.1)
  }

  /** Every check of the pair inside the span met limits of at most those of the span. */
  ghost predicate LimitedTo(events: seq<Event>, pair: Pair, s: Span) {
    forall i :: 0 <= i < |events| && events[i].call.CheckCall? && events[i].call.pair == pair ==>
      && (s.x <= events[i].clock.minuteCheck < s.x + MINUTE ==>
            LimitsAt(events, i, pair).requestsPerMinute <= s.minute)
      && (s.x <= events[i].clock.dayCheck < s.x + DAY ==>
            LimitsAt(events, i, pair).requestsPerDay <= s.day)
  }

  lemma LimitedBefore(before: seq<Event>, e: Event, pair: Pair, s: Span)
    ensures LimitedTo(before + [e], pair, s) <==> LimitedTo(before, pair, s) && LimitedAtEnd(before, e, pair, s)
  {
    hide Run, EffectiveLimits;
    var events := before + [e];
    assert events[..|before|] == before;
    forall i | 0 <= i < |before| ensures LimitsAt(events, i, pair) == LimitsAt(before, i, pair) && events[i] == before[i] {
      assert events[..i] == before[..i];
    }
    assert LimitsAt(events, |before|, pair) == EffectiveLimits(Run(before).overrides, pair.0, pair.1);
    assert events[|before|] == e;
  }

  ghost predicate LimitedAtEnd(before: seq<Event>, e: Event, pair: Pair, s: Span) {
    e.call.CheckCall? && e.call.pair == pair ==>
      var limits := EffectiveLimits(Run(before).overrides, pair.0, pair.1);
      && (s.x <= e.clock.minuteCheck < s.x + MINUTE ==> limits.requestsPerMinute <= s.minute)
      && (s.x <= e.clock.dayCheck < s.x + DAY ==> limits.requestsPerDay <= s.day)
  }

  lemma {:induction false} EveryRunTracked(events: seq<Event>, pair: Pair, s: Span) returns (t: Trace)
    requires Monotone(events) && LimitedTo(events, pair, s)
    ensures PairTracked(Run(events), LogsOf(events, pair), pair, t, Now(events), s)
  {
    if events == [] {
      t := FreshBucket(0, s);
    } else {
      var before, e := events[..|events| - 1], events[|events| - 1];
      assert events == before + [e];
      LimitedBefore(before, e, pair, s);
      t := EveryRunTracked(before, pair, s);
      StepLogs(before, e, pair);
      var m, logs, now := Run(before), LogsOf(before, pair), Now(before);
      hide BucketTracked, BelowDefaults, LogsOf, Run, WholeTrace, Check, Respond, Opened, LimitedTo, EffectiveLimits;
      if !Concerns(e, pair) {
        OthersUntouched(m, e, pair);
      } else if e.call.CheckCall? {
        t := CheckTracked(m, logs, t, now, pair, e.call.bytes, e.clock, s);
      } else {
        t := RespondTracked(m, logs, t, now, pair, e.call.bytes, e.clock, s);
      }
    }
  }

  // ----- main results ----------------------------------------------------------------------------------

  lemma TraceBounded(b: Bucket, t: Trace, s: Span)
    requires BucketTracked(b, t, s)
    ensures
      var logs := WholeTrace(t);
      && SumIn(logs.minute, s.x, MINUTE) <= (if Quiet(logs.minutes, s.x, MINUTE) then s.minute else 2 * s.minute)
      && SumIn(logs.day, s.x, DAY) <= (if Quiet(logs.days, s.x, DAY) then s.day else 2 * s.day)
      && SumIn(logs.bytes, s.x, DAY) <= (if Quiet(logs.days, s.x, DAY) then BYTES_PER_DAY else 2 * BYTES_PER_DAY)
  {
    hide SumIn, Quiet, Whole;
    SpanBounded(Window(b.minuteStart, b.minuteCount), t.minute, MINUTE, s.x, s.minute);
    SpanBounded(Window(b.dayStart, b.dayCount), t.day, DAY, s.x, s.day);
    SpanBounded(Window(b.dayStart, b.dayBytes), t.bytes, DAY, s.x, BYTES_PER_DAY);
  }

  /** Whatever overrides are set and when: if the checks of a pair in a minute met limits of at
      most `s.minute`, that minute, wherever it starts, holds at most twice as many accepted
      requests, and no more than `s.minute` if no window opens inside it; likewise for a day, and
      for the bytes of a day. */
  lemma RatesLimited(events: seq<Event>, pair: Pair, s: Span)
    requires Monotone(events) && LimitedTo(events, pair, s)
    ensures
      SumIn(MinuteLog(events, pair), s.x, MINUTE) <=
      if Quiet(MinuteOpenings(events, pair), s.x, MINUTE) then s.minute else 2 * s.minute
    ensures
      SumIn(DayLog(events, pair), s.x, DAY) <=
      if Quiet(DayOpenings(events, pair), s.x, DAY) then s.day else 2 * s.day
    ensures
      SumIn(ByteLog(events, pair), s.x, DAY) <=
      if Quiet(DayOpenings(events, pair), s.x, DAY) then BYTES_PER_DAY else 2 * BYTES_PER_DAY
  {
    hide MinuteLog, DayLog, ByteLog, MinuteOpenings, DayOpenings, Run, SumIn, Quiet, BucketTracked, LimitedTo;
    var t := EveryRunTracked(events, pair, s);
    NothingSummed(s.x, MINUTE);
    NothingSummed(s.x, DAY);
    if pair in Run(events).buckets {
      TraceBounded(Run(events).buckets[pair], t, s);
    }
  }

  lemma DefaultsLimit(events: seq<Event>, pair: Pair, x: int)
    ensures LimitedTo(events, pair, Span(x, REQUESTS_PER_MINUTE, REQUESTS_PER_DAY))
  {
    hide EffectiveLimits, Run;
    forall i | 0 <= i < |events|
      ensures LimitsAt(events, i, pair).requestsPerMinute <= REQUESTS_PER_MINUTE
      ensures LimitsAt(events, i, pair).requestsPerDay <= REQUESTS_PER_DAY
    {
      LimitsBelowDefaults(Run(events[..i]).overrides, pair.0, pair.1);
    }
  }

  /** Overrides only lower the limits, so in every run: counters never pass the defaults, any
      minute holds at most twice the default limit, any day at most twice the default limit of
      requests and of bytes. */
  lemma RatesBounded(events: seq<Event>, pair: Pair, x: int)
    requires Monotone(events)
    ensures
      var m := Run(events);
      pair in m.buckets ==>
        m.buckets[pair].minuteCount <= 100 && m.buckets[pair].dayCount <= 10_000 &&
        m.buckets[pair].dayBytes <= 100 * 1024 * 1024
    ensures SumIn(MinuteLog(events, pair), x, MINUTE) <= 200
    ensures SumIn(DayLog(events, pair), x, DAY) <= 20_000
    ensures SumIn(ByteLog(events, pair), x, DAY) <= 2 * 100 * 1024 * 1024
  {
    hide MinuteLog, DayLog, ByteLog, Run, SumIn, BucketTracked, LimitedTo, LogsOf, WholeTrace;
    var s := Span(x, REQUESTS_PER_MINUTE, REQUESTS_PER_DAY);
    DefaultsLimit(events, pair, x);
    RatesLimited(events, pair, s);
    var t := EveryRunTracked(events, pair, s);
  }

  lemma CountersOf(b: Bucket, t: Trace, s: Span)
    requires BucketTracked(b, t, s)
    ensures t.minute.since <= b.minuteStart && t.minute.since in t.minute.openings
    ensures t.day.since <= b.dayStart && t.day.since in t.day.openings
    ensures forall r :: r in t.minute.openings ==> r <= t.minute.since
    ensures forall r :: r in t.day.openings ==> r <= t.day.since
    ensures b.minuteCount == SumIn(Whole(t.minute), t.minute.since, b.minuteStart + MINUTE - t.minute.since)
    ensures b.dayCount == SumIn(Whole(t.day), t.day.since, b.dayStart + DAY - t.day.since)
    ensures b.dayBytes == SumIn(Whole(t.bytes), t.day.since, b.dayStart + DAY - t.day.since)
  {
    hide SumIn, Whole, AllBetween, Sum, Quiet;
    WindowCounted(Window(b.minuteStart, b.minuteCount), t.minute, MINUTE, s.x, s.minute);
    WindowCounted(Window(b.dayStart, b.dayCount), t.day, DAY, s.x, s.day);
    WindowCounted(Window(b.dayStart, b.dayBytes), t.bytes, DAY, s.x, BYTES_PER_DAY);
  }

  predicate IsLast(reading: nat, openings: set<nat>) {
    reading in openings && forall r :: r in openings ==> r <= reading
  }

  /** In every run a pair's counters are exactly what was accepted for it since its last minute
      and its last day opened. */
  lemma CounterExact(events: seq<Event>, pair: Pair) returns (minute: nat, day: nat)
    requires Monotone(events) && pair in Run(events).buckets
    ensures IsLast(minute, MinuteOpenings(events, pair)) && IsLast(day, DayOpenings(events, pair))
    ensures
      var b := Run(events).buckets[pair];
      && minute <= b.minuteStart && day <= b.dayStart
      && b.minuteCount == SumIn(MinuteLog(events, pair), minute, b.minuteStart + MINUTE - minute)
      && b.dayCount == SumIn(DayLog(events, pair), day, b.dayStart + DAY - day)
      && b.dayBytes == SumIn(ByteLog(events, pair), day, b.dayStart + DAY - day)
  {
    hide SumIn, Run, MinuteLog, DayLog, ByteLog, MinuteOpenings, DayOpenings, BucketTracked, LimitedTo;
    var s := Span(0, REQUESTS_PER_MINUTE, REQUESTS_PER_DAY);
    DefaultsLimit(events, pair, 0);
    var t := EveryRunTracked(events, pair, s);
    CountersOf(Run(events).buckets[pair], t, s);
    minute, day := t.minute.since, t.day.since;
  }

  lemma AdmitsExactly(b: Bucket, bytes: nat, overrides: map<string, map<string, Override>>, pair: Pair)
    ensures
      var o := OverrideOf(overrides, pair.0, pair.1);
      Admits(b, bytes, EffectiveLimits(overrides, pair.0, pair.1)) <==>
        && b.minuteCount < REQUESTS_PER_MINUTE && Allows(o.requestsPerMinute, b.minuteCount)
        && b.dayCount < REQUESTS_PER_DAY && Allows(o.requestsPerDay, b.dayCount)
        && b.dayBytes + bytes <= BYTES_PER_DAY
  {
    hide EffectiveLimits, OverrideOf, Allows;
    LimitsExact(overrides, pair.0, pair.1, b.minuteCount);
    LimitsExact(overrides, pair.0, pair.1, b.dayCount);
  }

  lemma OpeningsWith(events: seq<Event>, e: Event, pair: Pair)
    requires Concerns(e, pair)
    ensures MinuteOpenings(events + [e], pair) == Opened(Run(events), LogsOf(events, pair), pair, e.clock).minutes
    ensures DayOpenings(events + [e], pair) == Opened(Run(events), LogsOf(events, pair), pair, e.clock).days
  {
    assert (events + [e])[..|events|] == events;
  }

  /** A request is accepted exactly when what the pair was granted since its minute and its day
      opened, at the latest by this very call, leaves room for it under the limits in force; and
      the call is within the minute and the day that are under way. */
  lemma CheckExactly(events: seq<Event>, pair: Pair, bytes: nat, c: Clock) returns (minute: nat, day: nat)
    requires Monotone(events) && Now(events) <= c.created && c.Ordered()
    ensures
      var e := Event(CheckCall(pair, bytes), c);
      IsLast(minute, MinuteOpenings(events + [e], pair)) && IsLast(day, DayOpenings(events + [e], pair))
    ensures
      var b := Current(Run(events), pair, c);
      && minute <= b.minuteStart && minute <= c.minuteCheck < b.minuteStart + MINUTE
      && day <= b.dayStart && day <= c.dayCheck < b.dayStart + DAY
    ensures
      var m := Run(events);
      var b, o := Current(m, pair, c), OverrideOf(m.overrides, pair.0, pair.1);
      var requests := SumIn(MinuteLog(events, pair), minute, b.minuteStart + MINUTE - minute);
      var daily := SumIn(DayLog(events, pair), day, b.dayStart + DAY - day);
      Check(m, pair, bytes, c).1 <==>
        && requests < REQUESTS_PER_MINUTE && Allows(o.requestsPerMinute, requests)
        && daily < REQUESTS_PER_DAY && Allows(o.requestsPerDay, daily)
        && SumIn(ByteLog(events, pair), day, b.dayStart + DAY - day) + bytes <= BYTES_PER_DAY
  {
    hide SumIn, Run, MinuteLog, DayLog, ByteLog, MinuteOpenings, DayOpenings, LimitedTo, MinuteOpened, DayOpened;
    hide Current, EffectiveLimits, OverrideOf, Allows, Admits, BucketTracked, PairTracked;
    var s := Span(0, REQUESTS_PER_MINUTE, REQUESTS_PER_DAY);
    DefaultsLimit(events, pair, 0);
    var t := EveryRunTracked(events, pair, s);
    var m, logs := Run(events), LogsOf(events, pair);
    var b := Current(m, pair, c);
    t := CurrentTracked(m, logs, pair, t, Now(events), c, s);
    minute, day := t.minute.since, t.day.since;
    AdmitsExactly(b, bytes, m.overrides, pair);
    CountersOf(b, t, s);
    OpeningsWith(events, Event(CheckCall(pair, bytes), c), pair);
    hide Whole;
  }

  /** A response is accepted exactly when the bytes the pair was granted since its day opened, at the
      latest by this very call, leave room for it, however many requests there were. It is charged
      its bytes and no request, and nothing if it is refused. */
  lemma RespondExactly(events: seq<Event>, pair: Pair, bytes: nat, c: Clock) returns (day: nat)
    requires Monotone(events) && Now(events) <= c.created && c.Ordered()
    ensures IsLast(day, DayOpenings(events + [Event(ResponseCall(pair, bytes), c)], pair))
    ensures var b := Current(Run(events), pair, c); day <= b.dayStart && day <= c.dayCheck < b.dayStart + DAY
    ensures
      var m := Run(events);
      var b := Current(m, pair, c);
      Respond(m, pair, bytes, c).1 <==>
        SumIn(ByteLog(events, pair), day, b.dayStart + DAY - day) + bytes <= 100 * 1024 * 1024
    ensures
      var m := Run(events);
      var b, (m', ok) := Current(m, pair, c), Respond(m, pair, bytes, c);
      m' == m.(buckets := m.buckets[pair := if ok then b.(dayBytes := b.dayBytes + bytes) else b])
  {
    hide SumIn, Run, MinuteLog, DayLog, ByteLog, MinuteOpenings, DayOpenings, LimitedTo, MinuteOpened, DayOpened;
    hide Current, EffectiveLimits, BucketTracked, PairTracked;
    var s := Span(0, REQUESTS_PER_MINUTE, REQUESTS_PER_DAY);
    DefaultsLimit(events, pair, 0);
    var t := EveryRunTracked(events, pair, s);
    var m, logs := Run(events), LogsOf(events, pair);
    var b := Current(m, pair, c);
    t := CurrentTracked(m, logs, pair, t, Now(events), c, s);
    day := t.day.since;
    LimitsBelowDefaults(m.overrides, pair.0, pair.1);
    CountersOf(b, t, s);
    OpeningsWith(events, Event(ResponseCall(pair, bytes), c), pair);
    hide Whole;
  }

  /** A minute that a call opens lasts sixty seconds from the reading the call takes after the one that
      found the last minute over, and a day is a day from there. */
  lemma WindowsLast(m: Manager, pair: Pair, bytes: nat, c: Clock, later: Clock)
    requires pair in m.buckets
    ensures
      var m' := Check(m, pair, bytes, c).0;
      && (c.minuteCheck in MinuteOpened(m, pair, c) ==>
            (later.minuteCheck in MinuteOpened(m', pair, later) <==>
             later.minuteCheck - c.minuteReset >= 60_000_000_000))
      && (c.dayCheck in DayOpened(m, pair, c) ==>
            (later.dayCheck in DayOpened(m', pair, later) <==>
             later.dayCheck - c.dayReset >= 86_400_000_000_000))
  {
  }

  /** What was last set for an application. */
  function LastSet(events: seq<Event>, app: string): Option<map<string, Override>> {
    if events == [] then None
    else
      var last := events[|events| - 1];
      if last.call.LimitsCall? && last.call.app == app then Some(last.call.limits)
      else LastSet(events[..|events| - 1], app)
  }

  /** The settings in force are the last ones, whole: nothing of earlier ones is left. */
  lemma {:induction false} LastSettingsCount(events: seq<Event>, app: string, domain: string)
    ensures
      var set', o := LastSet(events, app), OverrideOf(Run(events).overrides, app, domain);
      o == if set'.Some? && domain in set'.value then set'.value[domain] else Override(None, None)
  {
    if events != [] {
      LastSettingsCount(events[..|events| - 1], app, domain);
      SettingsOf(Run(events[..|events| - 1]), events[|events| - 1]);
    }
  }

  lemma SettingsOf(m: Manager, e: Event)
    ensures Step(m, e).0.overrides ==
      if e.call.LimitsCall? then m.overrides[e.call.app := e.call.limits] else m.overrides
  {
  }

  // ----- twice the limit, and no less ------------------------------------------------------------------------

  function At(s: nat): Clock {
    Clock(s * SECOND, s * SECOND, s * SECOND, s * SECOND, s * SECOND)
  }

  /** A limit of `n` requests a minute, and a bucket that exists before its first request. */
  function Prelude(pair: Pair, n: nat): seq<Event> {
    [Event(LimitsCall(pair.0, map[pair.1 := Override(Some(n), None)]), At(0))] + [Event(ResponseCall(pair, 0), At(0))]
  }

  /** `k` requests in second `s`. */
  function Volley(events: seq<Event>, pair: Pair, s: nat, k: nat): seq<Event> {
    if k == 0 then events else Volley(events, pair, s, k - 1) + [Event(CheckCall(pair, 0), At(s))]
  }

  /** `n` requests in the last second of a minute and `n` in the first of the next. */
  function Burst(pair: Pair, n: nat): seq<Event> {
    Volley(Volley(Prelude(pair, n), pair, 59, n), pair, 60, n)
  }

  lemma AppendRun(s: seq<Event>, e: Event, pair: Pair)
    ensures Run(s + [e]) == Step(Run(s), e).0
    ensures MinuteLog(s + [e], pair) == MinuteLog(s, pair) +
      if e.call.CheckCall? && e.call.pair == pair && Step(Run(s), e).1 then [Entry(e.clock.minuteCheck, 1)] else []
  {
    assert (s + [e])[..|s|] == s;
  }

  lemma PreludeRun(pair: Pair, n: nat)
    requires n <= REQUESTS_PER_MINUTE
    ensures
      var m := Run(Prelude(pair, n));
      pair in m.buckets && m.buckets[pair] == Bucket(0, 0, 0, 0, 0) &&
      EffectiveLimits(m.overrides, pair.0, pair.1) == Limits(n, REQUESTS_PER_DAY, BYTES_PER_DAY)
    ensures MinuteLog(Prelude(pair, n), pair) == []
  {
    var s := Prelude(pair, n);
    AppendRun([], s[0], pair);
    AppendRun([s[0]], s[1], pair);
    assert [s[0]] == [] + [s[0]];
  }

  /** A run that keeps its clock in order, ends by second `s`, and held the pair to `n` requests a
      minute whenever it checked. */
  ghost predicate HeldTo(events: seq<Event>, pair: Pair, n: nat, s: nat) {
    Monotone(events) && Now(events) <= s * SECOND && LimitedTo(events, pair, Span(59 * SECOND, n, REQUESTS_PER_DAY)) &&
    pair in Run(events).buckets &&
    EffectiveLimits(Run(events).overrides, pair.0, pair.1) == Limits(n, REQUESTS_PER_DAY, BYTES_PER_DAY)
  }

  lemma PreludeHeld(pair: Pair, n: nat)
    requires n <= REQUESTS_PER_MINUTE
    ensures HeldTo(Prelude(pair, n), pair, n, 59)
  {
    hide Run, EffectiveLimits;
    PreludeRun(pair, n);
  }

  /** One more request in the same second is accepted while there is room. */
  lemma OneMore(events: seq<Event>, pair: Pair, n: nat, s: nat)
    requires HeldTo(events, pair, n, s)
    requires
      var b := Current(Run(events), pair, At(s));
      b.minuteCount < n && b.dayCount < REQUESTS_PER_DAY && b.dayBytes == 0
    ensures
      var more := events + [Event(CheckCall(pair, 0), At(s))];
      && HeldTo(more, pair, n, s)
      && Current(Run(more), pair, At(s)) == Charged(Current(Run(events), pair, At(s)), 0)
      && MinuteLog(more, pair) == MinuteLog(events, pair) + [Entry(s * SECOND, 1)]
  {
    hide Run, EffectiveLimits, LimitedTo, MinuteLog;
    var e := Event(CheckCall(pair, 0), At(s));
    AppendRun(events, e, pair);
    LimitedBefore(events, e, pair, Span(59 * SECOND, n, REQUESTS_PER_DAY));
  }

  lemma {:induction false} VolleyRun(events: seq<Event>, pair: Pair, n: nat, s: nat, k: nat)
    requires HeldTo(events, pair, n, s)
    requires
      var b := Current(Run(events), pair, At(s));
      b.minuteCount + k <= n && b.dayCount + k <= REQUESTS_PER_DAY && b.dayBytes == 0
    ensures
      var more, b := Volley(events, pair, s, k), Current(Run(events), pair, At(s));
      && HeldTo(more, pair, n, s)
      && Current(Run(more), pair, At(s)) == b.(minuteCount := b.minuteCount + k, dayCount := b.dayCount + k)
    ensures 59 <= s <= 60 ==>
      SumIn(MinuteLog(Volley(events, pair, s, k), pair), 59 * SECOND, 2 * SECOND) ==
      SumIn(MinuteLog(events, pair), 59 * SECOND, 2 * SECOND) + k
  {
    hide Run, EffectiveLimits, MinuteLog, HeldTo, Current;
    if k > 0 {
      var before := Volley(events, pair, s, k - 1);
      VolleyRun(events, pair, n, s, k - 1);
      OneMore(before, pair, n, s);
      SumInAppend(MinuteLog(before, pair), [Entry(s * SECOND, 1)], 59 * SECOND, 2 * SECOND);
      assert [Entry(s * SECOND, 1)][..0] == [];
    }
  }

  /** The factor two is needed, for every limit: `2 * n` requests pass within two seconds. */
  lemma LimitIsNotSliding(pair: Pair, n: nat)
    requires n <= REQUESTS_PER_MINUTE
    ensures HeldTo(Burst(pair, n), pair, n, 60)
    ensures SumIn(MinuteLog(Burst(pair, n), pair), 59 * SECOND, 2 * SECOND) == 2 * n
  {
    hide Run, EffectiveLimits, MinuteLog, LimitedTo, SumIn;
    var first := Volley(Prelude(pair, n), pair, 59, n);
    PreludeRun(pair, n);
    PreludeHeld(pair, n);
    VolleyRun(Prelude(pair, n), pair, n, 59, n);
    NothingSummed(59 * SECOND, 2 * SECOND);
    assert HeldTo(first, pair, n, 60);
    AtSixty(Run(first).buckets[pair], n);
    VolleyRun(first, pair, n, 60, n);
  }

  /** The minute that opened at zero is over at sixty. */
  lemma AtSixty(b: Bucket, n: nat)
    requires Rollover(b, At(59)) == Bucket(0, 0, n, n, 0)
    ensures Rollover(b, At(60)) == Bucket(60 * SECOND, 0, 0, n, 0)
  {
  }

  /** In no run do the checks of a pair held to `n` requests a minute let more than `most`
      through in a minute. */
  ghost predicate NeverMoreThan(pair: Pair, n: nat, most: nat) {
    forall events: seq<Event>, x: int :: Monotone(events) && LimitedTo(events, pair, Span(x, n, REQUESTS_PER_DAY)) ==>
      SumIn(MinuteLog(events, pair), x, MINUTE) <= most
  }

  lemma {:induction false} LongerHoldsMore(log: Log, x: int, shorter: nat, longer: nat)
    requires shorter <= longer
    ensures SumIn(log, x, shorter) <= SumIn(log, x, longer)
  {
    if log != [] {
      LongerHoldsMore(log[..|log| - 1], x, shorter, longer);
    }
  }

  /** So what a limit of `n` a minute guarantees for every minute is `2 * n`, exactly. */
  lemma DoubleIsExact(pair: Pair, n: nat, most: nat)
    requires n <= REQUESTS_PER_MINUTE
    ensures NeverMoreThan(pair, n, most) <==> 2 * n <= most
  {
    hide MinuteLog, SumIn, Run, LimitedTo, Monotone, Quiet;
    if 2 * n <= most {
      forall events: seq<Event>, x: int | Monotone(events) && LimitedTo(events, pair, Span(x, n, REQUESTS_PER_DAY))
        ensures SumIn(MinuteLog(events, pair), x, MINUTE) <= most
      {
        RatesLimited(events, pair, Span(x, n, REQUESTS_PER_DAY));
      }
    }
    LimitIsNotSliding(pair, n);
    LongerHoldsMore(MinuteLog(Burst(pair, n), pair), 59 * SECOND, 2 * SECOND, MINUTE);
  }

  /** The calls that concern a pair: its own, and all settings. */
  function Concerning(events: seq<Event>, pair: Pair): seq<Event> {
    if events == [] then []
    else
      var before, last := Concerning(events[..|events| - 1], pair), events[|events| - 1];
      if last.call.LimitsCall? || last.call.pair == pair then before + [last] else before
  }

  /** A pair's bucket is the same as if no other pair had ever called. */
  lemma {:induction false} PairsAreIsolated(events: seq<Event>, pair: Pair)
    ensures
      var m, alone := Run(events), Run(Concerning(events, pair));
      m.overrides == alone.overrides &&
      (pair in m.buckets <==> pair in alone.buckets) &&
      (pair in m.buckets ==> m.buckets[pair] == alone.buckets[pair])
  {
    if events != [] {
      var before, last := events[..|events| - 1], events[|events| - 1];
      PairsAreIsolated(before, pair);
      if last.call.LimitsCall? || last.call.pair == pair {
        assert (Concerning(before, pair) + [last])[..|Concerning(before, pair)|] == Concerning(before, pair);
      }
    }
  }
}
