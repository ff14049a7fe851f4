/** The long-window connection limiter with cooldown, quarantine and the paired exemption. */
module Flap {
  import opened SlidingWindow
  import opened Wrappers

  datatype Config = Config(
    enabled: bool, window: real, max: int, anonMax: int, cooldown: real, idle: real, quarantineTrips: int, quarantine: real)

  /** blockedUntil is the end of the cooldown. */
  datatype Bucket = Bucket(hits: seq<real>, blockedUntil: real, lastSeen: real, trips: int, tripWinStart: real, quarantinedUntil: real)

  datatype Reason = Quarantined | Cooldown | FlapRate

  datatype Result =
    | Allow
    | Refuse(retryAfter: real, reason: Reason, startsQuarantine: bool)

  const ANON_KEY := "anon:global"

  function MaxFor(c: Config, key: string): int {
    if key == ANON_KEY then c.anonMax else c.max
  }

  // ----- One call, as a function of the key's bucket -------------------------------------------

  function Entered(s: Option<Bucket>, now: real): Bucket {
    if s.None? then Bucket([], 0.0, now, 0, now, 0.0) else s.value.(lastSeen := now)
  }

  /** A paired caller ends a quarantine. */
  function Released(b: Bucket, now: real, paired: bool): Bucket {
    if now < b.quarantinedUntil && paired then b.(quarantinedUntil := 0.0, trips := 0) else b
  }

  /** Too many hits in the window. */
  function Tripped(c: Config, b: Bucket, now: real, paired: bool): (Bucket, Result) {
    var newWindow := now - b.tripWinStart > c.window;
    var trips := (if newWindow then 0 else b.trips) + 1;
    var b' := b.(hits := [], blockedUntil := now + c.cooldown, trips := trips, tripWinStart := if newWindow then now else b.tripWinStart);
    if !paired && c.quarantineTrips > 0 && trips >= c.quarantineTrips then
      (b'.(quarantinedUntil := now + c.quarantine), Refuse(c.quarantine, FlapRate, true))
    else (b', Refuse(c.cooldown, FlapRate, false))
  }

  function Decide(c: Config, s: Option<Bucket>, key: string, now: real, paired: bool): (Bucket, Result) {
    var e := Entered(s, now);
    var b := Released(e, now, paired);
    if now < e.quarantinedUntil && !paired then (e, Refuse(e.quarantinedUntil - now, Quarantined, false))
    else if now < b.blockedUntil then (b, Refuse(b.blockedUntil - now, Cooldown, false))
    else
      var hits := Recent(b.hits, now, c.window) + [now];
      if |hits| > MaxFor(c, key) then Tripped(c, b, now, paired) else (b.(hits := hits), Allow)
  }

  // ----- The code ----------------------------------------------------------------------------------

  class Limiter {
    const c: Config
    var state: map<string, Bucket>

    constructor (c: Config)
      ensures this.c == c && state == map[]
    {
      this.c := c;
      state := map[];
    }

    method Check(key: string, now: real, paired: bool) returns (r: Result)
      modifies this`state
      ensures !c.enabled ==> r == Allow && state == old(state)
      ensures c.enabled ==>
        var d := Decide(c, if key in old(state) then Some(old(state)[key]) else None, key, now, paired);
        state == old(state)[key := d.0] && r == d.1
    {
      hide Recent;
      if !c.enabled {
        return Allow;
      }
      var s := if key in state then state[key] else Bucket([], 0.0, now, 0, now, 0.0);
      s := s.(lastSeen := now);
      if now < s.quarantinedUntil {
        if paired {
          s := s.(quarantinedUntil := 0.0);
          s := s.(trips := 0);
        } else {
          state := state[key := s];
          return Refuse(s.quarantinedUntil - now, Quarantined, false);
        }
      }
      if now < s.blockedUntil {
        state := state[key := s];
        return Refuse(s.blockedUntil - now, Cooldown, false);
      }
      var hits := Recent(s.hits, now, c.window);
      hits := hits + [now];
      if |hits| > MaxFor(c, key) {
        s := s.(blockedUntil := now + c.cooldown, hits := []);
        if now - s.tripWinStart > c.window {
          s := s.(tripWinStart := now, trips := 0);
        }
        s := s.(trips := s.trips + 1);
        if !paired && c.quarantineTrips > 0 && s.trips >= c.quarantineTrips {
          s := s.(quarantinedUntil := now + c.quarantine);
          state := state[key := s];
          return Refuse(c.quarantine, FlapRate, true);
        }
        state := state[key := s];
        return Refuse(c.cooldown, FlapRate, false);
      }
      s := s.(hits := hits);
      state := state[key := s];
      r := Allow;
    }

    /** Removes idle buckets except the shared anonymous one. */
    method Sweep(now: real) returns (n: nat)
      modifies this`state
      ensures state == map k | k in old(state) && !(k != ANON_KEY && now - old(state)[k].lastSeen > c.idle) :: old(state)[k]
      ensures n == |old(state)| - |state|
    {
      n := 0;
      var keys := state.Keys;
      while keys != {}
        invariant keys <= old(state).Keys
        invariant state == map k | k in old(state) && (k in keys || !(k != ANON_KEY && now - old(state)[k].lastSeen > c.idle)) :: old(state)[k]
        invariant n == |old(state)| - |state|
        decreases keys
      {
        var k :| k in keys;
        keys := keys - {k};
        if k != ANON_KEY && now - state[k].lastSeen > c.idle {
          assert |state| == |state - {k}| + 1 by {
            assert (state - {k}).Keys == state.Keys - {k};
          }
          state := state - {k};
          n := n + 1;
        }
      }
    }
  }

  // ----- What buckets of a run keep ------------------------------------------------------------------

  /** The cooldown ends at most a cooldown after the last call; hits came in when neither cooldown
      nor quarantine was on; a quarantine that outlasts the last call covers the cooldown whenever
      quarantines are at least as long as cooldowns. */
  ghost predicate BucketOk(c: Config, b: Bucket) {
    b.lastSeen >= 0.0 &&
    (forall i :: 0 <= i < |b.hits| ==> b.blockedUntil <= b.hits[i] <= b.lastSeen && b.quarantinedUntil <= b.hits[i]) &&
    b.blockedUntil <= b.lastSeen + c.cooldown &&
    (c.quarantine >= c.cooldown && b.quarantinedUntil > b.lastSeen ==> b.blockedUntil <= b.quarantinedUntil) &&
    b.quarantinedUntil <= b.lastSeen + c.quarantine
  }

  predicate ConfigOk(c: Config) {
    c.max >= 1 && c.anonMax >= 1 && c.cooldown >= 0.0 && c.quarantine >= 0.0
  }

  lemma BucketKept(c: Config, s: Option<Bucket>, key: string, now: real, paired: bool)
    requires ConfigOk(c) && now >= 0.0
    requires s.Some? ==> BucketOk(c, s.value) && s.value.lastSeen <= now
    ensures var d := Decide(c, s, key, now, paired); BucketOk(c, d.0) && d.0.lastSeen == now
  {
    hide Recent;
    var b := Released(Entered(s, now), now, paired);
    RecentIn(b.hits, now, c.window);
  }

  /** A paired caller is never told to wait longer than the cooldown, and never refused for a quarantine. */
  lemma PairedWaitsAtMostCooldown(c: Config, s: Option<Bucket>, key: string, now: real)
    requires ConfigOk(c) && now >= 0.0
    requires s.Some? ==> BucketOk(c, s.value) && s.value.lastSeen <= now
    ensures var r := Decide(c, s, key, now, true).1;
      r.Refuse? ==> r.reason != Quarantined && !r.startsQuarantine && r.retryAfter <= c.cooldown
  {
    hide Recent;
  }

  /** After a refusal, a next call of the key that waits out retryAfter is let in exactly when the
      cooldown is over by then. */
  lemma NextTry(c: Config, s: Option<Bucket>, key: string, now: real, paired: bool, later: real, laterPaired: bool)
    requires ConfigOk(c) && now >= 0.0
    requires s.Some? ==> BucketOk(c, s.value) && s.value.lastSeen <= now
    requires Decide(c, s, key, now, paired).1.Refuse? && later >= now + Decide(c, s, key, now, paired).1.retryAfter
    ensures var d := Decide(c, s, key, now, paired);
      Decide(c, Some(d.0), key, later, laterPaired).1.Allow? <==> d.0.blockedUntil <= later
    ensures c.quarantine >= c.cooldown ==> Decide(c, Some(Decide(c, s, key, now, paired).0), key, later, laterPaired).1.Allow?
  {
    BucketKept(c, s, key, now, paired);
    var d := Decide(c, s, key, now, paired);
    assert s.Some? && s.value.hits != [] ==> s.value.hits[0] <= now;
    assert d.0.hits == [];
    assert Recent(d.0.hits, later, c.window) == [];
  }

  /** A caller who waits out a quarantine is refused again exactly when quarantines are shorter than
      the cooldown: the answer then was too early. */
  lemma ShortQuarantineRefusesAgain(c: Config, s: Option<Bucket>, key: string, now: real)
    requires ConfigOk(c)
    requires Decide(c, s, key, now, false).1.Refuse? && Decide(c, s, key, now, false).1.startsQuarantine
    ensures var d := Decide(c, s, key, now, false);
      d.1.retryAfter == c.quarantine &&
      (Decide(c, Some(d.0), key, now + d.1.retryAfter, false).1.Refuse? <==> c.quarantine < c.cooldown)
  {
    var d, later := Decide(c, s, key, now, false), now + c.quarantine;
    RecentEmpty(later, c.window);
    hide Recent;
    assert d.0.hits == [] && d.0.blockedUntil == now + c.cooldown && d.0.quarantinedUntil == later;
  }

  /** Such a quarantine does come about: with one connection a window and one trip, on the second
      connection. */
  lemma QuarantineStarts(c: Config, key: string, first: real, now: real)
    requires ConfigOk(c) && c.max == c.anonMax == c.quarantineTrips == 1 && 0.0 <= first <= now < first + c.window
    ensures var b := Decide(c, None, key, first, false);
      b.1.Allow? && var d := Decide(c, Some(b.0), key, now, false); d.1.Refuse? && d.1.startsQuarantine
  {
    RecentEmpty(first, c.window);
    RecentOfOne(first, now, c.window);
    hide Recent;
    assert [] + [first] == [first];
    assert Decide(c, None, key, first, false).0.hits == [first];
  }

  lemma RecentOfOne(hit: real, now: real, window: real)
    requires now - hit < window
    ensures Recent([hit], now, window) == [hit]
  {
    var one: seq<real> := [hit];
    assert one[..0] == [];
  }

  // ----- Whole runs ------------------------------------------------------------------------------------

  datatype Event = Call(key: string, now: real, paired: bool) | SweepAt(now: real)

  type Buckets = map<string, Bucket>

  function BucketOf(st: Buckets, key: string): Option<Bucket> {
    if key in st then Some(st[key]) else None
  }

  function Apply(c: Config, st: Buckets, e: Event): Buckets {
    match e
    case Call(key, now, paired) => st[key := Decide(c, BucketOf(st, key), key, now, paired).0]
    case SweepAt(now) => map k | k in st && !(k != ANON_KEY && now - st[k].lastSeen > c.idle) :: st[k]
  }

  function StateAfter(c: Config, events: seq<Event>): Buckets {
    if events == [] then map[] else Apply(c, StateAfter(c, events[..|events| - 1]), events[|events| - 1])
  }

  predicate ClockOk(events: seq<Event>) {
    (forall i :: 0 <= i < |events| ==> events[i].now >= 0.0) &&
    forall i, j :: 0 <= i < j < |events| ==> events[i].now <= events[j].now
  }

  lemma {:induction false} BucketsOk(c: Config, events: seq<Event>, key: string)
    requires ConfigOk(c) && ClockOk(events)
    ensures var st := StateAfter(c, events);
      key in st ==> BucketOk(c, st[key]) && events != [] && st[key].lastSeen <= events[|events| - 1].now
  {
    hide BucketOk, Decide;
    if events != [] {
      var n := |events| - 1;
      BucketsOk(c, events[..n], key);
      assert n > 0 ==> events[n - 1].now <= events[n].now;
      var st, e := StateAfter(c, events[..n]), events[n];
      if e.Call? && e.key == key {
        BucketKept(c, BucketOf(st, key), key, e.now, e.paired);
      }
    }
  }

  /** What happens without a call of the key leaves its bucket as it is, or sweeps it away. */
  lemma {:induction false} LeftAlone(c: Config, events: seq<Event>, between: seq<Event>, key: string)
    requires forall i :: 0 <= i < |between| ==> !(between[i].Call? && between[i].key == key)
    ensures var b := BucketOf(StateAfter(c, events + between), key); b.None? || b == BucketOf(StateAfter(c, events), key)
  {
    hide Decide;
    if between == [] {
      assert events + between == events;
    } else {
      var n := |between| - 1;
      LeftAlone(c, events, between[..n], key);
      assert (events + between)[..|events + between| - 1] == events + between[..n];
      assert (events + between)[|events + between| - 1] == between[n];
    }
  }

  /** At any point of any run: a paired caller is told to wait a cooldown at most. And whatever goes on
      in between, sweeps and calls of other keys: whoever waits out retryAfter is let in on the very
      next try exactly when the bucket has been swept or the cooldown is over, hence always when
      quarantines are at least as long as cooldowns. */
  lemma RunGuarantees(c: Config, events: seq<Event>, key: string, now: real, paired: bool,
                      between: seq<Event>, later: real, laterPaired: bool)
    requires ConfigOk(c) && ClockOk(events + [Call(key, now, paired)])
    requires forall i :: 0 <= i < |between| ==> !(between[i].Call? && between[i].key == key)
    ensures var d := Decide(c, BucketOf(StateAfter(c, events), key), key, now, paired);
      var b := BucketOf(StateAfter(c, events + [Call(key, now, paired)] + between), key);
      d.1.Refuse? ==>
        (paired ==> d.1.retryAfter <= c.cooldown) &&
        (later >= now + d.1.retryAfter ==>
           (Decide(c, b, key, later, laterPaired).1.Allow? <==> b.None? || d.0.blockedUntil <= later) &&
           (c.quarantine >= c.cooldown ==> Decide(c, b, key, later, laterPaired).1.Allow?))
  {
    hide BucketOk, Decide, StateAfter;
    var call := Call(key, now, paired);
    var s := BucketOf(StateAfter(c, events), key);
    ClockBefore(events, call);
    BucketsOk(c, events, key);
    AfterCall(c, events, key, now, paired);
    LeftAlone(c, events + [call], between, key);
    var d := Decide(c, s, key, now, paired);
    if d.1.Refuse? {
      RefusalWaits(c, s, key, now, paired);
      if paired {
        PairedWaitsAtMostCooldown(c, s, key, now);
      }
      if later >= now + d.1.retryAfter {
        NextTry(c, s, key, now, paired, later, laterPaired);
        StartsAfresh(c, key, later, laterPaired);
      }
    }
  }

  lemma ClockBefore(events: seq<Event>, e: Event)
    requires ClockOk(events + [e])
    ensures ClockOk(events) && e.now >= 0.0 && (events != [] ==> events[|events| - 1].now <= e.now)
  {
    var all := events + [e];
    assert all[|events|] == e;
    assert forall i :: 0 <= i < |events| ==> events[i] == all[i];
  }

  lemma AfterCall(c: Config, events: seq<Event>, key: string, now: real, paired: bool)
    ensures BucketOf(StateAfter(c, events + [Call(key, now, paired)]), key) ==
            Some(Decide(c, BucketOf(StateAfter(c, events), key), key, now, paired).0)
  {
    hide Decide;
    assert (events + [Call(key, now, paired)])[..|events|] == events;
  }

  /** No refusal names a wait below zero. */
  lemma RefusalWaits(c: Config, s: Option<Bucket>, key: string, now: real, paired: bool)
    requires ConfigOk(c)
    ensures var r := Decide(c, s, key, now, paired).1; r.Refuse? ==> r.retryAfter >= 0.0
  {
    hide Recent;
  }

  // ----- Who is let in -----------------------------------------------------------------------------------

  /** A call outside cooldown and quarantine is let in exactly when it makes at most the maximum of
      connections in the window since the last trip: the key's own, or the one that all callers
      without an identity share. */
  lemma LetInUpToMax(c: Config, s: Option<Bucket>, key: string, now: real, paired: bool)
    requires now >= 0.0 && (s.Some? ==> s.value.blockedUntil <= now && (paired || s.value.quarantinedUntil <= now))
    ensures var seen := CountAbove(if s.Some? then s.value.hits else [], now - c.window) + 1;
      Decide(c, s, key, now, paired).1.Allow? <==> seen <= if key == "anon:global" then c.anonMax else c.max
  {
    hide Recent, CountAbove;
    RecentAreAbove(Released(Entered(s, now), now, paired).hits, now, c.window);
  }

  /** A key without a bucket that is let in has one connection and no trip, cooldown or quarantine. */
  lemma StartsAfresh(c: Config, key: string, now: real, paired: bool)
    requires ConfigOk(c) && now >= 0.0
    ensures Decide(c, None, key, now, paired) == (Bucket([now], 0.0, now, 0, now, 0.0), Allow)
  {
    RecentEmpty(now, c.window);
    hide Recent;
    assert [] + [now] == [now];
  }

  /** The trip count: it starts anew when the window of the first trip is over. The trip that reaches the
      limit starts a quarantine, unless the caller is paired. */
  lemma TripCounts(c: Config, b: Bucket, key: string, now: real, paired: bool)
    requires b.blockedUntil <= now && b.quarantinedUntil <= now && Decide(c, Some(b), key, now, paired).1.Refuse?
    ensures var (b', r) := Decide(c, Some(b), key, now, paired); var anew := now > b.tripWinStart + c.window;
      b'.trips == (if anew then 1 else b.trips + 1) && b'.tripWinStart == (if anew then now else b.tripWinStart) &&
      r.reason == FlapRate && b'.hits == [] && b'.blockedUntil == now + c.cooldown &&
      (r.startsQuarantine <==> !paired && 0 < c.quarantineTrips <= b'.trips) &&
      r.retryAfter == (if r.startsQuarantine then c.quarantine else c.cooldown)
  {
    hide Recent;
  }

  /** A paired caller ends a quarantine, and the trips that led to it are forgotten. */
  lemma PairedEndsQuarantine(c: Config, b: Bucket, key: string, now: real)
    requires now < b.quarantinedUntil
    ensures var (b', r) := Decide(c, Some(b), key, now, true);
      b'.quarantinedUntil == 0.0 && b'.trips == if r.Refuse? && r.reason == FlapRate then 1 else 0
  {
    hide Recent;
  }

  /** The key's calls later than `from` among the first n events. */
  function CallsSince(events: seq<Event>, n: nat, key: string, from: real): nat
    requires n <= |events|
  {
    if n == 0 then 0
    else
      var hit := events[n - 1].Call? && events[n - 1].key == key && events[n - 1].now > from;
      CallsSince(events, n - 1, key, from) + (if hit then 1 else 0)
  }

  /** The key never makes more than its maximum of calls in a window. */
  ghost predicate Quiet(c: Config, events: seq<Event>, key: string) {
    forall i :: 0 <= i < |events| && events[i].Call? && events[i].key == key ==>
      CallsSince(events, i + 1, key, events[i].now - c.window) <= if key == "anon:global" then c.anonMax else c.max
  }

  function HitsOf(st: Buckets, key: string): seq<real> {
    if key in st then st[key].hits else []
  }

  /** The bucket of a key that was never refused: neither cooldown nor quarantine, and its hits are calls. */
  ghost predicate NeverTripped(c: Config, events: seq<Event>, n: nat, key: string)
    requires n <= |events|
  {
    var st := StateAfter(c, events[..n]);
    (key in st ==> st[key].blockedUntil <= 0.0 && st[key].quarantinedUntil <= 0.0) &&
    forall from :: CountAbove(HitsOf(st, key), from) <= CallsSince(events, n, key, from)
  }

  lemma PrefixState(c: Config, events: seq<Event>, n: nat)
    requires n < |events|
    ensures StateAfter(c, events[..n + 1]) == Apply(c, StateAfter(c, events[..n]), events[n])
  {
    assert events[..n + 1][..n] == events[..n];
  }

  lemma QuietDecide(c: Config, s: Option<Bucket>, key: string, now: real, paired: bool)
    requires now >= 0.0 && (s.Some? ==> s.value.blockedUntil <= 0.0 && s.value.quarantinedUntil <= 0.0)
    requires Decide(c, s, key, now, paired).1.Allow?
    ensures var d := Decide(c, s, key, now, paired).0;
      d.blockedUntil <= 0.0 && d.quarantinedUntil <= 0.0 &&
      d.hits == Recent(if s.Some? then s.value.hits else [], now, c.window) + [now]
  {
    hide Recent;
  }

  lemma QuietStep(c: Config, events: seq<Event>, n: nat, key: string)
    requires n < |events| && events[n].now >= 0.0 && c.window > 0.0
    requires Quiet(c, events, key) && NeverTripped(c, events, n, key)
    ensures NeverTripped(c, events, n + 1, key)
    ensures events[n].Call? && events[n].key == key ==>
      Decide(c, BucketOf(StateAfter(c, events[..n]), key), key, events[n].now, events[n].paired).1.Allow?
  {
    hide StateAfter, CountAbove, Decide, Recent;
    var st, e := StateAfter(c, events[..n]), events[n];
    PrefixState(c, events, n);
    var st' := StateAfter(c, events[..n + 1]);
    var s, hits := BucketOf(st, key), HitsOf(st, key);
    if e.Call? && e.key == key {
      assert CallsSince(events, n + 1, key, e.now - c.window) <= if key == "anon:global" then c.anonMax else c.max;
      assert CountAbove(hits, e.now - c.window) <= CallsSince(events, n, key, e.now - c.window);
      LetInUpToMax(c, s, key, e.now, e.paired);
      QuietDecide(c, s, key, e.now, e.paired);
    }
    forall from
      ensures CountAbove(HitsOf(st', key), from) <= CallsSince(events, n + 1, key, from)
    {
      NoneAbove(from);
      RecentAtMost(hits, e.now, c.window, from);
      CountMore(Recent(hits, e.now, c.window), e.now, from);
    }
  }

  lemma {:induction false} StaysQuiet(c: Config, events: seq<Event>, n: nat, key: string)
    requires n <= |events| && (forall i :: 0 <= i < |events| ==> events[i].now >= 0.0) && c.window > 0.0 && Quiet(c, events, key)
    ensures NeverTripped(c, events, n, key)
  {
    hide Quiet, NeverTripped;
    if n == 0 {
      NothingTripped(c, events, key);
    } else {
      StaysQuiet(c, events, n - 1, key);
      QuietStep(c, events, n - 1, key);
    }
  }

  lemma NothingTripped(c: Config, events: seq<Event>, key: string)
    ensures NeverTripped(c, events, 0, key)
  {
    assert events[..0] == [];
  }

  /** A key that keeps to its maximum per window is never refused, whatever other keys and sweeps do. */
  lemma QuietKeyAlwaysAllowed(c: Config, events: seq<Event>, i: nat, key: string)
    requires (forall i :: 0 <= i < |events| ==> events[i].now >= 0.0) && c.window > 0.0 && Quiet(c, events, key)
    requires i < |events| && events[i].Call? && events[i].key == key
    ensures Decide(c, BucketOf(StateAfter(c, events[..i]), key), key, events[i].now, events[i].paired).1.Allow?
  {
    hide Quiet, NeverTripped, StateAfter, Decide;
    StaysQuiet(c, events, i, key);
    QuietStep(c, events, i, key);
  }

  // ----- Refusals are enforced -----------------------------------------------------------------------------

  /** As long as a bucket cannot be swept, it stays as it is. */
  lemma {:induction false} BucketStays(c: Config, events: seq<Event>, between: seq<Event>, key: string, till: real)
    requires forall i :: 0 <= i < |between| ==> !(between[i].Call? && between[i].key == key) && between[i].now <= till
    requires var st := StateAfter(c, events); key in st && (key == ANON_KEY || till - st[key].lastSeen <= c.idle)
    ensures BucketOf(StateAfter(c, events + between), key) == BucketOf(StateAfter(c, events), key)
  {
    hide Decide;
    if between == [] {
      assert events + between == events;
    } else {
      var n := |between| - 1;
      BucketStays(c, events, between[..n], key, till);
      assert (events + between)[..|events + between| - 1] == events + between[..n];
      assert (events + between)[|events + between| - 1] == between[n];
    }
  }

  /** What a refusal leaves behind: whoever is not paired meets a quarantine or a cooldown until retryAfter
      is over. */
  lemma RefusalBlocks(c: Config, s: Option<Bucket>, key: string, now: real, paired: bool, later: real)
    requires now >= 0.0 && var r := Decide(c, s, key, now, paired).1; r.Refuse? && now <= later < now + r.retryAfter
    ensures var (b, r) := Decide(c, s, key, now, paired);
      b.lastSeen == now && var next := Decide(c, Some(b), key, later, false).1;
      next.Refuse? && !next.startsQuarantine && next.reason != FlapRate && next.retryAfter >= now + r.retryAfter - later
  {
    hide Recent;
  }

  /** After a refusal the next call of the key, if not paired, is refused as long as retryAfter is not over,
      whatever sweeps and calls of other keys lie between, and told to wait at least for the rest. */
  lemma RefusalEnforced(c: Config, events: seq<Event>, key: string, now: real, paired: bool, between: seq<Event>, later: real)
    requires now >= 0.0 && forall i :: 0 <= i < |between| ==> !(between[i].Call? && between[i].key == key) && between[i].now <= later
    requires var r := Decide(c, BucketOf(StateAfter(c, events), key), key, now, paired).1;
      r.Refuse? && (key == ANON_KEY || r.retryAfter <= c.idle) && now <= later < now + r.retryAfter
    ensures var r := Decide(c, BucketOf(StateAfter(c, events), key), key, now, paired).1;
      var st := StateAfter(c, events + [Call(key, now, paired)] + between);
      var next := Decide(c, BucketOf(st, key), key, later, false).1;
      next.Refuse? && next.reason != FlapRate && next.retryAfter >= now + r.retryAfter - later
  {
    hide Decide, StateAfter;
    RefusalBlocks(c, BucketOf(StateAfter(c, events), key), key, now, paired, later);
    AfterCall(c, events, key, now, paired);
    BucketStays(c, events + [Call(key, now, paired)], between, key, later);
  }
}
