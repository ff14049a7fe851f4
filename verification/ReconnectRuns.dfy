/** What the reconnect throttle guarantees over whole runs: any number of devices, any load
    bands, sweeps in between, under a clock that does not go back. */
module ReconnectRuns {
  import opened Arithmetic
  import opened SlidingWindow
  import opened Wrappers
  import opened Reconnect

  datatype Event = Call(device: string, now: real, band: Band) | SweepAt(now: real)

  type Buckets = map<string, Bucket>

  function BucketOf(st: Buckets, device: string): Option<Bucket> {
    if device in st then Some(st[device]) else None
  }

  function Answer(c: Config, startedAt: real, st: Buckets, device: string, now: real, band: Band): (Bucket, Result) {
    Decide(c, Warm(c, startedAt, now), BucketOf(st, device), now, band)
  }

  function Apply(c: Config, startedAt: real, st: Buckets, e: Event): Buckets {
    match e
    case Call(device, now, band) => st[device := Answer(c, startedAt, st, device, now, band).0]
    case SweepAt(now) => map k | k in st && !Idle(c, st[k], now) :: st[k]
  }

  function StateAfter(c: Config, startedAt: real, events: seq<Event>): Buckets {
    if events == [] then map[]
    else Apply(c, startedAt, StateAfter(c, startedAt, events[..|events| - 1]), events[|events| - 1])
  }

  predicate ClockOk(events: seq<Event>) {
    forall i, j :: 0 <= i < j < |events| ==> events[i].now <= events[j].now
  }

  /** Event i lets the device in. */
  predicate LetsIn(c: Config, startedAt: real, events: seq<Event>, i: nat, device: string)
    requires i < |events|
  {
    events[i].Call? && events[i].device == device &&
    Answer(c, startedAt, StateAfter(c, startedAt, events[..i]), device, events[i].now, events[i].band).1.Allow?
  }

  /** Allowed reconnects of the device later than `from` among the first n events. */
  function AllowedSince(c: Config, startedAt: real, events: seq<Event>, n: nat, device: string, from: real): nat
    requires n <= |events|
  {
    if n == 0 then 0
    else
      var hit := LetsIn(c, startedAt, events, n - 1, device) && events[n - 1].now > from;
      AllowedSince(c, startedAt, events, n - 1, device, from) + (if hit then 1 else 0)
  }

  /** Calls of the device later than `from` among the first n events. */
  function CallsSince(events: seq<Event>, n: nat, device: string, from: real): nat
    requires n <= |events|
  {
    if n == 0 then 0
    else
      var hit := events[n - 1].Call? && events[n - 1].device == device && events[n - 1].now > from;
      CallsSince(events, n - 1, device, from) + (if hit then 1 else 0)
  }

  // ----- Hits -------------------------------------------------------------------------------------

  function HitsOf(st: Buckets, device: string): seq<real> {
    if device in st then st[device].hits else []
  }

  // ----- The ceiling ---------------------------------------------------------------------------------

  /** Counting allowed reconnects from a later moment gives no more of them. */
  lemma {:induction false} AllowedLater(c: Config, startedAt: real, events: seq<Event>, n: nat, device: string, from: real, later: real)
    requires n <= |events| && from <= later
    ensures AllowedSince(c, startedAt, events, n, device, later) <= AllowedSince(c, startedAt, events, n, device, from)
  {
    hide LetsIn;
    if n > 0 {
      AllowedLater(c, startedAt, events, n - 1, device, from, later);
    }
  }

  /** The bucket remembers every allowed reconnect that is still inside the window, and none is
      later than the bucket's last call. */
  ghost predicate Remembers(c: Config, startedAt: real, events: seq<Event>, n: nat, device: string, clock: real)
    requires n <= |events|
  {
    var st := StateAfter(c, startedAt, events[..n]);
    (forall from :: from >= clock - c.window ==> AllowedSince(c, startedAt, events, n, device, from) <= CountAbove(HitsOf(st, device), from)) &&
    (device in st ==> AllowedSince(c, startedAt, events, n, device, st[device].lastSeen) == 0 && st[device].lastSeen <= clock)
  }

  /** What one call does to the hits of the bucket it entered. */
  lemma DecideHits(c: Config, warmup: bool, s: Option<Bucket>, now: real, band: Band, from: real)
    requires from >= now - c.window
    ensures var b, d := Entered(c, s, now), Decide(c, warmup, s, now, band);
      d.0.lastSeen == now &&
      CountAbove(d.0.hits, from) >= CountAbove(b.hits, from) + (if d.1.Allow? && now > from then 1 else 0) &&
      (d.1.Allow? ==> |d.0.hits| <= c.hardCeiling && (warmup || |d.0.hits| <= c.baseMax) && |d.0.hits| == CountAbove(b.hits, now - c.window) + 1)
  {
    hide Recent, CountAbove, Backoff;
    var b := Entered(c, s, now);
    RecentCounts(b.hits, now, c.window, from);
    RecentAreAbove(b.hits, now, c.window);
    CountMore(Recent(b.hits, now, c.window), now, from);
  }

  lemma PrefixState(c: Config, startedAt: real, events: seq<Event>, n: nat)
    requires n < |events|
    ensures StateAfter(c, startedAt, events[..n + 1]) == Apply(c, startedAt, StateAfter(c, startedAt, events[..n]), events[n])
  {
    assert events[..n + 1][..n] == events[..n];
  }

  /** The bucket a call enters still holds enough. */
  lemma EnteredRemembers(c: Config, startedAt: real, events: seq<Event>, n: nat, device: string, clock: real, now: real, from: real)
    requires n <= |events| && c.idleReset >= c.window >= 0.0 && clock <= now && from >= now - c.window
    requires Remembers(c, startedAt, events, n, device, clock)
    ensures var st := StateAfter(c, startedAt, events[..n]);
      AllowedSince(c, startedAt, events, n, device, from) <= CountAbove(Entered(c, BucketOf(st, device), now).hits, from) &&
      (device in st && Idle(c, st[device], now) ==> AllowedSince(c, startedAt, events, n, device, from) == 0) &&
      AllowedSince(c, startedAt, events, n, device, now) == 0
  {
    hide AllowedSince, StateAfter, CountAbove;
    var st := StateAfter(c, startedAt, events[..n]);
    NoneAbove(from);
    NoneAbove(now);
    if device in st {
      AllowedLater(c, startedAt, events, n, device, st[device].lastSeen, now);
      if Idle(c, st[device], now) {
        AllowedLater(c, startedAt, events, n, device, st[device].lastSeen, from);
      }
    }
  }

  lemma RemembersStep(c: Config, startedAt: real, events: seq<Event>, n: nat, device: string, clock: real)
    requires n < |events| && c.idleReset >= c.window >= 0.0 && clock <= events[n].now
    requires Remembers(c, startedAt, events, n, device, clock)
    ensures Remembers(c, startedAt, events, n + 1, device, events[n].now)
  {
    hide StateAfter, CountAbove, Decide, Entered;
    var st, e := StateAfter(c, startedAt, events[..n]), events[n];
    PrefixState(c, startedAt, events, n);
    var st' := StateAfter(c, startedAt, events[..n + 1]);
    EnteredRemembers(c, startedAt, events, n, device, clock, e.now, e.now);
    if e.Call? && e.device == device {
      DecideHits(c, Warm(c, startedAt, e.now), BucketOf(st, device), e.now, e.band, e.now);
    }
    forall from | from >= e.now - c.window
      ensures AllowedSince(c, startedAt, events, n + 1, device, from) <= CountAbove(HitsOf(st', device), from)
    {
      EnteredRemembers(c, startedAt, events, n, device, clock, e.now, from);
      if e.Call? && e.device == device {
        DecideHits(c, Warm(c, startedAt, e.now), BucketOf(st, device), e.now, e.band, from);
      }
    }
  }

  lemma {:induction false} AllRemembered(c: Config, startedAt: real, events: seq<Event>, n: nat, device: string)
    requires ClockOk(events) && 0 < n <= |events| && c.idleReset >= c.window >= 0.0
    ensures Remembers(c, startedAt, events, n, device, events[n - 1].now)
  {
    hide Remembers;
    if n == 1 {
      NothingYet(c, startedAt, events, device, events[0].now);
      RemembersStep(c, startedAt, events, 0, device, events[0].now);
    } else {
      AllRemembered(c, startedAt, events, n - 1, device);
      assert events[n - 2].now <= events[n - 1].now;
      RemembersStep(c, startedAt, events, n - 1, device, events[n - 2].now);
    }
  }

  lemma NothingYet(c: Config, startedAt: real, events: seq<Event>, device: string, clock: real)
    ensures Remembers(c, startedAt, events, 0, device, clock)
  {
    assert events[..0] == [];
  }

  /** Whenever a device is let in, its allowed reconnects within the window that ends there are
      at most the hard ceiling, and at most the base maximum once the warm-up is over. */
  lemma CeilingHolds(c: Config, startedAt: real, events: seq<Event>, i: nat, device: string)
    requires ClockOk(events) && i < |events| && c.idleReset >= c.window >= 0.0
    requires LetsIn(c, startedAt, events, i, device)
    ensures var t := events[i].now; var n := AllowedSince(c, startedAt, events, i + 1, device, t - c.window);
      n <= c.hardCeiling && (!Warm(c, startedAt, t) ==> n <= c.baseMax)
  {
    hide StateAfter, CountAbove, Decide, Entered, Remembers;
    var e, t := events[i], events[i].now;
    if i == 0 {
      NothingYet(c, startedAt, events, device, t);
    } else {
      AllRemembered(c, startedAt, events, i, device);
      assert events[i - 1].now <= t;
    }
    EnteredRemembers(c, startedAt, events, i, device, if i == 0 then t else events[i - 1].now, t, t - c.window);
    DecideHits(c, Warm(c, startedAt, t), BucketOf(StateAfter(c, startedAt, events[..i]), device), t, e.band, t - c.window);
  }

  // ----- A quiet device is never refused -------------------------------------------------------------------

  /** The device never makes more than the base maximum of calls per window. */
  ghost predicate Quiet(c: Config, events: seq<Event>, device: string) {
    forall i :: 0 <= i < |events| && events[i].Call? && events[i].device == device ==>
      CallsSince(events, i + 1, device, events[i].now - c.window) <= c.baseMax
  }

  /** The bucket of a device that was never refused: no block, and its hits are calls. */
  ghost predicate Unblocked(c: Config, startedAt: real, events: seq<Event>, n: nat, device: string)
    requires n <= |events|
  {
    var st := StateAfter(c, startedAt, events[..n]);
    (device in st ==> st[device].blockedUntil <= 0.0) &&
    forall from :: CountAbove(HitsOf(st, device), from) <= CallsSince(events, n, device, from)
  }

  lemma QuietDecide(c: Config, warmup: bool, s: Option<Bucket>, now: real, band: Band)
    requires now >= 0.0 && (s.Some? ==> s.value.blockedUntil <= 0.0) && c.baseMax <= c.hardCeiling
    requires CountAbove(Entered(c, s, now).hits, now - c.window) + 1 <= c.baseMax
    ensures var b, d := Entered(c, s, now), Decide(c, warmup, s, now, band);
      d.1.Allow? && d.0.blockedUntil <= 0.0 && d.0.hits == Recent(b.hits, now, c.window) + [now]
  {
    hide Recent, CountAbove, Backoff;
    RecentAreAbove(Entered(c, s, now).hits, now, c.window);
  }

  lemma UnblockedStep(c: Config, startedAt: real, events: seq<Event>, n: nat, device: string)
    requires n < |events| && events[n].now >= 0.0 && c.baseMax <= c.hardCeiling && c.window > 0.0
    requires Quiet(c, events, device) && Unblocked(c, startedAt, events, n, device)
    ensures Unblocked(c, startedAt, events, n + 1, device)
    ensures events[n].Call? && events[n].device == device ==> LetsIn(c, startedAt, events, n, device)
  {
    hide StateAfter, CountAbove, Decide, Recent;
    var st, e := StateAfter(c, startedAt, events[..n]), events[n];
    PrefixState(c, startedAt, events, n);
    var st' := StateAfter(c, startedAt, events[..n + 1]);
    var s := BucketOf(st, device);
    if e.Call? && e.device == device {
      var b := Entered(c, s, e.now);
      assert CallsSince(events, n + 1, device, e.now - c.window) <= c.baseMax;
      NoneAbove(e.now - c.window);
      assert CountAbove(b.hits, e.now - c.window) <= CallsSince(events, n, device, e.now - c.window);
      QuietDecide(c, Warm(c, startedAt, e.now), s, e.now, e.band);
      forall from
        ensures CountAbove(HitsOf(st', device), from) <= CallsSince(events, n + 1, device, from)
      {
        NoneAbove(from);
        RecentAtMost(b.hits, e.now, c.window, from);
        CountMore(Recent(b.hits, e.now, c.window), e.now, from);
      }
    } else {
      forall from
        ensures CountAbove(HitsOf(st', device), from) <= CallsSince(events, n + 1, device, from)
      {
        NoneAbove(from);
      }
    }
  }

  lemma {:induction false} StaysUnblocked(c: Config, startedAt: real, events: seq<Event>, n: nat, device: string)
    requires n <= |events| && (forall i :: 0 <= i < |events| ==> events[i].now >= 0.0) && c.baseMax <= c.hardCeiling && c.window > 0.0
    requires Quiet(c, events, device)
    ensures Unblocked(c, startedAt, events, n, device)
  {
    hide Quiet, Unblocked;
    if n == 0 {
      UnblockedAtFirst(c, startedAt, events, device);
    } else {
      StaysUnblocked(c, startedAt, events, n - 1, device);
      UnblockedStep(c, startedAt, events, n - 1, device);
    }
  }

  lemma UnblockedAtFirst(c: Config, startedAt: real, events: seq<Event>, device: string)
    ensures Unblocked(c, startedAt, events, 0, device)
  {
    assert events[..0] == [];
  }

  /** A device that keeps to the base maximum per window is never refused, whatever the bands,
      the other devices and the sweeps do. */
  lemma QuietDeviceAlwaysAllowed(c: Config, startedAt: real, events: seq<Event>, i: nat, device: string)
    requires (forall i :: 0 <= i < |events| ==> events[i].now >= 0.0) && c.baseMax <= c.hardCeiling && c.window > 0.0
    requires Quiet(c, events, device) && i < |events| && events[i].Call? && events[i].device == device
    ensures LetsIn(c, startedAt, events, i, device)
  {
    hide Quiet, Unblocked, LetsIn;
    StaysUnblocked(c, startedAt, events, i, device);
    UnblockedStep(c, startedAt, events, i, device);
  }

  // ----- A patient client is readmitted ----------------------------------------------------------------------

  /** A try of one device; swept says that a sweep has removed its bucket since the last one. */
  datatype Try = Try(now: real, band: Band, swept: bool)

  function Presented(s: Option<Bucket>, t: Try): Option<Bucket> {
    if t.swept then None else s
  }

  /** All tries are refused although each waits out the retryAfter of the one before. */
  predicate AllRefused(c: Config, startedAt: real, s: Option<Bucket>, tries: seq<Try>)
    decreases |tries|
  {
    tries == [] ||
    var t := tries[0];
    var d := Decide(c, Warm(c, startedAt, t.now), Presented(s, t), t.now, t.band);
    (t.swept ==> s.Some? && Idle(c, s.value, t.now)) &&
    d.1.Refuse? && (|tries| > 1 ==> tries[1].now >= t.now + d.1.retryAfter) &&
    AllRefused(c, startedAt, Some(d.0), tries[1..])
  }

  predicate ConfigOk(c: Config) {
    1 <= c.baseMax <= c.hardCeiling && c.window > 0.0 && c.baseBackoff >= 0.0 && c.maxLevel >= 1 &&
    c.elevatedMult >= 1.0 && c.criticalMult >= 1.0
  }

  /** What every bucket of a run keeps: its hits are not in its future. */
  predicate Past(s: Bucket) {
    forall i :: 0 <= i < |s.hits| ==> s.hits[i] <= s.lastSeen
  }

  /** A sweep cannot be noticed: a bucket it may remove answers like no bucket. */
  lemma SweepIsInvisible(c: Config, warmup: bool, s: Bucket, now: real, band: Band)
    requires Idle(c, s, now)
    ensures Decide(c, warmup, Some(s), now, band) == Decide(c, warmup, None, now, band)
  {
    hide Recent, Backoff;
  }

  lemma PastKept(c: Config, warmup: bool, s: Option<Bucket>, now: real, band: Band)
    requires s.Some? ==> Past(s.value) && s.value.lastSeen <= now
    ensures var d := Decide(c, warmup, s, now, band); Past(d.0) && d.0.lastSeen == now
  {
    hide Recent, Backoff;
    RecentPast(Entered(c, s, now).hits, now, c.window, now);
  }

  lemma {:induction false} PowerGrows(a: nat, b: nat)
    requires a <= b
    ensures RealPow2(a) <= RealPow2(b)
  {
    if a < b {
      PowerGrows(a, b - 1);
    }
  }

  /** The backoff a level guarantees in every band. */
  function SureBackoff(c: Config, level: nat): real {
    MinReal(RawBackoff(c, level), c.maxBackoff)
  }

  lemma RawGrows(c: Config, k: nat, level: nat)
    requires c.baseBackoff >= 0.0 && k <= level
    ensures 0.0 <= RawBackoff(c, k) <= RawBackoff(c, level)
  {
    hide RealPow2;
    var a, b := RealPow2(if k > 0 then k - 1 else 0), RealPow2(if level > 0 then level - 1 else 0);
    PowerGrows(if k > 0 then k - 1 else 0, if level > 0 then level - 1 else 0);
    ScaleUp(c.baseBackoff, a, b);
  }

  lemma BackoffAtLeast(c: Config, k: nat, level: nat, band: Band)
    requires ConfigOk(c) && k <= level
    ensures Backoff(c, level, band) >= SureBackoff(c, k)
  {
    hide RawBackoff;
    RawGrows(c, k, level);
    ClippedAtLeast(RawBackoff(c, k), RawBackoff(c, level), Multiplier(c, band), c.maxBackoff);
  }

  lemma ClippedAtLeast(p: real, q: real, m: real, most: real)
    requires 0.0 <= p <= q && m >= 1.0
    ensures MinReal(q * m, most) >= MinReal(p, most)
  {
    assert q * m - q == q * (m - 1.0);
    ScaleUp(q, 0.0, m - 1.0);
  }

  lemma ScaleUp(f: real, a: real, b: real)
    requires f >= 0.0 && a <= b && a >= 0.0
    ensures 0.0 <= f * a <= f * b
  {
  }

  /** A try that comes when the block is over and everything in the window has expired is let in. */
  lemma ExpiredIsAllowed(c: Config, warmup: bool, s: Option<Bucket>, now: real, band: Band)
    requires ConfigOk(c) && now >= 0.0
    requires s.Some? ==> Past(s.value) && s.value.blockedUntil <= now && (Idle(c, s.value, now) || now - s.value.lastSeen >= c.window)
    ensures Decide(c, warmup, s, now, band).1.Allow?
  {
    hide Recent, Backoff;
    var b := Entered(c, s, now);
    if b.hits != [] {
      RecentPast(b.hits, now, c.window, s.value.lastSeen);
    }
    assert Recent(b.hits, now, c.window) == [] by {
      RecentEmpty(now, c.window);
    }
  }

  /** A refusal outside a backoff raises the level by one, up to the maximum. */
  lemma RefusalClimbs(c: Config, warmup: bool, s: Option<Bucket>, now: real, band: Band)
    requires Decide(c, warmup, s, now, band).1.Refuse?
    ensures var d := Decide(c, warmup, s, now, band);
      d.0.level == MinNat(Entered(c, s, now).level + 1, c.maxLevel) && d.1.retryAfter == Backoff(c, d.0.level, band) &&
      d.0.blockedUntil == now + d.1.retryAfter && d.0.lastSeen == now
  {
    hide Recent, Backoff;
  }

  /** After j refusals in a row the level is at least j, and so a patient client meets no
      more refusals once the backoff of some level covers the window. */
  lemma {:induction false} RefusalsBounded(c: Config, startedAt: real, s: Option<Bucket>, tries: seq<Try>, j: nat, k: nat)
    requires ConfigOk(c) && 1 <= k <= c.maxLevel && SureBackoff(c, k) >= c.window && j <= k
    requires AllRefused(c, startedAt, s, tries) && (tries != [] ==> tries[0].now >= 0.0)
    requires s.Some? ==> Past(s.value) && (tries != [] ==> s.value.lastSeen <= tries[0].now)
    requires j > 0 ==> s.Some? && s.value.level >= j
    requires j > 0 && tries != [] ==> s.value.blockedUntil <= tries[0].now
    requires j == k && tries != [] ==> tries[0].now - s.value.lastSeen >= c.window
    ensures |tries| <= k - j
    decreases |tries|
  {
    if tries != [] {
      hide Decide, Backoff, SureBackoff, Past, Entered, Recent;
      var t := tries[0];
      var shown, warm := Presented(s, t), Warm(c, startedAt, t.now);
      var d := Decide(c, warm, shown, t.now, t.band);
      if shown.None? {
        if j > 0 {
          ExpiredIsAllowed(c, warm, shown, t.now, t.band);
        }
      } else if j > 0 && (j == k || Idle(c, s.value, t.now)) {
        ExpiredIsAllowed(c, warm, shown, t.now, t.band);
      }
      assert j < k;
      EnteredLevel(c, shown, t.now);
      RefusalClimbs(c, warm, shown, t.now, t.band);
      PastKept(c, warm, shown, t.now, t.band);
      if |tries| > 1 {
        BackoffAtLeast(c, j + 1, d.0.level, t.band);
        SureIsNonNegative(c, k, j + 1);
      }
      RefusalsBounded(c, startedAt, Some(d.0), tries[1..], j + 1, k);
    }
  }

  lemma EnteredLevel(c: Config, s: Option<Bucket>, now: real)
    ensures s.Some? && !Idle(c, s.value, now) ==> Entered(c, s, now).level == s.value.level
  {
  }

  lemma SureIsNonNegative(c: Config, k: nat, j: nat)
    requires ConfigOk(c) && SureBackoff(c, k) >= c.window
    ensures SureBackoff(c, j) >= 0.0
  {
    hide RawBackoff;
    RawGrows(c, j, j);
  }

  /** A client that always waits out retryAfterMs is refused at most k times in a row, for every
      level k whose backoff covers the window in every band. */
  lemma PatientClientReadmitted(c: Config, startedAt: real, s: Option<Bucket>, tries: seq<Try>, k: nat)
    requires ConfigOk(c) && 1 <= k <= c.maxLevel && SureBackoff(c, k) >= c.window
    requires tries != [] && tries[0].now >= 0.0
    requires s.Some? ==> Past(s.value) && s.value.lastSeen <= tries[0].now
    requires AllRefused(c, startedAt, s, tries)
    ensures |tries| <= k
  {
    RefusalsBounded(c, startedAt, s, tries, 0, k);
  }

  /** In a run every bucket is as PatientClientReadmitted asks. */
  lemma {:induction false} BucketsArePast(c: Config, startedAt: real, events: seq<Event>, device: string)
    requires ClockOk(events)
    ensures var st := StateAfter(c, startedAt, events);
      device in st ==> Past(st[device]) && events != [] && st[device].lastSeen <= events[|events| - 1].now
  {
    hide Past, Decide;
    if events != [] {
      var n := |events| - 1;
      BucketsArePast(c, startedAt, events[..n], device);
      assert n > 0 ==> events[n - 1].now <= events[n].now;
      var st, e := StateAfter(c, startedAt, events[..n]), events[n];
      if e.Call? && e.device == device {
        PastKept(c, Warm(c, startedAt, e.now), BucketOf(st, device), e.now, e.band);
      }
    }
  }

  // ----- Backoffs are enforced -------------------------------------------------------------------------------

  predicate NoCallOf(events: seq<Event>, device: string) {
    forall i :: 0 <= i < |events| ==> !(events[i].Call? && events[i].device == device)
  }

  /** As long as a bucket is not idle, sweeps and the calls of others leave it alone. */
  lemma {:induction false} BucketStays(c: Config, startedAt: real, events: seq<Event>, between: seq<Event>, device: string, till: real)
    requires NoCallOf(between, device) && forall i :: 0 <= i < |between| ==> between[i].now <= till
    requires var st := StateAfter(c, startedAt, events); device in st && !Idle(c, st[device], till)
    ensures BucketOf(StateAfter(c, startedAt, events + between), device) == BucketOf(StateAfter(c, startedAt, events), device)
  {
    hide Decide;
    if between == [] {
      assert events + between == events;
    } else {
      var n := |between| - 1;
      BucketStays(c, startedAt, events, between[..n], device, till);
      var all := events + between;
      assert all[..|all| - 1] == events + between[..n];
      assert all[|all| - 1] == between[n];
    }
  }

  lemma AfterCall(c: Config, startedAt: real, events: seq<Event>, device: string, now: real, band: Band)
    ensures BucketOf(StateAfter(c, startedAt, events + [Call(device, now, band)]), device) ==
            Some(Answer(c, startedAt, StateAfter(c, startedAt, events), device, now, band).0)
  {
    hide Answer;
    var all := events + [Call(device, now, band)];
    assert all[..|events|] == events;
  }

  /** What a refusal leaves in the bucket. */
  lemma RefusalBlocks(c: Config, warmup: bool, s: Option<Bucket>, now: real, band: Band)
    requires Decide(c, warmup, s, now, band).1.Refuse?
    ensures var (b, r) := Decide(c, warmup, s, now, band);
            b.lastSeen == now && b.lastThrottleAt == now && b.blockedUntil == now + r.retryAfter && b.level == r.rung
  {
    hide Recent, Backoff;
  }

  /** A call before the end of a block that is still remembered is refused, one level up. */
  lemma BlockedIsRefused(c: Config, warmup: bool, b: Bucket, now: real, band: Band)
    requires now < b.blockedUntil && !Idle(c, b, now)
    ensures var r := Decide(c, warmup, Some(b), now, band).1;
            r.Refuse? && r.reason == InBackoff && r.rung == (if b.level < c.maxLevel then b.level + 1 else c.maxLevel) &&
            r.retryAfter == Backoff(c, r.rung, band)
  {
    hide Recent, Backoff;
  }

  /** After a refusal the next call of the device is refused if it comes before retryAfter is over,
      whatever sweeps and calls of other devices lie between, and its level is one higher, up to the
      maximum. */
  lemma BackoffEnforced(c: Config, startedAt: real, events: seq<Event>, device: string, now: real, band: Band,
                        between: seq<Event>, later: real, laterBand: Band)
    requires NoCallOf(between, device) && forall i :: 0 <= i < |between| ==> between[i].now <= later
    requires now <= later
    requires var r := Answer(c, startedAt, StateAfter(c, startedAt, events), device, now, band).1;
             r.Refuse? && r.retryAfter <= c.idleReset && later < now + r.retryAfter
    ensures var r := Answer(c, startedAt, StateAfter(c, startedAt, events), device, now, band).1;
            var st := StateAfter(c, startedAt, events + [Call(device, now, band)] + between);
            var next := Answer(c, startedAt, st, device, later, laterBand).1;
            next.Refuse? && next.reason == InBackoff && next.rung == (if r.rung < c.maxLevel then r.rung + 1 else c.maxLevel) &&
            next.retryAfter == Backoff(c, next.rung, laterBand)
  {
    hide Decide, StateAfter, Backoff;
    var st := StateAfter(c, startedAt, events);
    RefusalBlocks(c, Warm(c, startedAt, now), BucketOf(st, device), now, band);
    AfterCall(c, startedAt, events, device, now, band);
    BucketStays(c, startedAt, events + [Call(device, now, band)], between, device, later);
    BlockedIsRefused(c, Warm(c, startedAt, later), Answer(c, startedAt, st, device, now, band).0, later, laterBand);
  }

  /** The waits: the base backoff on level 1, twice as long on each further level, times the factor of
      the load band, and never more than the maximum. */
  lemma BackoffIs(c: Config, level: nat)
    requires level >= 1
    ensures RawBackoff(c, 1) == c.baseBackoff && RawBackoff(c, level + 1) == 2.0 * RawBackoff(c, level)
    ensures Backoff(c, level, Normal) == MinReal(RawBackoff(c, level), c.maxBackoff)
    ensures Backoff(c, level, Elevated) == MinReal(RawBackoff(c, level) * c.elevatedMult, c.maxBackoff)
    ensures Backoff(c, level, Critical) == MinReal(RawBackoff(c, level) * c.criticalMult, c.maxBackoff)
  {
    var p := RealPow2(level - 1);
    assert RealPow2(level) == 2.0 * p;
    assert c.baseBackoff * (2.0 * p) == 2.0 * (c.baseBackoff * p);
  }

  /** The level after an allowed call that comes after a refusal, or after one that stepped down: the
      same within the calm spell, one lower after it. */
  lemma CalmStepsDown(c: Config, warmup: bool, b: Bucket, now: real, band: Band)
    requires !Idle(c, b, now) && Decide(c, warmup, Some(b), now, band).1.Allow?
    ensures var (b', r) := Decide(c, warmup, Some(b), now, band); var down := b.level > 0 && now - b.lastThrottleAt > c.release;
            r.level == b'.level == (if down then b.level - 1 else b.level) &&
            b'.lastThrottleAt == (if down then now else b.lastThrottleAt) && b'.blockedUntil == b.blockedUntil <= now
  {
    hide Recent;
  }

  /** A device the throttle does not know, or has not seen for longer than the reset, starts afresh: one
      call, level 0, no block. */
  lemma StartsAfresh(c: Config, warmup: bool, s: Option<Bucket>, now: real, band: Band)
    requires now >= 0.0 && 1 <= c.baseMax <= c.hardCeiling && (s.Some? ==> now - s.value.lastSeen > c.idleReset)
    ensures Decide(c, warmup, s, now, band) == (Bucket([now], 0, 0.0, 0.0, now), Allow(0))
  {
    RecentEmpty(now, c.window);
    hide Recent;
    assert [] + [now] == [now];
  }

  /** Outside a block a call is counted, refused or not, and the calls that have left the window are
      dropped; inside one the count stands still. */
  lemma CallIsCounted(c: Config, warmup: bool, b: Bucket, now: real, band: Band, from: real)
    requires !Idle(c, b, now) && from >= now - c.window
    ensures var hits := Decide(c, warmup, Some(b), now, band).0.hits;
      if now < b.blockedUntil then hits == b.hits
      else CountAbove(hits, from) == CountAbove(b.hits, from) + (if now > from then 1 else 0) &&
           |hits| == CountAbove(hits, now - c.window) + (if c.window > 0.0 then 0 else 1)
  {
    hide Recent, CountAbove, Backoff;
    if now >= b.blockedUntil {
      var recent := Recent(b.hits, now, c.window);
      RecentCounts(b.hits, now, c.window, from);
      CountMore(recent, now, from);
      RecentCounts(b.hits, now, c.window, now - c.window);
      CountMore(recent, now, now - c.window);
      RecentAreAbove(b.hits, now, c.window);
    }
  }

  /** Why a call outside a block is refused: over the ceiling, or else over the base maximum once the
      warm-up is past; it is told how many calls of its window were seen, this one included. */
  lemma RefusalReason(c: Config, startedAt: real, st: Buckets, device: string, now: real, band: Band)
    requires device in st && !Idle(c, st[device], now) && st[device].blockedUntil <= now
    ensures var r := Answer(c, startedAt, st, device, now, band).1; var seen := CountAbove(st[device].hits, now - c.window) + 1;
            (r.Refuse? <==> seen > c.hardCeiling || (startedAt + c.warmup <= now && seen > c.baseMax)) &&
            (r.Refuse? ==> r.observed == seen &&
                           (if seen > c.hardCeiling then r.reason == HardCeiling && r.allowed == c.hardCeiling
                            else r.reason == Rate && r.allowed == c.baseMax))
  {
    hide Recent, Backoff, CountAbove;
    RecentAreAbove(st[device].hits, now, c.window);
  }
}
