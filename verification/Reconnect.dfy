/** The load-aware per-device reconnect throttle. Times are milliseconds. */
module Reconnect {
  import opened Arithmetic
  import opened SlidingWindow
  import opened Wrappers

  datatype Band = Normal | Elevated | Critical

  datatype Config = Config(
    window: real, baseMax: int, hardCeiling: int, baseBackoff: real, maxBackoff: real, maxLevel: nat,
    release: real, idleReset: real, warmup: real, elevatedMult: real, criticalMult: real)

  datatype Bucket = Bucket(hits: seq<real>, level: nat, blockedUntil: real, lastThrottleAt: real, lastSeen: real)

  datatype Reason = InBackoff | HardCeiling | Rate

  datatype Result =
    | Allow(level: nat)
    | Refuse(retryAfter: real, reason: Reason, observed: nat, allowed: int, rung: nat)

  function Multiplier(c: Config, band: Band): real {
    match band
    case Critical => c.criticalMult
    case Elevated => c.elevatedMult
    case Normal => 1.0
  }

  function RealPow2(n: nat): (p: real)
    ensures p >= 1.0
  {
    if n == 0 then 1.0 else 2.0 * RealPow2(n - 1)
  }

  /** The backoff of a level of at least 1, before the load band is taken into account. */
  function RawBackoff(c: Config, level: nat): real {
    c.baseBackoff * RealPow2(if level > 0 then level - 1 else 0)
  }

  function Backoff(c: Config, level: nat, band: Band): real {
    MinReal(RawBackoff(c, level) * Multiplier(c, band), c.maxBackoff)
  }

  // ----- One call, as a function of the device's bucket ---------------------------------------

  function NewBucket(now: real): Bucket {
    Bucket([], 0, 0.0, 0.0, now)
  }

  /** The bucket when a call comes in: fresh for an unknown or long quiet device. */
  function Entered(c: Config, s: Option<Bucket>, now: real): Bucket {
    if s.None? || now - s.value.lastSeen > c.idleReset then NewBucket(now) else s.value.(lastSeen := now)
  }

  function Rejected(c: Config, s: Bucket, now: real, band: Band, reason: Reason, observed: nat, allowed: int): (Bucket, Result) {
    var level := MinNat(s.level + 1, c.maxLevel);
    var backoff := Backoff(c, level, band);
    (s.(level := level, blockedUntil := now + backoff, lastThrottleAt := now), Refuse(backoff, reason, observed, allowed, level))
  }

  function Allowed(c: Config, s: Bucket, now: real): (Bucket, Result) {
    if s.level > 0 && now - s.lastThrottleAt > c.release then
      (s.(level := s.level - 1, lastThrottleAt := now), Allow(s.level - 1))
    else (s, Allow(s.level))
  }

  function Decide(c: Config, warmup: bool, s: Option<Bucket>, now: real, band: Band): (Bucket, Result) {
    var b := Entered(c, s, now);
    if now < b.blockedUntil then Rejected(c, b, now, band, InBackoff, |b.hits|, c.baseMax)
    else
      var hits := Recent(b.hits, now, c.window) + [now];
      var b' := b.(hits := hits);
      if |hits| > c.hardCeiling then Rejected(c, b', now, band, HardCeiling, |hits|, c.hardCeiling)
      else if warmup || |hits| <= c.baseMax then Allowed(c, b', now)
      else Rejected(c, b', now, band, Rate, |hits|, c.baseMax)
  }

  /** The process started less than a warm-up ago. */
  predicate Warm(c: Config, startedAt: real, now: real) {
    now - startedAt < c.warmup
  }

  predicate Idle(c: Config, s: Bucket, now: real) {
    now - s.lastSeen > c.idleReset
  }

  // ----- The code --------------------------------------------------------------------------------

  class Throttle {
    const c: Config
    const startedAt: real
    var state: map<string, Bucket>

    constructor (c: Config, startedAt: real)
      ensures this.c == c && this.startedAt == startedAt && state == map[]
    {
      this.c := c;
      this.startedAt := startedAt;
      state := map[];
    }

    /** Escalates the bucket and refuses. */
    method Reject(deviceId: string, bucket: Bucket, now: real, band: Band, reason: Reason, observed: nat, allowed: int) returns (r: Result)
      modifies this`state
      ensures state == old(state)[deviceId := Rejected(c, bucket, now, band, reason, observed, allowed).0]
      ensures r == Rejected(c, bucket, now, band, reason, observed, allowed).1
    {
      var s := bucket.(level := MinNat(bucket.level + 1, c.maxLevel));
      var backoff := Backoff(c, s.level, band);
      s := s.(blockedUntil := now + backoff);
      s := s.(lastThrottleAt := now);
      state := state[deviceId := s];
      r := Refuse(backoff, reason, observed, allowed, s.level);
    }

    /** Lets the device in and decays its level after a calm spell. */
    method Admit(deviceId: string, bucket: Bucket, now: real) returns (r: Result)
      modifies this`state
      ensures state == old(state)[deviceId := Allowed(c, bucket, now).0]
      ensures r == Allowed(c, bucket, now).1
    {
      var s := bucket;
      if s.level > 0 && now - s.lastThrottleAt > c.release {
        s := s.(level := s.level - 1);
        s := s.(lastThrottleAt := now);
      }
      state := state[deviceId := s];
      r := Allow(s.level);
    }

    /** loopBand is the load level the loop monitor reports, `override` the one tests inject. */
    method Check(deviceId: string, now: real, override: Option<Band>, loopBand: Band) returns (r: Result)
      modifies this`state
      ensures var band := if override.Some? then override.value else if Warm(c, startedAt, now) then Normal else loopBand;
        var d := Decide(c, Warm(c, startedAt, now), if deviceId in old(state) then Some(old(state)[deviceId]) else None, now, band);
        state == old(state)[deviceId := d.0] && r == d.1
    {
      hide Recent, Rejected, Allowed;
      var warmup := now - startedAt < c.warmup;
      var band := if override.Some? then override.value else if warmup then Normal else loopBand;
      var s := if deviceId in state then state[deviceId] else NewBucket(now);
      if now - s.lastSeen > c.idleReset {
        s := s.(hits := [], level := 0, blockedUntil := 0.0, lastThrottleAt := 0.0);
      }
      s := s.(lastSeen := now);
      if now < s.blockedUntil {
        r := Reject(deviceId, s, now, band, InBackoff, |s.hits|, c.baseMax);
        return;
      }
      s := s.(hits := Recent(s.hits, now, c.window));
      s := s.(hits := s.hits + [now]);
      var observed := |s.hits|;
      if observed > c.hardCeiling {
        r := Reject(deviceId, s, now, band, HardCeiling, observed, c.hardCeiling);
        return;
      }
      if warmup {
        r := Admit(deviceId, s, now);
        return;
      }
      if observed <= c.baseMax {
        r := Admit(deviceId, s, now);
        return;
      }
      r := Reject(deviceId, s, now, band, Rate, observed, c.baseMax);
    }

    /** Removes idle buckets. */
    method Sweep(now: real) returns (n: nat)
      modifies this`state
      ensures state == map k | k in old(state) && !Idle(c, old(state)[k], now) :: old(state)[k]
      ensures n == |old(state)| - |state|
    {
      n := 0;
      var keys := state.Keys;
      while keys != {}
        invariant keys <= old(state).Keys
        invariant state == map k | k in old(state) && (k in keys || !Idle(c, old(state)[k], now)) :: old(state)[k]
        invariant n == |old(state)| - |state|
        decreases keys
      {
        var k :| k in keys;
        keys := keys - {k};
        if Idle(c, state[k], now) {
          assert |state| == |state - {k}| + 1 by {
            assert (state - {k}).Keys == state.Keys - {k};
          }
          state := state - {k};
          n := n + 1;
        }
      }
    }
  }
}
