/**
 The per-client token bucket of internal/security/middleware.go: Allow refills
 in whole seconds, and a background cleaner deletes idle buckets. Times are
 nanoseconds on one nondecreasing clock.
 */
module RateLimiting {
  import opened Wrappers

  const SECOND: int := 1_000_000_000

  /** One client's bucket. */
  datatype Bucket = Bucket(tokens: int, lastCheck: int)

  /** A limiter's fixed settings: its rate per second and the cleaner's interval. */
  datatype Config = Config(rps: int, interval: int) {
    /** NewRateLimiter allows a burst of twice the rate. */
    function Burst(): int { rps * 2 }
  }

  /** Go's int(d.Seconds()), which truncates towards zero. */
  function WholeSeconds(d: int): int {
    if d >= 0 then d / SECOND else -((-d) / SECOND)
  }

  function Min(a: int, b: int): int { if a < b then a else b }

  /** The bucket after the refill that opens every call. */
  function Refilled(c: Config, b: Bucket, now: int): Bucket {
    var toAdd := WholeSeconds(now - b.lastCheck) * c.rps;
    if toAdd > 0 then Bucket(Min(b.tokens + toAdd, c.Burst()), now) else b
  }

  /** One call: the client's bucket afterwards and the answer. */
  function Admit(c: Config, entry: Option<Bucket>, now: int): (Bucket, bool) {
    match entry
    case None => (Bucket(c.Burst() - 1, now), true)
    case Some(b) =>
      var b' := Refilled(c, b, now);
      if b'.tokens > 0 then (b'.(tokens := b'.tokens - 1), true) else (b', false)
  }

  function Lookup(ips: map<string, Bucket>, ip: string): Option<Bucket> {
    if ip in ips then Some(ips[ip]) else None
  }

  predicate Stale(c: Config, b: Bucket, now: int) {
    now - b.lastCheck > c.interval * 2
  }

  /** What one pass of the cleaner leaves. */
  function Evict(c: Config, ips: map<string, Bucket>, now: int): map<string, Bucket> {
    map ip | ip in ips && !Stale(c, ips[ip], now) :: ips[ip]
  }

  class RateLimiter {
    const config: Config
    var ips: map<string, Bucket>

    constructor (rps: int, interval: int)
      ensures config == Config(rps, interval) && ips == map[]
    {
      config := Config(rps, interval);
      ips := map[];
    }

    method Allow(ip: string, now: int) returns (ok: bool)
      modifies this`ips
      ensures ips == old(ips)[ip := Admit(config, Lookup(old(ips), ip), now).0]
      ensures ok == Admit(config, Lookup(old(ips), ip), now).1
    {
      if ip !in ips {
        ips := ips[ip := Bucket(config.Burst() - 1, now)];
        return true;
      }
      var bucket := ips[ip];
      var elapsed := now - bucket.lastCheck;
      var tokensToAdd := WholeSeconds(elapsed) * config.rps;
      if tokensToAdd > 0 {
        bucket := Bucket(Min(bucket.tokens + tokensToAdd, config.Burst()), now);
      }
      ok := bucket.tokens > 0;
      if ok {
        bucket := bucket.(tokens := bucket.tokens - 1);
      }
      ips := ips[ip := bucket];
    }

    /** One tick of the cleaner. */
    method Cleanup(now: int)
      modifies this`ips
      ensures ips == Evict(config, old(ips), now)
    {
      var todo := ips.Keys;
      while todo != {}
        invariant todo <= old(ips).Keys
        invariant ips == map ip | ip in old(ips) && (ip in todo || !Stale(config, old(ips)[ip], now)) :: old(ips)[ip]
      {
        var ip :| ip in todo;
        if Stale(config, ips[ip], now) {
          ips := ips - {ip};
        }
        todo := todo - {ip};
      }
    }
  }

  // ---------- Runs ----------

  /** A run interleaves calls of any clients with ticks of the cleaner. */
  datatype Event = Call(ip: string, now: int) | Tick(now: int)

  /** The clock reads at least `from`, and never goes back. */
  predicate Clocked(from: int, events: seq<Event>)
    decreases |events|
  {
    events == [] || (from <= events[0].now && Clocked(events[0].now, events[1..]))
  }

  /** One event; without eviction a tick does nothing. A tick answers false. */
  function Next(c: Config, evicting: bool, ips: map<string, Bucket>, e: Event): (map<string, Bucket>, bool) {
    match e
    case Call(ip, now) =>
      var (b, ok) := Admit(c, Lookup(ips, ip), now);
      (ips[ip := b], ok)
    case Tick(now) => (if evicting then Evict(c, ips, now) else ips, false)
  }

  /** The answers of a run, one per event. */
  function Answers(c: Config, evicting: bool, ips: map<string, Bucket>, events: seq<Event>): (r: seq<bool>)
    ensures |r| == |events|
    decreases |events|
  {
    if events == [] then []
    else
      var (ips', ok) := Next(c, evicting, ips, events[0]);
      [ok] + Answers(c, evicting, ips', events[1..])
  }

  /** The buckets a run leaves behind. */
  function Final(c: Config, evicting: bool, ips: map<string, Bucket>, events: seq<Event>): map<string, Bucket>
    decreases |events|
  {
    if events == [] then ips
    else Final(c, evicting, Next(c, evicting, ips, events[0]).0, events[1..])
  }

  lemma {:induction false} AnswersConcat(c: Config, evicting: bool, ips: map<string, Bucket>, a: seq<Event>,
      b: seq<Event>)
    ensures Answers(c, evicting, ips, a + b)
         == Answers(c, evicting, ips, a) + Answers(c, evicting, Final(c, evicting, ips, a), b)
    ensures Final(c, evicting, ips, a + b) == Final(c, evicting, Final(c, evicting, ips, a), b)
    decreases |a|
  {
    if a == [] {
      assert a + b == b;
    } else {
      assert (a + b)[0] == a[0] && (a + b)[1..] == a[1..] + b;
      AnswersConcat(c, evicting, Next(c, evicting, ips, a[0]).0, a[1..], b);
    }
  }

  // ---------- Products with the rate ----------

  lemma {:induction false} Scale(rps: int, x: int, y: int)
    requires rps >= 0 && x <= y
    ensures rps * x <= rps * y
  {
  }

  lemma {:induction false} Split(rps: int, x: int, y: int)
    ensures rps * (x + y) == rps * x + rps * y
  {
  }

  lemma {:induction false} Regroup(rps: int, x: int)
    ensures rps * (x * SECOND) == (rps * x) * SECOND
  {
  }

  // ---------- Token bounds ----------

  /** Every bucket holds 0..burst tokens and was last refilled in the past. */
  ghost predicate Sound(c: Config, ips: map<string, Bucket>, now: int) {
    forall ip | ip in ips :: 0 <= ips[ip].tokens <= c.Burst() && ips[ip].lastCheck <= now
  }

  lemma {:induction false} RefillBounds(c: Config, b: Bucket, now: int)
    requires c.rps >= 1 && 0 <= b.tokens <= c.Burst() && b.lastCheck <= now
    ensures var b' := Refilled(c, b, now);
            && 0 <= b'.tokens <= c.Burst() && b'.lastCheck <= now
            && (b'.tokens - b.tokens) * SECOND <= c.rps * (b'.lastCheck - b.lastCheck)
            && (b' != b ==> b'.lastCheck == now)
            && now - b'.lastCheck < SECOND
  {
    var k := WholeSeconds(now - b.lastCheck);
    assert 0 <= k && k * SECOND <= now - b.lastCheck < (k + 1) * SECOND;
    if k >= 1 {
      Scale(c.rps, 1, k);
      Scale(c.rps, k * SECOND, now - b.lastCheck);
    }
  }

  lemma {:induction false} NextKeepsSound(c: Config, evicting: bool, ips: map<string, Bucket>, from: int, e: Event)
    requires c.rps >= 1 && Sound(c, ips, from) && from <= e.now
    ensures Sound(c, Next(c, evicting, ips, e).0, e.now)
  {
    if e.Call? && e.ip in ips {
      RefillBounds(c, ips[e.ip], e.now);
    }
  }

  /** In every run, with or without the cleaner, tokens stay between 0 and burst. */
  lemma {:induction false} TokensStayBounded(c: Config, evicting: bool, ips: map<string, Bucket>, from: int,
      events: seq<Event>)
    requires c.rps >= 1 && Clocked(from, events) && Sound(c, ips, from)
    ensures forall ip | ip in Final(c, evicting, ips, events) ::
              0 <= Final(c, evicting, ips, events)[ip].tokens <= c.Burst()
    decreases |events|
  {
    if events != [] {
      NextKeepsSound(c, evicting, ips, from, events[0]);
      TokensStayBounded(c, evicting, Next(c, evicting, ips, events[0]).0, events[0].now, events[1..]);
    }
  }

  // ---------- Eviction is unobservable ----------

  /** The evicting limiter holds the other's buckets, short of some that are stale. */
  ghost predicate Mirrors(c: Config, evicting: map<string, Bucket>, full: map<string, Bucket>, now: int) {
    && Sound(c, full, now)
    && (forall ip | ip in evicting :: ip in full && evicting[ip] == full[ip])
    && (forall ip | ip in full && ip !in evicting :: Stale(c, full[ip], now))
  }

  /** A stale bucket refills to exactly what a fresh bucket holds. */
  lemma {:induction false} StaleRefillsToFresh(c: Config, b: Bucket, now: int)
    requires c.rps >= 1 && c.interval >= SECOND && 0 <= b.tokens && Stale(c, b, now)
    ensures Admit(c, Some(b), now) == Admit(c, None, now)
  {
    var k := WholeSeconds(now - b.lastCheck);
    assert k >= 2;
    Scale(c.rps, 2, k);
  }

  lemma {:induction false} MirrorsAnswers(c: Config, evicting: map<string, Bucket>, full: map<string, Bucket>,
      from: int, events: seq<Event>)
    requires c.rps >= 1 && c.interval >= SECOND && Clocked(from, events)
    requires Mirrors(c, evicting, full, from)
    ensures Answers(c, true, evicting, events) == Answers(c, false, full, events)
    decreases |events|
  {
    if events != [] {
      var e := events[0];
      NextKeepsSound(c, false, full, from, e);
      if e.Call? && e.ip in full && e.ip !in evicting {
        StaleRefillsToFresh(c, full[e.ip], e.now);
      }
      MirrorsAnswers(c, Next(c, true, evicting, e).0, Next(c, false, full, e).0, e.now, events[1..]);
    }
  }

  /** n calls of one client at one instant. */
  function Calls(ip: string, now: int, n: nat): seq<Event> {
    seq(n, _ => Call(ip, now))
  }

  /** A burst at one instant is admitted up to the tokens in the bucket. */
  lemma {:induction false} BurstDrains(c: Config, evicting: bool, ips: map<string, Bucket>, ip: string, now: int,
      n: nat)
    requires ip in ips && ips[ip].tokens >= 0 && ips[ip].lastCheck == now
    ensures Answers(c, evicting, ips, Calls(ip, now, n)) == seq(n, i => i < ips[ip].tokens)
    ensures Final(c, evicting, ips, Calls(ip, now, n))
         == ips[ip := Bucket(if n <= ips[ip].tokens then ips[ip].tokens - n else 0, now)]
  {
    if n == 0 {
      assert Calls(ip, now, n) == [];
    } else {
      var events := Calls(ip, now, n);
      assert events[1..] == Calls(ip, now, n - 1);
      var ips' := Next(c, evicting, ips, events[0]).0;
      BurstDrains(c, evicting, ips', ip, now, n - 1);
    }
  }

  lemma {:induction false} CallsAreClocked(from: int, ip: string, now: int, n: nat, rest: seq<Event>)
    requires from <= now && Clocked(now, rest)
    ensures Clocked(from, Calls(ip, now, n) + rest)
    decreases n
  {
    var events := Calls(ip, now, n) + rest;
    if n == 0 {
      assert events == rest;
      if rest != [] { assert from <= rest[0].now; }
    } else {
      assert events[0] == Call(ip, now) && events[1..] == Calls(ip, now, n - 1) + rest;
      CallsAreClocked(now, ip, now, n - 1, rest);
    }
  }

  /** Enough calls to empty a bucket; one call if the rate is not positive. */
  function Flood(c: Config): nat {
    if c.rps >= 1 then c.Burst() else 1
  }

  /** A flood that drains the bucket, the cleaner's tick at four intervals, a second flood. */
  function DrainAndReturn(c: Config): seq<Event>
    requires c.interval > 0
  {
    Calls("ip", 2 * c.interval - 1, Flood(c)) + ([Tick(4 * c.interval)] + Calls("ip", 4 * c.interval, Flood(c)))
  }

  /** From no bucket, a flood is admitted in full and leaves nothing to give. */
  lemma {:induction false} FirstFlood(c: Config, evicting: bool, t: int) returns (b: Bucket)
    ensures Answers(c, evicting, map[], Calls("ip", t, Flood(c))) == seq(Flood(c), _ => true)
    ensures Final(c, evicting, map[], Calls("ip", t, Flood(c))) == map["ip" := b]
    ensures b.lastCheck == t && b.tokens <= 0 && (c.rps >= 1 ==> b.tokens == 0)
  {
    var events := Calls("ip", t, Flood(c));
    assert events[0] == Call("ip", t) && events[1..] == Calls("ip", t, Flood(c) - 1);
    var first := Bucket(c.Burst() - 1, t);
    var ips: map<string, Bucket> := map[]["ip" := first];
    assert Next(c, evicting, map[], events[0]) == (ips, true);
    if c.rps >= 1 {
      BurstDrains(c, evicting, ips, "ip", t, Flood(c) - 1);
      b := Bucket(0, t);
    } else {
      assert events[1..] == [];
      b := first;
    }
  }

  /** A drained bucket two intervals and a nanosecond later refuses some call of a flood. */
  lemma {:induction false} SecondFlood(c: Config, b: Bucket, t: int) returns (i: nat)
    requires c.interval > 0 && !(c.rps >= 1 && c.interval >= SECOND)
    requires b.lastCheck == t - (2 * c.interval + 1) && b.tokens <= 0 && (c.rps >= 1 ==> b.tokens == 0)
    ensures i < Flood(c) && !Answers(c, false, map["ip" := b], Calls("ip", t, Flood(c)))[i]
  {
    var events := Calls("ip", t, Flood(c));
    assert events[0] == Call("ip", t) && events[1..] == Calls("ip", t, Flood(c) - 1);
    var k := WholeSeconds(t - b.lastCheck);
    i := 0;
    if c.rps >= 1 && k == 1 {
      var ips: map<string, Bucket> := map["ip" := Bucket(c.rps - 1, t)];
      assert Next(c, false, map["ip" := b], events[0]).0 == ips;
      BurstDrains(c, false, ips, "ip", t, Flood(c) - 1);
      i := c.rps;
    } else if c.rps < 1 {
      Scale(k, c.rps, 0);
    }
  }

  /** With a rate below one or an interval below a second, that run tells the two limiters apart. */
  lemma {:induction false} EvictionObservable(c: Config)
    requires c.interval > 0 && !(c.rps >= 1 && c.interval >= SECOND)
    ensures Clocked(0, DrainAndReturn(c))
    ensures Answers(c, true, map[], DrainAndReturn(c)) != Answers(c, false, map[], DrainAndReturn(c))
  {
    var t0, t1, n := 2 * c.interval - 1, 4 * c.interval, Flood(c);
    var first, second := Calls("ip", t0, n), Calls("ip", t1, n);
    var rest := [Tick(t1)] + second;
    CallsAreClocked(t1, "ip", t1, n, []);
    assert second + [] == second && rest[1..] == second;
    CallsAreClocked(0, "ip", t0, n, rest);

    var bE := FirstFlood(c, true, t0);
    var bF := FirstFlood(c, false, t0);
    var _ := FirstFlood(c, true, t1);
    var i := SecondFlood(c, bF, t1);
    AnswersConcat(c, true, map[], first, rest);
    AnswersConcat(c, false, map[], first, rest);
    assert Next(c, true, map["ip" := bE], Tick(t1)).0 == map[];
    assert Answers(c, true, map[], first + rest)[n + 1 + i];
    assert !Answers(c, false, map[], first + rest)[n + 1 + i];
  }

  /**
   Deleting idle buckets changes no answer of any run, whatever the clients and
   whenever the cleaner ticks, exactly when the rate is at least one per second
   and the cleaner's interval at least one second.
   */
  lemma {:induction false} EvictionUnobservableIff(c: Config)
    requires c.interval > 0
    ensures (c.rps >= 1 && c.interval >= SECOND)
       <==> (forall events: seq<Event> {:induction false} | Clocked(0, events) ::
               Answers(c, true, map[], events) == Answers(c, false, map[], events))
  {
    if c.rps >= 1 && c.interval >= SECOND {
      forall events: seq<Event> | Clocked(0, events)
        ensures Answers(c, true, map[], events) == Answers(c, false, map[], events)
      {
        MirrorsAnswers(c, map[], map[], 0, events);
      }
    } else {
      EvictionObservable(c);
    }
  }

  // ---------- The windowed bound ----------

  /** Calls of ip admitted within [from, to]. */
  function Admitted(ip: string, from: int, to: int, events: seq<Event>, answers: seq<bool>): nat
    requires |answers| == |events|
  {
    if events == [] then 0
    else
      (if events[0].Call? && events[0].ip == ip && from <= events[0].now <= to && answers[0] then 1 else 0)
      + Admitted(ip, from, to, events[1..], answers[1..])
  }

  /**
   What `used` admissions inside the window still allow: once something has been
   admitted, used plus the tokens left cost at most a burst and the time since
   one second before the window opened.
   */
  ghost predicate Budget(c: Config, entry: Option<Bucket>, from: int, used: nat) {
    used > 0 ==>
      && entry.Some?
      && entry.value.lastCheck > from - SECOND
      && (used + entry.value.tokens) * SECOND <= c.Burst() * SECOND + c.rps * (entry.value.lastCheck - (from - SECOND))
  }

  lemma {:induction false} AdmitKeepsBudget(c: Config, entry: Option<Bucket>, from: int, used: nat, now: int)
    requires c.rps >= 1 && Budget(c, entry, from, used)
    requires entry.Some? ==> 0 <= entry.value.tokens <= c.Burst() && entry.value.lastCheck <= now
    ensures var (b, ok) := Admit(c, entry, now);
            Budget(c, Some(b), from, if from <= now && ok then used + 1 else used)
  {
    match entry {
      case None =>
        if from <= now {
          Scale(c.rps, 0, now - (from - SECOND));
        }
      case Some(b) =>
        RefillBounds(c, b, now);
        var b' := Refilled(c, b, now);
        var start := from - SECOND;
        Split(c.rps, b'.lastCheck - b.lastCheck, b.lastCheck - start);
        if used == 0 && from <= now {
          Scale(c.rps, 0, b'.lastCheck - start);
        }
    }
  }

  lemma {:induction false} BudgetBounds(c: Config, ips: map<string, Bucket>, ip: string, from: int, to: int,
      used: nat, clock: int, events: seq<Event>)
    requires c.rps >= 1 && from <= to && Clocked(clock, events) && Sound(c, ips, clock)
    requires Budget(c, Lookup(ips, ip), from, used)
    requires used > 0 ==> ips[ip].lastCheck <= to
    ensures (used + Admitted(ip, from, to, events, Answers(c, false, ips, events))) * SECOND
         <= c.Burst() * SECOND + c.rps * (to - from + SECOND)
    decreases |events|
  {
    var start := from - SECOND;
    if used > 0 {
      Scale(c.rps, ips[ip].lastCheck - start, to - start);
    } else {
      Scale(c.rps, 0, to - start);
    }
    if events != [] {
      var e := events[0];
      var ips' := Next(c, false, ips, e).0;
      var answers := Answers(c, false, ips, events);
      assert answers[1..] == Answers(c, false, ips', events[1..]);
      NextKeepsSound(c, false, ips, clock, e);
      if e.now > to {
        NothingAfter(ip, from, to, e.now, events, answers);
      } else {
        var used' := if e.Call? && e.ip == ip && from <= e.now && answers[0] then used + 1 else used;
        if e.Call? && e.ip == ip {
          AdmitKeepsBudget(c, Lookup(ips, ip), from, used, e.now);
        }
        BudgetBounds(c, ips', ip, from, to, used', e.now, events[1..]);
      }
    }
  }

  lemma {:induction false} NothingAfter(ip: string, from: int, to: int, clock: int, events: seq<Event>,
      answers: seq<bool>)
    requires |answers| == |events| && Clocked(clock, events) && to < clock
    ensures Admitted(ip, from, to, events, answers) == 0
    decreases |events|
  {
    if events != [] {
      NothingAfter(ip, from, to, events[0].now, events[1..], answers[1..]);
    }
  }

  /**
   In any window of at most L seconds of any run, one client is admitted at most
   burst + rps * (L + 1) times, cleaner included.
   */
  lemma {:induction false} WindowBound(c: Config, ip: string, from: int, to: int, L: nat, events: seq<Event>)
    requires c.rps >= 1 && c.interval >= SECOND && Clocked(0, events)
    requires from <= to <= from + L * SECOND
    ensures Admitted(ip, from, to, events, Answers(c, true, map[], events)) <= c.Burst() + c.rps * (L + 1)
  {
    EvictionUnobservableIff(c);
    BudgetBounds(c, map[], ip, from, to, 0, 0, events);
    var n := Admitted(ip, from, to, events, Answers(c, false, map[], events));
    Scale(c.rps, to - from + SECOND, (L + 1) * SECOND);
    Regroup(c.rps, L + 1);
  }

  // ---------- Exactly when the bounds hold ----------

  /** The tokens left by a run of fresh limiters all lie between zero and burst. */
  ghost predicate InRange(c: Config, evicting: bool, events: seq<Event>) {
    forall ip | ip in Final(c, evicting, map[], events) ::
        0 <= Final(c, evicting, map[], events)[ip].tokens <= c.Burst()
  }

  /** Tokens stay between zero and burst in every run exactly when the rate is at least one. */
  lemma {:induction false} TokensBoundedIff(c: Config, evicting: bool)
    ensures c.rps >= 1 <==> forall events: seq<Event> {:induction false} | Clocked(0, events) ::
        InRange(c, evicting, events)
  {
    if c.rps >= 1 {
      forall events: seq<Event> | Clocked(0, events) ensures InRange(c, evicting, events) {
        TokensStayBounded(c, evicting, map[], 0, events);
      }
    } else {
      var events := [Call("ip", 0)];
      assert events[1..] == [] && Clocked(0, events);
      assert Final(c, evicting, map[], events) == map["ip" := Bucket(c.Burst() - 1, 0)];
      assert !InRange(c, evicting, events);
    }
  }

  /** In any window of at most L seconds ip is admitted at most burst + rps * (L + 1) times, cleaner included. */
  predicate WithinBound(c: Config, ip: string, from: int, to: int, L: nat, events: seq<Event>) {
    from <= to <= from + L * SECOND ==>
      Admitted(ip, from, to, events, Answers(c, true, map[], events)) <= c.Burst() + c.rps * (L + 1)
  }

  /** One period longer than two intervals: long enough for the cleaner to take a bucket. */
  function Period(c: Config): int { c.interval * 2 + 1 }

  /** A tick that finds the bucket gone stale, then a flood that spends a fresh one. */
  function TickAndFlood(c: Config, now: int): seq<Event> {
    [Tick(now)] + Calls("ip", now, Flood(c))
  }

  /** n more of them, a period apart, after a moment at `last`. */
  function Floods(c: Config, last: int, n: nat): seq<Event>
    decreases n
  {
    if n == 0 then []
    else TickAndFlood(c, last + Period(c)) + Floods(c, last + Period(c), n - 1)
  }

  lemma {:induction false} FloodsAreClocked(c: Config, last: int, n: nat)
    requires c.interval > 0
    ensures Clocked(last, Floods(c, last, n))
    decreases n
  {
    if n > 0 {
      var now := last + Period(c);
      var rest := Floods(c, now, n - 1);
      FloodsAreClocked(c, now, n - 1);
      CallsAreClocked(now, "ip", now, Flood(c), rest);
      assert (TickAndFlood(c, now) + rest)[1..] == Calls("ip", now, Flood(c)) + rest;
    }
  }

  lemma {:induction false} AdmittedConcat(ip: string, from: int, to: int, a: seq<Event>, x: seq<bool>, b: seq<Event>,
      y: seq<bool>)
    requires |x| == |a| && |y| == |b|
    ensures Admitted(ip, from, to, a + b, x + y) == Admitted(ip, from, to, a, x) + Admitted(ip, from, to, b, y)
    decreases |a|
  {
    if a == [] {
      assert a + b == b && x + y == y;
    } else {
      assert (a + b)[0] == a[0] && (a + b)[1..] == a[1..] + b && (x + y)[0] == x[0] && (x + y)[1..] == x[1..] + y;
      AdmittedConcat(ip, from, to, a[1..], x[1..], b, y);
    }
  }

  lemma {:induction false} AllAdmitted(ip: string, from: int, to: int, now: int, n: nat)
    requires from <= now <= to
    ensures Admitted(ip, from, to, Calls(ip, now, n), seq(n, _ => true)) == n
  {
    if n > 0 {
      assert Calls(ip, now, n)[1..] == Calls(ip, now, n - 1);
      assert seq(n, _ => true)[1..] == seq(n - 1, _ => true);
      AllAdmitted(ip, from, to, now, n - 1);
    }
  }

  /** A flood on a limiter without a bucket for ip is admitted in full, and leaves a bucket last refilled then. */
  lemma {:induction false} FreshFlood(c: Config, from: int, to: int, now: int) returns (b: Bucket)
    requires c.rps >= 1 && from <= now <= to
    ensures Final(c, true, map[], Calls("ip", now, Flood(c))) == map["ip" := b] && b.lastCheck == now
    ensures Admitted("ip", from, to, Calls("ip", now, Flood(c)), Answers(c, true, map[], Calls("ip", now, Flood(c))))
         == c.Burst()
  {
    b := FirstFlood(c, true, now);
    AllAdmitted("ip", from, to, now, Flood(c));
  }

  /** Every further tick empties the map, so every flood is admitted in full. */
  lemma {:induction false} FloodsAdmit(c: Config, b: Bucket, from: int, to: int, last: int, n: nat)
    requires c.rps >= 1 && c.interval > 0 && b.lastCheck == last && from <= last && last + n * Period(c) <= to
    ensures Admitted("ip", from, to, Floods(c, last, n), Answers(c, true, map["ip" := b], Floods(c, last, n)))
         == n * c.Burst()
    decreases n
  {
    if n > 0 {
      var now, ips := last + Period(c), map["ip" := b];
      var flood, rest := Calls("ip", now, Flood(c)), Floods(c, now, n - 1);
      Multiples(n, Period(c));
      Multiples(n, c.Burst());
      assert Next(c, true, ips, Tick(now)).0 == map[];
      TickThen(c, ips, now, flood + rest);
      assert Floods(c, last, n) == [Tick(now)] + (flood + rest);
      var b' := FreshFlood(c, from, to, now);
      AnswersConcat(c, true, map[], flood, rest);
      AdmittedConcat("ip", from, to, flood, Answers(c, true, map[], flood), rest,
          Answers(c, true, map["ip" := b'], rest));
      FloodsAdmit(c, b', from, to, now, n - 1);
      AdmittedConcat("ip", from, to, [Tick(now)], [false], flood + rest, Answers(c, true, map[], flood + rest));
    }
  }

  lemma {:induction false} TickThen(c: Config, ips: map<string, Bucket>, now: int, rest: seq<Event>)
    ensures Answers(c, true, ips, [Tick(now)] + rest) == [false] + Answers(c, true, Evict(c, ips, now), rest)
  {
    assert ([Tick(now)] + rest)[1..] == rest;
  }

  lemma {:induction false} Multiples(n: int, x: int)
    ensures n * x == (n - 1) * x + x && (n > 0 && x >= 0 ==> (n - 1) * x >= 0)
  {
    if n > 0 && x >= 0 {
      Scale(x, 0, n - 1);
    }
  }

  /** A flood at 0 and 2 * SECOND more, each after an eviction, outdo the bound. */
  lemma {:induction false} FloodsOutdoBound(c: Config) returns (to: int, events: seq<Event>)
    requires c.rps >= 1 && 0 < c.interval < SECOND
    ensures Clocked(0, events) && !WithinBound(c, "ip", 0, to, 4 * SECOND - 2, events)
  {
    var n := 2 * SECOND;
    to := n * Period(c);
    assert to <= (4 * SECOND - 2) * SECOND;
    var flood, rest := Calls("ip", 0, Flood(c)), Floods(c, 0, n);
    events := flood + rest;
    FloodsAreClocked(c, 0, n);
    CallsAreClocked(0, "ip", 0, Flood(c), rest);
    var b := FreshFlood(c, 0, to, 0);
    AnswersConcat(c, true, map[], flood, rest);
    FloodsAdmit(c, b, 0, to, 0, n);
    AdmittedConcat("ip", 0, to, flood, Answers(c, true, map[], flood), rest, Answers(c, true, map["ip" := b], rest));
    Scale(c.rps, 4 * SECOND + 1, 4 * SECOND + 2);
  }

  /**
   The windowed bound holds for every client, window and run, whenever the
   cleaner ticks, exactly when the rate is at least one per second and the
   cleaner's interval at least one second.
   */
  lemma {:induction false} WindowBoundIff(c: Config)
    requires c.interval > 0
    ensures (c.rps >= 1 && c.interval >= SECOND)
       <==> forall ip, from, to, L: nat, events: seq<Event> {:induction false} | Clocked(0, events) ::
              WithinBound(c, ip, from, to, L, events)
  {
    if c.rps >= 1 && c.interval >= SECOND {
      forall ip, from, to, L: nat, events: seq<Event> | Clocked(0, events)
        ensures WithinBound(c, ip, from, to, L, events)
      {
        if from <= to <= from + L * SECOND {
          WindowBound(c, ip, from, to, L, events);
        }
      }
    } else if c.rps >= 1 {
      var to, events := FloodsOutdoBound(c);
    } else {
      var events := [Call("ip", 0)];
      assert events[1..] == [] && Clocked(0, events);
      assert Answers(c, true, map[], events) == [true];
      assert !WithinBound(c, "ip", 0, 0, 0, events);
    }
  }

  // ---------- What a client is owed ----------

  /** Calls of ip within [from, to]. */
  function CallsIn(ip: string, from: int, to: int, events: seq<Event>): nat {
    if events == [] then 0
    else
      (if events[0].Call? && events[0].ip == ip && from <= events[0].now <= to then 1 else 0)
      + CallsIn(ip, from, to, events[1..])
  }

  /** ip does not call strictly between the two times. */
  predicate Quiet(ip: string, from: int, to: int, events: seq<Event>) {
    forall i | 0 <= i < |events| && events[i].Call? && events[i].ip == ip ::
        events[i].now <= from || events[i].now >= to
  }

  function Least(a: int, b: int): int { if a <= b then a else b }

  /** At `now` the client would find e tokens, or a fresh bucket. */
  ghost predicate Credit(c: Config, entry: Option<Bucket>, now: int, e: int) {
    e <= c.Burst() && (entry.Some? ==> Refilled(c, entry.value, now).tokens >= e)
  }

  /** k whole seconds of silence earn k times the rate, up to twice the rate. */
  lemma {:induction false} SilenceIsCredited(c: Config, entry: Option<Bucket>, now: int, k: nat)
    requires c.rps >= 1
    requires entry.Some? ==> 0 <= entry.value.tokens <= c.Burst() && entry.value.lastCheck <= now - k * SECOND
    ensures Credit(c, entry, now, Least(2 * c.rps, k * c.rps))
  {
    if entry.Some? && k > 0 {
      var s := WholeSeconds(now - entry.value.lastCheck);
      assert s >= k;
      Scale(c.rps, k, s);
      Scale(c.rps, 1, s);
    }
  }

  /** A call at that instant is admitted if it finds a token, and takes no more than that one. */
  lemma {:induction false} CreditIsSpentOnce(c: Config, entry: Option<Bucket>, now: int, e: int)
    requires c.rps >= 1 && Credit(c, entry, now, e)
    requires entry.Some? ==> 0 <= entry.value.tokens <= c.Burst() && entry.value.lastCheck <= now
    ensures var (b, ok) := Admit(c, entry, now);
            (e > 0 ==> ok) && Credit(c, Some(b), now, if ok then e - 1 else Least(e, 0))
  {
    if entry.Some? {
      RefillBounds(c, entry.value, now);
      var b := Refilled(c, entry.value, now);
      var k := WholeSeconds(now - b.lastCheck);
      assert k == 0;
      var b' := Admit(c, entry, now).0;
      assert Refilled(c, b', now) == b';
    } else {
      assert WholeSeconds(0) == 0;
      assert Refilled(c, Bucket(c.Burst() - 1, now), now) == Bucket(c.Burst() - 1, now);
    }
  }

  /** From the first call at `now` on, the credit is paid out. */
  lemma {:induction false} CreditIsPaid(
    c: Config, evicting: bool, ips: map<string, Bucket>, ip: string, clock: int, now: int, e: int, events: seq<Event>)
    requires c.rps >= 1 && clock <= now && Clocked(clock, events) && Sound(c, ips, clock)
    requires Credit(c, Lookup(ips, ip), now, e)
    requires forall i | 0 <= i < |events| && events[i].Call? && events[i].ip == ip :: events[i].now >= now
    ensures Admitted(ip, now, now, events, Answers(c, evicting, ips, events)) >= Least(CallsIn(ip, now, now, events), e)
    decreases |events|
  {
    if events != [] {
      var ev, rest := events[0], events[1..];
      var ips' := Next(c, evicting, ips, ev).0;
      assert Answers(c, evicting, ips, events)[1..] == Answers(c, evicting, ips', rest);
      if ev.now > now {
        NoCallsAfter(ip, now, now, ev.now, events);
      } else {
        NextKeepsSound(c, evicting, ips, clock, ev);
        assert forall i | 0 <= i < |rest| :: rest[i] == events[i + 1];
        if ev.Call? && ev.ip == ip {
          CreditIsSpentOnce(c, Lookup(ips, ip), now, e);
          var ok := Next(c, evicting, ips, ev).1;
          CreditIsPaid(c, evicting, ips', ip, ev.now, now, if ok then e - 1 else Least(e, 0), rest);
        } else {
          CreditIsPaid(c, evicting, ips', ip, ev.now, now, e, rest);
        }
      }
    }
  }

  lemma {:induction false} NoCallsAfter(ip: string, from: int, to: int, clock: int, events: seq<Event>)
    requires Clocked(clock, events) && to < clock
    ensures CallsIn(ip, from, to, events) == 0
    decreases |events|
  {
    if events != [] {
      NoCallsAfter(ip, from, to, events[0].now, events[1..]);
    }
  }

  lemma {:induction false} SilenceEarnsFrom(
    c: Config, evicting: bool, ips: map<string, Bucket>, ip: string, clock: int, now: int, k: nat, events: seq<Event>)
    requires c.rps >= 1 && clock <= now && Clocked(clock, events) && Sound(c, ips, clock)
    requires Quiet(ip, now - k * SECOND, now, events)
    requires ip in ips ==> ips[ip].lastCheck <= now - k * SECOND
    ensures Admitted(ip, now, now, events, Answers(c, evicting, ips, events))
         >= Least(CallsIn(ip, now, now, events), Least(2 * c.rps, k * c.rps))
    decreases |events|
  {
    SilenceIsCredited(c, Lookup(ips, ip), now, k);
    if events != [] && events[0].now <= now - k * SECOND && events[0].now < now {
      var ev, rest := events[0], events[1..];
      var ips' := Next(c, evicting, ips, ev).0;
      NextKeepsSound(c, evicting, ips, clock, ev);
      assert Answers(c, evicting, ips, events)[1..] == Answers(c, evicting, ips', rest);
      assert forall i | 0 <= i < |rest| :: rest[i] == events[i + 1];
      SilenceEarnsFrom(c, evicting, ips', ip, ev.now, now, k, rest);
    } else {
      LaterThan(clock, events);
      CreditIsPaid(c, evicting, ips, ip, clock, now, Least(2 * c.rps, k * c.rps), events);
    }
  }

  lemma {:induction false} LaterThan(clock: int, events: seq<Event>)
    requires Clocked(clock, events)
    ensures forall i | 0 <= i < |events| :: events[0].now <= events[i].now
    decreases |events|
  {
    if events != [] {
      LaterThan(events[0].now, events[1..]);
      forall i | 0 <= i < |events| ensures events[0].now <= events[i].now {
        if i > 0 {
          assert events[i] == events[1..][i - 1] && events[0].now <= events[1..][0].now;
        }
      }
    }
  }

  /**
   In every run, a client silent for k whole seconds before an instant is admitted
   then as often as it calls, up to k times the rate and to twice the rate.
   */
  lemma {:induction false} SilenceEarns(c: Config, evicting: bool, ip: string, now: nat, k: nat, events: seq<Event>)
    requires c.rps >= 1 && Clocked(0, events) && Quiet(ip, now - k * SECOND, now, events)
    ensures Admitted(ip, now, now, events, Answers(c, evicting, map[], events))
         >= Least(CallsIn(ip, now, now, events), Least(2 * c.rps, k * c.rps))
  {
    SilenceEarnsFrom(c, evicting, map[], ip, 0, now, k, events);
  }

  /** An admission at an instant where ip calls just once is the answer to that call. */
  lemma {:induction false} OnlyCallAdmitted(ip: string, now: int, i: nat, events: seq<Event>, answers: seq<bool>)
    requires |answers| == |events| && i < |events| && events[i] == Call(ip, now)
    requires forall j | 0 <= j < |events| && j != i :: events[j] != Call(ip, now)
    ensures CallsIn(ip, now, now, events) >= 1
    ensures Admitted(ip, now, now, events, answers) == if answers[i] then 1 else 0
  {
    if i > 0 {
      assert forall j | 0 <= j < |events| - 1 :: events[1..][j] == events[j + 1];
      OnlyCallAdmitted(ip, now, i - 1, events[1..], answers[1..]);
    } else {
      NoneElse(ip, now, events[1..], answers[1..]);
    }
  }

  lemma {:induction false} NoneElse(ip: string, now: int, events: seq<Event>, answers: seq<bool>)
    requires |answers| == |events| && forall j | 0 <= j < |events| :: events[j] != Call(ip, now)
    ensures Admitted(ip, now, now, events, answers) == 0
  {
    if events != [] {
      NoneElse(ip, now, events[1..], answers[1..]);
    }
  }

  /** A client whose calls are all at least a second apart is never refused. */
  lemma {:induction false} PacedNeverRefused(c: Config, evicting: bool, ip: string, events: seq<Event>, i: nat)
    requires c.rps >= 1 && Clocked(0, events) && i < |events| && events[i].Call? && events[i].ip == ip
    requires forall j | 0 <= j < |events| && j != i && events[j].Call? && events[j].ip == ip ::
               events[j].now <= events[i].now - SECOND || events[j].now >= events[i].now + SECOND
    ensures Answers(c, evicting, map[], events)[i]
  {
    var now := events[i].now;
    NeverNegative(0, events, i);
    OnlyCallAdmitted(ip, now, i, events, Answers(c, evicting, map[], events));
    SilenceEarns(c, evicting, ip, now, 1, events);
  }

  lemma {:induction false} NeverNegative(clock: int, events: seq<Event>, i: nat)
    requires Clocked(clock, events) && i < |events|
    ensures events[i].now >= clock
    decreases |events|
  {
    if i > 0 {
      NeverNegative(events[0].now, events[1..], i - 1);
    }
  }

  // ---------- No client is starved ----------

  /** The later of the two times: what is owed for `from` can be claimed a second after it. */
  function Due(clock: int, from: int): int {
    if clock < from + SECOND then from + SECOND else clock
  }

  lemma {:induction false} CreditGrows(c: Config, entry: Option<Bucket>, now: int, later: int, e: int)
    requires c.rps >= 1 && Credit(c, entry, now, e) && now <= later
    requires entry.Some? ==> 0 <= entry.value.tokens <= c.Burst() && entry.value.lastCheck <= now
    ensures Credit(c, entry, later, e)
  {
    if entry.Some? {
      var s, s' := WholeSeconds(now - entry.value.lastCheck), WholeSeconds(later - entry.value.lastCheck);
      Scale(c.rps, 0, s);
      Scale(c.rps, s, s');
    }
  }

  lemma {:induction false} TokenTaken(c: Config, b: Bucket, later: int, e: int)
    requires c.rps >= 1 && Credit(c, Some(b), later, e)
    ensures Credit(c, Some(b.(tokens := b.tokens - 1)), later, e - 1)
  {
  }

  /** A call before `later` leaves what was owed then, less the token it took. */
  lemma {:induction false} CallSpendsCredit(c: Config, entry: Option<Bucket>, now: int, later: int, e: int)
    requires c.rps >= 1 && e <= c.rps && now <= later && Credit(c, entry, later, e)
    requires entry.Some? ==> 0 <= entry.value.tokens <= c.Burst() && entry.value.lastCheck <= now
    ensures var (b, ok) := Admit(c, entry, now);
            && Credit(c, Some(b), later, if ok then e - 1 else e)
            && (now == later && e > 0 ==> ok)
  {
    var b := if entry.None? then Bucket(c.Burst(), now) else Refilled(c, entry.value, now);
    if entry.Some? {
      RefillBounds(c, entry.value, now);
      RefillPays(c, entry.value, now);
    }
    if entry.None? || b != entry.value {
      assert WholeSeconds(0) == 0;
      CreditGrows(c, Some(b), now, later, e);
    }
    assert Credit(c, Some(b), later, e);
    TokenTaken(c, b, later, e);
  }

  lemma {:induction false} RefillPays(c: Config, b: Bucket, now: int)
    requires c.rps >= 1 && 0 <= b.tokens <= c.Burst() && b.lastCheck <= now
    ensures var b' := Refilled(c, b, now); b' == b || (b'.lastCheck == now && b'.tokens >= c.rps)
  {
    var k := WholeSeconds(now - b.lastCheck);
    if k > 0 {
      Scale(c.rps, 1, k);
    }
  }

  /** Once all calls are later than `from`, the credit due a second after it is paid out. */
  lemma {:induction false} DebtIsPaid(c: Config, evicting: bool, ips: map<string, Bucket>, ip: string, clock: int,
      from: int, to: int, e: int, events: seq<Event>)
    requires c.rps >= 1 && e <= c.rps && from + SECOND <= to && Clocked(clock, events) && Sound(c, ips, clock)
    requires Credit(c, Lookup(ips, ip), Due(clock, from), e)
    requires events != [] ==> from < events[0].now
    ensures Admitted(ip, from + 1, to, events, Answers(c, evicting, ips, events))
         >= Least(CallsIn(ip, from + SECOND, to, events), e)
    decreases |events|
  {
    if events != [] {
      var ev, rest := events[0], events[1..];
      var ips' := Next(c, evicting, ips, ev).0;
      assert Answers(c, evicting, ips, events)[1..] == Answers(c, evicting, ips', rest);
      if ev.now > to {
        NoCallsAfter(ip, from + SECOND, to, ev.now, events);
      } else {
        NextKeepsSound(c, evicting, ips, clock, ev);
        CreditGrows(c, Lookup(ips, ip), Due(clock, from), Due(ev.now, from), e);
        if ev.Call? && ev.ip == ip {
          CallSpendsCredit(c, Lookup(ips, ip), ev.now, Due(ev.now, from), e);
          var ok := Next(c, evicting, ips, ev).1;
          DebtIsPaid(c, evicting, ips', ip, ev.now, from, to, if ok then e - 1 else e, rest);
        } else {
          DebtIsPaid(c, evicting, ips', ip, ev.now, from, to, e, rest);
        }
      }
    }
  }

  lemma {:induction false} NeverStarvedFrom(c: Config, evicting: bool, ips: map<string, Bucket>, ip: string,
      clock: int, from: int, to: int, events: seq<Event>)
    requires c.rps >= 1 && from + SECOND <= to && Clocked(clock, events) && Sound(c, ips, clock)
    requires ip in ips ==> ips[ip].lastCheck <= from
    ensures Admitted(ip, from + 1, to, events, Answers(c, evicting, ips, events))
         >= Least(CallsIn(ip, from + SECOND, to, events), c.rps)
    decreases |events|
  {
    if events != [] {
      var ev, rest := events[0], events[1..];
      if ev.now <= from {
        var ips' := Next(c, evicting, ips, ev).0;
        NextKeepsSound(c, evicting, ips, clock, ev);
        assert Answers(c, evicting, ips, events)[1..] == Answers(c, evicting, ips', rest);
        NeverStarvedFrom(c, evicting, ips', ip, ev.now, from, to, rest);
      } else {
        SilenceIsCredited(c, Lookup(ips, ip), from + SECOND, 1);
        CreditGrows(c, Lookup(ips, ip), from + SECOND, Due(clock, from), c.rps);
        DebtIsPaid(c, evicting, ips, ip, clock, from, to, c.rps, events);
      }
    }
  }

  /**
   In every run and whatever a client did before, it is admitted after `from` as often
   as it calls from a second after `from` on, up to the rate. Calls in between, refused
   or not, cost it nothing of that.
   */
  lemma {:induction false} NeverStarved(c: Config, evicting: bool, ip: string, from: int, to: int, events: seq<Event>)
    requires c.rps >= 1 && Clocked(0, events) && from + SECOND <= to
    ensures Admitted(ip, from + 1, to, events, Answers(c, evicting, map[], events))
         >= Least(CallsIn(ip, from + SECOND, to, events), c.rps)
  {
    NeverStarvedFrom(c, evicting, map[], ip, 0, from, to, events);
  }

  lemma {:induction false} AdmittedSplit(ip: string, from: int, mid: int, to: int, events: seq<Event>,
      answers: seq<bool>)
    requires |answers| == |events| && from <= mid + 1 <= to + 1
    ensures Admitted(ip, from, to, events, answers)
         == Admitted(ip, from, mid, events, answers) + Admitted(ip, mid + 1, to, events, answers)
  {
    if events != [] {
      AdmittedSplit(ip, from, mid, to, events[1..], answers[1..]);
    }
  }

  /**
   A client that calls at least rate times at each of L instants a second apart, and
   as it likes in between, is admitted at least rate * L times in those L seconds.
   */
  lemma {:induction false} SteadyClientServed(
    c: Config, evicting: bool, ip: string, start: int, L: nat, events: seq<Event>)
    requires c.rps >= 1 && Clocked(0, events)
    requires forall now | start < now <= start + L * SECOND && (now - start) % SECOND == 0 ::
               CallsIn(ip, now, now, events) >= c.rps
    ensures Admitted(ip, start + 1, start + L * SECOND, events, Answers(c, evicting, map[], events)) >= c.rps * L
    decreases L
  {
    if L > 0 {
      var mid, now := start + (L - 1) * SECOND, start + L * SECOND;
      SteadyClientServed(c, evicting, ip, start, L - 1, events);
      NeverStarved(c, evicting, ip, mid, now, events);
      assert (now - start) % SECOND == 0 && CallsIn(ip, now, now, events) >= c.rps;
      Split(c.rps, L - 1, 1);
      AdmittedSplit(ip, start + 1, mid, now, events, Answers(c, evicting, map[], events));
    }
  }
}
