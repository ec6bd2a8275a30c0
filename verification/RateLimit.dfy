/** internal/ratelimit: a token bucket per key, with real-valued tokens and time in seconds. */
module RateLimit {
  import opened Wrappers

  datatype Bucket = Bucket(tokens: real, lastRefill: real)

  function Min(a: real, b: real): real {
    if a <= b then a else b
  }

  /** The tokens that flow into a bucket in this much time. */
  function Inflow(elapsed: real, rate: real): real {
    elapsed * rate
  }

  lemma InflowIs(elapsed: real, rate: real)
    ensures Inflow(elapsed, rate) == rate * elapsed
  {}

  lemma InflowAdds(a: real, b: real, rate: real)
    ensures Inflow(a, rate) + Inflow(b, rate) == Inflow(a + b, rate)
    ensures Inflow(0.0, rate) == 0.0
  {}

  lemma InflowGrows(a: real, b: real, rate: real)
    requires a <= b && rate > 0.0
    ensures Inflow(a, rate) <= Inflow(b, rate)
    ensures 0.0 <= a ==> 0.0 <= Inflow(a, rate)
  {}

  /** The tokens a key has at this time; a key without a bucket has a full one. */
  function Level(b: Option<Bucket>, now: real, rate: real, burst: int): real {
    match b
    case None => burst as real
    case Some(k) => Min(burst as real, k.tokens + Inflow(now - k.lastRefill, rate))
  }

  /** A request at this time: the bucket it leaves, and the answer. */
  function Take(b: Option<Bucket>, now: real, rate: real, burst: int): (Bucket, bool) {
    var level := Level(b, now, rate, burst);
    if level < 1.0 then (Bucket(level, now), false) else (Bucket(level - 1.0, now), true)
  }

  class Limiter {
    var buckets: map<string, Bucket>
    var rate: real
    var burst: int

    constructor (rate: real, burst: int)
      ensures buckets == map[] && this.rate == rate && this.burst == burst
    {
      buckets, this.rate, this.burst := map[], rate, burst;
    }

    ghost function BucketOf(key: string): Option<Bucket>
      reads this
    {
      if key in buckets then Some(buckets[key]) else None
    }

    method Allow(key: string, now: real) returns (ok: bool)
      modifies this`buckets
      ensures rate <= 0.0 || burst <= 0 ==> ok && buckets == old(buckets)
      ensures rate > 0.0 && burst > 0 ==>
                && ok == Take(old(BucketOf(key)), now, rate, burst).1
                && buckets == old(buckets)[key := Take(old(BucketOf(key)), now, rate, burst).0]
    {
      hide Inflow;
      if rate <= 0.0 || burst <= 0 {
        return true;
      }
      var b := if key in buckets then buckets[key] else Bucket(burst as real, now);
      var elapsed := now - b.lastRefill;
      InflowAdds(0.0, 0.0, rate);
      b := b.(tokens := Min(burst as real, b.tokens + Inflow(elapsed, rate)), lastRefill := now);
      ok := b.tokens >= 1.0;
      if ok {
        b := b.(tokens := b.tokens - 1.0);
      }
      buckets := buckets[key := b];
    }

    method Cleanup(ttl: real, now: real)
      modifies this`buckets
      ensures buckets == map k | k in old(buckets) && !(old(buckets)[k].lastRefill < now - ttl) :: old(buckets)[k]
    {
      var cutoff := now - ttl;
      var todo := buckets.Keys;
      while todo != {}
        invariant todo <= old(buckets).Keys
        invariant buckets == map k | k in old(buckets) && (k in todo || !(old(buckets)[k].lastRefill < cutoff)) ::
                  old(buckets)[k]
        decreases |todo|
      {
        var k :| k in todo;
        todo := todo - {k};
        if buckets[k].lastRefill < cutoff {
          buckets := buckets - {k};
        }
      }
    }
  }

  // ---- runs ----

  datatype Event = Request(key: string, now: real) | Clean(ttl: real, now: real)

  ghost predicate Ordered(events: seq<Event>) {
    forall i, j :: 0 <= i < j < |events| ==> events[i].now <= events[j].now
  }

  /** The bucket of one key after these events; `cleaning` says whether cleanups take effect. */
  function Track(events: seq<Event>, key: string, rate: real, burst: int, cleaning: bool): Option<Bucket> {
    if events == [] then None
    else
      var n := |events| - 1;
      Tracked(Track(events[..n], key, rate, burst, cleaning), events[n], key, rate, burst, cleaning)
  }

  function Tracked(b: Option<Bucket>, event: Event, key: string, rate: real, burst: int, cleaning: bool)
    : Option<Bucket>
  {
    match event
    case Request(k, now) => if k == key then Some(Take(b, now, rate, burst).0) else b
    case Clean(ttl, now) => if cleaning && b.Some? && b.value.lastRefill < now - ttl then None else b
  }

  /** The answer to the request at position i. */
  predicate Allowed(events: seq<Event>, i: nat, rate: real, burst: int, cleaning: bool)
    requires i < |events| && events[i].Request?
  {
    Take(Track(events[..i], events[i].key, rate, burst, cleaning), events[i].now, rate, burst).1
  }

  /** A limiter answers as its keys' buckets, each followed on its own. */
  method Run(l: Limiter, events: seq<Event>) returns (answers: seq<bool>)
    requires l.buckets == map[] && l.rate > 0.0 && l.burst > 0
    modifies l`buckets
    ensures |answers| == |events|
    ensures forall i :: 0 <= i < |events| && events[i].Request? ==>
              answers[i] == Allowed(events, i, l.rate, l.burst, true)
  {
    answers := [];
    for i := 0 to |events|
      invariant |answers| == i
      invariant forall key :: l.BucketOf(key) == Track(events[..i], key, l.rate, l.burst, true)
      invariant forall j :: 0 <= j < i && events[j].Request? ==> answers[j] == Allowed(events, j, l.rate, l.burst, true)
    {
      hide Take;
      assert events[..i + 1][..i] == events[..i];
      var ok := true;
      match events[i] {
        case Request(key, now) =>
          assert l.BucketOf(key) == Track(events[..i], key, l.rate, l.burst, true);
          ok := l.Allow(key, now);
        case Clean(ttl, now) => l.Cleanup(ttl, now);
      }
      answers := answers + [ok];
    }
  }

  // ---- cleanups that nobody notices ----

  ghost predicate Lasting(events: seq<Event>, rate: real, burst: int) {
    forall i :: 0 <= i < |events| && events[i].Clean? ==> rate * events[i].ttl >= burst as real
  }

  ghost predicate Sound(b: Option<Bucket>, now: real) {
    b.Some? ==> 0.0 <= b.value.tokens && b.value.lastRefill <= now
  }

  /** Waiting adds at most what the rate allows, and taking keeps the bucket sound. */
  lemma TakeSound(b: Option<Bucket>, now: real, rate: real, burst: int)
    requires Sound(b, now) && rate > 0.0 && burst > 0
    ensures Sound(Some(Take(b, now, rate, burst).0), now)
  {
    hide Inflow;
    if b.Some? {
      InflowGrows(now - b.value.lastRefill, now - b.value.lastRefill, rate);
    }
  }

  lemma {:induction false} TrackSound(events: seq<Event>, key: string, rate: real, burst: int, cleaning: bool,
      now: real)
    requires Ordered(events) && rate > 0.0 && burst > 0 && forall i :: 0 <= i < |events| ==> events[i].now <= now
    ensures Sound(Track(events, key, rate, burst, cleaning), now)
    decreases |events|
  {
    if events != [] {
      var n := |events| - 1;
      TrackSound(events[..n], key, rate, burst, cleaning, events[n].now);
      if events[n].Request? && events[n].key == key {
        TakeSound(Track(events[..n], key, rate, burst, cleaning), events[n].now, rate, burst);
      }
    }
  }

  /** A bucket not refilled for ttl is full whenever rate * ttl reaches the burst. */
  lemma StaleIsFull(b: Bucket, ttl: real, cleaned: real, now: real, rate: real, burst: int)
    requires Sound(Some(b), cleaned) && b.lastRefill < cleaned - ttl && cleaned <= now && rate > 0.0
              && rate * ttl >= burst as real
    ensures Level(Some(b), now, rate, burst) == burst as real
  {
    InflowIs(ttl, rate);
    hide Inflow;
    InflowGrows(ttl, now - b.lastRefill, rate);
  }

  /** With lasting cleanups a key's level is at every later time what it is without any. */
  lemma {:induction false} SameLevel(events: seq<Event>, key: string, rate: real, burst: int, now: real)
    requires Ordered(events) && Lasting(events, rate, burst) && rate > 0.0 && burst > 0
    requires forall i :: 0 <= i < |events| ==> events[i].now <= now
    ensures Level(Track(events, key, rate, burst, true), now, rate, burst) ==
              Level(Track(events, key, rate, burst, false), now, rate, burst)
    decreases |events|
  {
    hide Level, Tracked, Sound;
    if events != [] {
      var n := |events| - 1;
      var before := events[..n];
      SameLevel(before, key, rate, burst, now);
      SameLevel(before, key, rate, burst, events[n].now);
      TrackSound(before, key, rate, burst, true, events[n].now);
      SameTracked(Track(before, key, rate, burst, true), Track(before, key, rate, burst, false), events[n], key, rate,
        burst, now);
    }
  }

  lemma SameTracked(a: Option<Bucket>, b: Option<Bucket>, event: Event, key: string, rate: real, burst: int, now: real)
    requires Sound(a, event.now) && event.now <= now && rate > 0.0 && burst > 0
    requires event.Clean? ==> rate * event.ttl >= burst as real
    requires Level(a, event.now, rate, burst) == Level(b, event.now, rate, burst)
    requires Level(a, now, rate, burst) == Level(b, now, rate, burst)
    ensures Level(Tracked(a, event, key, rate, burst, true), now, rate, burst) ==
              Level(Tracked(b, event, key, rate, burst, false), now, rate, burst)
  {
    hide Inflow;
    if event.Clean? && a.Some? && a.value.lastRefill < event.now - event.ttl {
      StaleIsFull(a.value, event.ttl, event.now, now, rate, burst);
    }
  }

  lemma CleanupInvisible(events: seq<Event>, i: nat, rate: real, burst: int)
    requires Ordered(events) && Lasting(events, rate, burst) && rate > 0.0 && burst > 0
    requires i < |events| && events[i].Request?
    ensures Allowed(events, i, rate, burst, true) == Allowed(events, i, rate, burst, false)
  {
    SameLevel(events[..i], events[i].key, rate, burst, events[i].now);
  }

  // ---- how much gets through ----

  function Count(events: seq<Event>, key: string, i: nat, j: nat, rate: real, burst: int, cleaning: bool): nat
    requires i <= j <= |events|
    decreases j - i
  {
    if i == j then 0
    else
      Count(events, key, i, j - 1, rate, burst, cleaning)
      + if events[j - 1].Request? && events[j - 1].key == key && Allowed(events, j - 1, rate, burst, cleaning) then 1
          else 0
  }

  /** What was let through and what is still in the bucket never exceed the burst and what has flowed in. */
  lemma {:induction false} Flow(events: seq<Event>, key: string, i: nat, j: nat, rate: real, burst: int, now: real,
      start: real)
    requires i <= j <= |events| && Ordered(events) && rate > 0.0 && burst > 0
    requires forall k :: i <= k < j ==> start <= events[k].now
    requires start <= now && forall k :: 0 <= k < j ==> events[k].now <= now
    ensures Count(events, key, i, j, rate, burst, false) as real + Level(Track(events[..j], key, rate, burst, false),
              now, rate, burst)
              <= burst as real + Inflow(now - start, rate)
    decreases j - i
  {
    hide Inflow, Take, Level;
    if i == j {
      InflowGrows(now - start, now - start, rate);
      LevelAtMostBurst(Track(events[..j], key, rate, burst, false), now, rate, burst);
    } else {
      var last := events[j - 1];
      assert events[..j][..j - 1] == events[..j - 1];
      if last.Request? && last.key == key {
        Flow(events, key, i, j - 1, rate, burst, last.now, start);
        FlowTaken(Track(events[..j - 1], key, rate, burst, false), last.now, now, rate, burst);
        InflowAdds(last.now - start, now - last.now, rate);
      } else {
        Flow(events, key, i, j - 1, rate, burst, now, start);
      }
    }
  }

  lemma FlowTaken(b: Option<Bucket>, at: real, now: real, rate: real, burst: int)
    requires at <= now && rate > 0.0
    ensures var (after, ok) := Take(b, at, rate, burst);
            Level(Some(after), now, rate, burst) + (if ok then 1.0
                else 0.0) <= Level(b, at, rate, burst) + Inflow(now - at, rate)
  {
    hide Inflow;
  }

  lemma LevelAtMostBurst(b: Option<Bucket>, now: real, rate: real, burst: int)
    ensures Level(b, now, rate, burst) <= burst as real
  {}

  /** The requests of one key that were allowed. */
  ghost function Passed(events: seq<Event>, key: string, i: nat, j: nat, rate: real, burst: int, cleaning: bool)
    : set<nat>
    requires i <= j <= |events|
  {
    set k: nat | i <= k < j && events[k].Request? && events[k].key == key && Allowed(events, k, rate, burst, cleaning)
  }

  lemma {:induction false} CountIs(events: seq<Event>, key: string, i: nat, j: nat, rate: real, burst: int,
      cleaning: bool)
    requires i <= j <= |events|
    ensures Count(events, key, i, j, rate, burst, cleaning) == |Passed(events, key, i, j, rate, burst, cleaning)|
    decreases j - i
  {
    hide Allowed;
    if i < j {
      CountIs(events, key, i, j - 1, rate, burst, cleaning);
      var before, now := Passed(events, key, i, j - 1, rate, burst, cleaning),
        Passed(events, key, i, j, rate, burst, cleaning);
      if events[j - 1].Request? && events[j - 1].key == key && Allowed(events, j - 1, rate, burst, cleaning) {
        assert now == before + {j - 1};
      } else {
        assert now == before;
      }
    }
  }

  /** In any window of length `span` one key is allowed at most burst + rate * span requests. */
  lemma WindowBound(events: seq<Event>, key: string, i: nat, j: nat, start: real, span: real, rate: real, burst: int)
    requires i <= j <= |events| && Ordered(events) && Lasting(events, rate, burst) && rate > 0.0 && burst > 0
              && span >= 0.0
    requires forall k :: i <= k < j ==> start <= events[k].now <= start + span
    ensures |Passed(events, key, i, j, rate, burst, true)| as real <= burst as real + rate * span
  {
    CountIs(events, key, i, j, rate, burst, true);
    InflowIs(span, rate);
    hide Inflow, Take, Level, Lasting;
    SameCount(events, key, i, j, rate, burst);
    if i < j {
      assert forall k :: 0 <= k < j ==> events[k].now <= events[j - 1].now;
      Flow(events, key, i, j, rate, burst, start + span, start);
      TrackSound(events[..j], key, rate, burst, false, start + span);
      LevelNonNegative(Track(events[..j], key, rate, burst, false), start + span, rate, burst);
    } else {
      InflowGrows(span, span, rate);
    }
  }

  lemma LevelNonNegative(b: Option<Bucket>, now: real, rate: real, burst: int)
    requires Sound(b, now) && rate > 0.0 && burst > 0
    ensures Level(b, now, rate, burst) >= 0.0
  {
    hide Inflow;
    if b.Some? {
      InflowGrows(now - b.value.lastRefill, now - b.value.lastRefill, rate);
    }
  }

  lemma {:induction false} SameCount(events: seq<Event>, key: string, i: nat, j: nat, rate: real, burst: int)
    requires i <= j <= |events| && Ordered(events) && Lasting(events, rate, burst) && rate > 0.0 && burst > 0
    ensures Count(events, key, i, j, rate, burst, true) == Count(events, key, i, j, rate, burst, false)
    decreases j - i
  {
    hide Take, Level, Inflow, Lasting;
    if i < j {
      SameCount(events, key, i, j - 1, rate, burst);
      if events[j - 1].Request? {
        CleanupInvisible(events, j - 1, rate, burst);
      }
    }
  }

  // ---- cleanups that somebody notices ----

  /** n requests for one key at one time. */
  function Volley(n: nat, key: string, now: real): seq<Event> {
    seq(n, i => Request(key, now))
  }

  lemma TakeAtOnce(b: Option<Bucket>, now: real, rate: real, burst: int)
    ensures var level := Level(b, now, rate, burst);
            && Take(b, now, rate, burst).1 == (level >= 1.0)
            && Level(Some(Take(b, now, rate, burst).0), now, rate, burst) == if level < 1.0 then level else level - 1.0
  {
    hide Inflow;
    InflowAdds(0.0, 0.0, rate);
  }

  lemma {:induction false} TrackVolley(before: seq<Event>, n: nat, key: string, now: real, rate: real, burst: int,
      cleaning: bool)
    requires n >= 1
    ensures var events := before + Volley(n, key, now);
            && events[..|events| - 1] == before + Volley(n - 1, key, now)
            && events[|events| - 1] == Request(key, now)
            && Track(events, key, rate, burst, cleaning)
               == Some(Take(Track(before + Volley(n - 1, key, now), key, rate, burst, cleaning), now, rate, burst).0)
  {
    hide Take;
    var events := before + Volley(n, key, now);
    assert events[..|events| - 1] == before + Volley(n - 1, key, now);
  }

  /** n requests at one time use up the level as far as it goes. */
  lemma {:induction false} VolleyLevel(before: seq<Event>, n: nat, key: string, now: real, rate: real, burst: int,
      cleaning: bool)
    ensures var level := Level(Track(before, key, rate, burst, cleaning), now, rate, burst);
            var after := Level(Track(before + Volley(n, key, now), key, rate, burst, cleaning), now, rate, burst);
            if level >= n as real then after == level - n as real else after < 1.0
    decreases n
  {
    hide Level, Take, Track;
    if n == 0 {
      assert before + Volley(0, key, now) == before;
    } else {
      VolleyLevel(before, n - 1, key, now, rate, burst, cleaning);
      TrackVolley(before, n, key, now, rate, burst, cleaning);
      TakeAtOnce(Track(before + Volley(n - 1, key, now), key, rate, burst, cleaning), now, rate, burst);
    }
  }

  /** The last of n requests at one time is allowed exactly when the level before the first was at least n. */
  lemma {:induction false} LastOfVolley(before: seq<Event>, n: nat, key: string, now: real, rate: real, burst: int,
      cleaning: bool)
    requires n >= 1
    ensures var events := before + Volley(n, key, now);
            && events[|events| - 1] == Request(key, now)
            && (Allowed(events, |events| - 1, rate, burst, cleaning) <==>
                  Level(Track(before, key, rate, burst, cleaning), now, rate, burst) >= n as real)
  {
    hide Level, Take, Track;
    VolleyLevel(before, n - 1, key, now, rate, burst, cleaning);
    TrackVolley(before, n, key, now, rate, burst, cleaning);
    TakeAtOnce(Track(before + Volley(n - 1, key, now), key, rate, burst, cleaning), now, rate, burst);
  }

  /** burst requests at one time empty the bucket. */
  function Drained(burst: nat, key: string, at: real): seq<Event> {
    Volley(burst, key, at)
  }

  /** Every cleanup uses this ttl. */
  ghost predicate Uses(events: seq<Event>, ttl: real) {
    forall i :: 0 <= i < |events| && events[i].Clean? ==> events[i].ttl == ttl
  }

  ghost predicate Unnoticed(events: seq<Event>, rate: real, burst: int) {
    forall i :: 0 <= i < |events| && events[i].Request? ==>
        Allowed(events, i, rate, burst, true) == Allowed(events, i, rate, burst, false)
  }

  /** Cleaning up with this ttl changes no answer in any run. */
  ghost predicate SafeTtl(ttl: real, rate: real, burst: int) {
    forall events :: Ordered(events) && Uses(events, ttl) ==> Unnoticed(events, rate, burst)
  }

  lemma {:induction false} DrainedLevel(key: string, at: real, later: real, rate: real, burst: int, cleaning: bool)
    requires rate > 0.0 && burst > 0
    ensures var b := Track(Drained(burst, key, at), key, rate, burst, cleaning);
            && b == Some(Bucket(0.0, at))
            && Level(b, later, rate, burst) == Min(burst as real, Inflow(later - at, rate))
  {
    hide Inflow, Level, Take, Track;
    VolleyLevel([], burst, key, at, rate, burst, cleaning);
    TrackVolley([], burst, key, at, rate, burst, cleaning);
    VolleyLevel([], burst - 1, key, at, rate, burst, cleaning);
    assert [] + Volley(burst, key, at) == Drained(burst, key, at);
    NothingTracked(key, at, rate, burst, cleaning);
    TakenLast(Track([] + Volley(burst - 1, key, at), key, rate, burst, cleaning), at, rate, burst, later);
  }

  lemma {:induction false} NothingTracked(key: string, at: real, rate: real, burst: int, cleaning: bool)
    ensures Level(Track([], key, rate, burst, cleaning), at, rate, burst) == burst as real
  {}

  lemma TakenLast(b: Option<Bucket>, at: real, rate: real, burst: int, later: real)
    requires Level(b, at, rate, burst) == 1.0
    ensures Take(b, at, rate, burst).0 == Bucket(0.0, at)
    ensures Level(Some(Bucket(0.0, at)), later, rate, burst) == Min(burst as real, Inflow(later - at, rate))
  {
    hide Inflow;
  }

  /** Of requests that a key makes at once for the first time, exactly the first `burst` are allowed. */
  lemma BurstAtOnce(n: nat, key: string, at: real, rate: real, burst: int, cleaning: bool)
    requires rate > 0.0 && burst > 0 && n >= 1
    ensures var events := Volley(n, key, at);
            events[n - 1] == Request(key, at) && (Allowed(events, n - 1, rate, burst, cleaning) <==> n <= burst)
  {
    hide Level, Take, Track;
    assert [] + Volley(n, key, at) == Volley(n, key, at);
    LastOfVolley([], n, key, at, rate, burst, cleaning);
    NothingTracked(key, at, rate, burst, cleaning);
  }

  /** And then, after a pause, the n-th request is allowed if and only if the rate has made room for n. */
  lemma RefillsAtTheRate(n: nat, key: string, at: real, later: real, rate: real, burst: int, cleaning: bool)
    requires rate > 0.0 && burst > 0 && n >= 1 && at <= later
    ensures var events := Volley(burst, key, at) + Volley(n, key, later);
            && events[|events| - 1] == Request(key, later)
            && (Allowed(events, |events| - 1, rate, burst, cleaning) <==>
                  n <= burst && n as real <= rate * (later - at))
  {
    hide Level, Take, Track, Inflow;
    LastOfVolley(Drained(burst, key, at), n, key, later, rate, burst, cleaning);
    DrainedLevel(key, at, later, rate, burst, cleaning);
    InflowIs(later - at, rate);
  }

  /** A time after ttl has passed and before the bucket is full again. */
  lemma TooEarly(ttl: real, rate: real, burst: int) returns (t: real)
    requires rate > 0.0 && burst > 0 && Inflow(ttl, rate) < burst as real
    ensures t >= 0.0 && t > ttl && Inflow(t, rate) < burst as real
  {
    if ttl < 0.0 {
      t := 0.0;
    } else {
      t := (ttl + burst as real / rate) / 2.0;
      assert burst as real / rate * rate == burst as real;
      assert ttl < burst as real / rate;
    }
  }

  lemma NoticedRun(ttl: real, rate: real, burst: int, t: real)
    requires rate > 0.0 && burst > 0 && t >= 0.0 && t > ttl && Inflow(t, rate) < burst as real
    ensures var cleaned := Drained(burst, "k", 0.0) + [Clean(ttl, t)];
            var events := cleaned + Volley(burst, "k", t);
            && Ordered(events) && Uses(events, ttl) && !Unnoticed(events, rate, burst)
  {
    hide Inflow, Level, Take, Track;
    var drained := Drained(burst, "k", 0.0);
    var cleaned := drained + [Clean(ttl, t)];
    var events := cleaned + Volley(burst, "k", t);
    DrainedLevel("k", 0.0, t, rate, burst, true);
    DrainedLevel("k", 0.0, t, rate, burst, false);
    CleanedTrack(drained, ttl, t, rate, burst);
    LastOfVolley(cleaned, burst, "k", t, rate, burst, true);
    LastOfVolley(cleaned, burst, "k", t, rate, burst, false);
    assert Allowed(events, |events| - 1, rate, burst, true) != Allowed(events, |events| - 1, rate, burst, false);
  }

  lemma {:induction false} CleanedTrack(drained: seq<Event>, ttl: real, t: real, rate: real, burst: int)
    requires Track(drained, "k", rate, burst, true) == Some(Bucket(0.0, 0.0)) && t > ttl
    ensures var cleaned := drained + [Clean(ttl, t)];
            && Track(cleaned, "k", rate, burst, false) == Track(drained, "k", rate, burst, false)
            && Level(Track(cleaned, "k", rate, burst, true), t, rate, burst) == burst as real
  {
    hide Inflow, Take;
    var cleaned := drained + [Clean(ttl, t)];
    assert cleaned[..|cleaned| - 1] == drained;
  }

  /** Cleanups go unnoticed exactly when ttl is long enough to fill an empty bucket. */
  lemma SafeTtlIff(ttl: real, rate: real, burst: int)
    requires rate > 0.0 && burst > 0
    ensures SafeTtl(ttl, rate, burst) <==> rate * ttl >= burst as real
  {
    InflowIs(ttl, rate);
    if rate * ttl >= burst as real {
      forall events: seq<Event> | Ordered(events) && Uses(events, ttl)
        ensures Unnoticed(events, rate, burst)
      {
        forall i | 0 <= i < |events| && events[i].Request?
          ensures Allowed(events, i, rate, burst, true) == Allowed(events, i, rate, burst, false)
        {
          CleanupInvisible(events, i, rate, burst);
        }
      }
    } else {
      var t := TooEarly(ttl, rate, burst);
      NoticedRun(ttl, rate, burst, t);
    }
  }
}
