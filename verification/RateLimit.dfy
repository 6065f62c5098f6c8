/**
 * internal/http/middleware/ratelimit.go: a global token bucket, then one
 * bucket per user, kept in a map from which idle users are evicted.
 *
 * The buckets of golang.org/x/time/rate are taken as exact: they start full,
 * refill at a constant rate up to the burst, and an admission costs one token.
 */
module RateLimit {
  import opened Common

  /** Levels are counted in billionths of a token, so that a rate per second is a gain per nanosecond. */
  const TOKEN := NANOS

  datatype Limit = Limit(rate: nat, burst: nat)

  datatype Bucket = Bucket(level: int, at: int)

  datatype Seen = Seen(limiter: Bucket, lastSeen: int)

  datatype Config = Config(global: Limit, user: Limit, ttl: nat)

  datatype Request = Request(user: string, at: int)

  datatype Verdict = Admitted | GlobalRefused | UserRefused

  /** The limiter's variables: the global bucket, the user map and `cleaned`. */
  datatype State = State(global: Bucket, users: map<string, Seen>, cleaned: int)

  /** The same limiter without eviction. */
  datatype Kept = Kept(global: Bucket, users: map<string, Bucket>)

  // ---------------------------------------------------------------- buckets

  function Capacity(l: Limit): nat {
    l.burst * TOKEN
  }

  /** What a bucket gains while `dt` nanoseconds pass; a clock set back gains nothing. */
  function Gain(l: Limit, dt: int): nat
    decreases if dt <= 0 then 0 else dt
  {
    if dt <= 0 then 0 else l.rate + Gain(l, dt - 1)
  }

  lemma {:induction false} GainAdds(l: Limit, a: nat, b: nat)
    ensures Gain(l, a + b) == Gain(l, a) + Gain(l, b)
    decreases b
  {
    if b > 0 {
      GainAdds(l, a, b - 1);
    }
  }

  lemma {:induction false} GainIs(l: Limit, dt: nat)
    ensures Gain(l, dt) == l.rate * dt
    decreases dt
  {
    if dt > 0 {
      GainIs(l, dt - 1);
      assert l.rate * dt == l.rate + l.rate * (dt - 1);
    }
  }

  function Full(l: Limit, now: int): Bucket {
    Bucket(Capacity(l), now)
  }

  function Refill(l: Limit, b: Bucket, now: int): Bucket {
    var level := b.level + Gain(l, now - b.at);
    Bucket(if level < Capacity(l) then level else Capacity(l), now)
  }

  predicate Enough(l: Limit, b: Bucket, now: int) {
    Refill(l, b, now).level >= TOKEN
  }

  function Take(l: Limit, b: Bucket, now: int): Bucket {
    var refilled := Refill(l, b, now);
    if refilled.level >= TOKEN then refilled.(level := refilled.level - TOKEN) else refilled
  }

  ghost predicate Sound(l: Limit, b: Bucket, now: int) {
    0 <= b.level <= Capacity(l) && b.at <= now
  }

  /** A bucket idle for as long as a whole burst takes to refill is full. */
  lemma IdleIsFull(l: Limit, b: Bucket, idle: nat, now: int)
    requires Sound(l, b, now) && now - b.at >= idle
    requires Capacity(l) <= Gain(l, idle)
    ensures Refill(l, b, now) == Full(l, now)
  {
    GainAdds(l, idle, now - b.at - idle);
  }

  /** Waiting longer raises a level by no more than the gain meanwhile, and a full bucket stays full. */
  lemma RefillLater(l: Limit, b: Bucket, now: int, later: int)
    requires Sound(l, b, now) && now <= later
    ensures 0 <= Refill(l, b, now).level <= Refill(l, b, later).level <= Refill(l, b, now).level + Gain(l, later - now)
  {
    GainAdds(l, now - b.at, later - now);
  }

  // ---------------------------------------------------------------- machines

  function Sweep(users: map<string, Seen>, now: int, ttl: int): map<string, Seen> {
    map u | u in users && now - users[u].lastSeen <= ttl :: users[u]
  }

  function Found(c: Config, s: State, q: Request): Bucket {
    if q.user in s.users then s.users[q.user].limiter else Full(c.user, q.at)
  }

  /** The user marked as seen, the idle swept out, a token taken. */
  function UsersAfter(c: Config, s: State, q: Request): map<string, Seen> {
    var found := Found(c, s, q);
    var seen := s.users[q.user := Seen(found, q.at)];
    var kept := if q.at - s.cleaned > c.ttl then Sweep(seen, q.at, c.ttl) else seen;
    kept[q.user := Seen(Take(c.user, found, q.at), q.at)]
  }

  function Next(c: Config, s: State, q: Request): State {
    var g := Take(c.global, s.global, q.at);
    if !Enough(c.global, s.global, q.at) || q.user == "" then
      s.(global := g)
    else
      State(g,
            UsersAfter(c, s, q),
            if q.at - s.cleaned > c.ttl then q.at else s.cleaned)
  }

  function Decide(c: Config, s: State, q: Request): Verdict {
    if !Enough(c.global, s.global, q.at) then GlobalRefused
    else if q.user == "" || Enough(c.user, Found(c, s, q), q.at) then Admitted
    else UserRefused
  }

  function KeptFound(c: Config, k: Kept, q: Request): Bucket {
    if q.user in k.users then k.users[q.user] else Full(c.user, q.at)
  }

  function KeptNext(c: Config, k: Kept, q: Request): Kept {
    var g := Take(c.global, k.global, q.at);
    if !Enough(c.global, k.global, q.at) || q.user == "" then
      k.(global := g)
    else
      Kept(g, k.users[q.user := Take(c.user, KeptFound(c, k, q), q.at)])
  }

  function KeptDecide(c: Config, k: Kept, q: Request): Verdict {
    if !Enough(c.global, k.global, q.at) then GlobalRefused
    else if q.user == "" || Enough(c.user, KeptFound(c, k, q), q.at) then Admitted
    else UserRefused
  }

  function Verdicts(c: Config, s: State, qs: seq<Request>): (vs: seq<Verdict>)
    ensures |vs| == |qs|
    decreases |qs|
  {
    if qs == [] then [] else [Decide(c, s, qs[0])] + Verdicts(c, Next(c, s, qs[0]), qs[1..])
  }

  function KeptVerdicts(c: Config, k: Kept, qs: seq<Request>): (vs: seq<Verdict>)
    ensures |vs| == |qs|
    decreases |qs|
  {
    if qs == [] then [] else [KeptDecide(c, k, qs[0])] + KeptVerdicts(c, KeptNext(c, k, qs[0]), qs[1..])
  }

  function KeptAfter(c: Config, k: Kept, qs: seq<Request>): Kept
    decreases |qs|
  {
    if qs == [] then k else KeptAfter(c, KeptNext(c, k, qs[0]), qs[1..])
  }

  function Fresh(c: Config, start: int): State {
    State(Full(c.global, start), map[], start)
  }

  function FreshKept(c: Config, start: int): Kept {
    Kept(Full(c.global, start), map[])
  }

  predicate Ordered(qs: seq<Request>, start: int) {
    qs == [] || (start <= qs[0].at && Ordered(qs[1..], qs[0].at))
  }

  // ---------------------------------------------------------------- eviction is invisible

  ghost predicate KeptSound(c: Config, k: Kept, now: int) {
    && Sound(c.global, k.global, now)
    && forall u :: u in k.users ==> Sound(c.user, k.users[u], now)
  }

  /** Whoever is evicted has been idle for more than `ttl`, so for a nanosecond more at least. */
  ghost predicate RefillsWhileIdle(l: Limit, ttl: nat) {
    Capacity(l) <= Gain(l, ttl + 1)
  }

  /** The kept map holds every bucket of the evicting one; the evicted are full. */
  ghost predicate Agrees(c: Config, s: State, k: Kept, now: int) {
    && s.global == k.global
    && (forall u :: u in s.users ==> u in k.users && s.users[u] == Seen(k.users[u], k.users[u].at))
    && (forall u :: u in k.users && u !in s.users ==> Refill(c.user, k.users[u], now) == Full(c.user, now))
  }

  lemma KeptNextSound(c: Config, k: Kept, now: int, q: Request)
    requires KeptSound(c, k, now) && now <= q.at
    ensures KeptSound(c, KeptNext(c, k, q), q.at)
  {
  }

  /** Time alone keeps the agreement. */
  lemma AgreesLater(c: Config, s: State, k: Kept, now: int, later: int)
    requires KeptSound(c, k, now) && Agrees(c, s, k, now) && now <= later
    ensures Agrees(c, s, k, later)
  {
    forall u | u in k.users && u !in s.users
      ensures Refill(c.user, k.users[u], later) == Full(c.user, later)
    {
      RefillLater(c.user, k.users[u], now, later);
    }
  }

  lemma AgreesNext(c: Config, s: State, k: Kept, now: int, q: Request)
    requires KeptSound(c, k, now) && Agrees(c, s, k, now) && now <= q.at
    requires RefillsWhileIdle(c.user, c.ttl)
    ensures Decide(c, s, q) == KeptDecide(c, k, q)
    ensures Agrees(c, Next(c, s, q), KeptNext(c, k, q), q.at)
  {
    AgreesLater(c, s, k, now, q.at);
    var a, b := Found(c, s, q), KeptFound(c, k, q);
    assert Refill(c.user, a, q.at) == Refill(c.user, b, q.at);
    if Enough(c.global, s.global, q.at) && q.user != "" {
      var k' := KeptNext(c, k, q);
      var s' := Next(c, s, q);
      forall u | u in k'.users && u !in s'.users
        ensures Refill(c.user, k'.users[u], q.at) == Full(c.user, q.at)
      {
        if u in s.users {
          IdleIsFull(c.user, k.users[u], c.ttl + 1, q.at);
        }
      }
    }
  }

  lemma {:induction false} AgreesThroughout(c: Config, s: State, k: Kept, now: int, qs: seq<Request>)
    requires KeptSound(c, k, now) && Agrees(c, s, k, now) && Ordered(qs, now)
    requires RefillsWhileIdle(c.user, c.ttl)
    ensures Verdicts(c, s, qs) == KeptVerdicts(c, k, qs)
    decreases |qs|
  {
    if qs != [] {
      AgreesNext(c, s, k, now, qs[0]);
      KeptNextSound(c, k, now, qs[0]);
      AgreesThroughout(c, Next(c, s, qs[0]), KeptNext(c, k, qs[0]), qs[0].at, qs[1..]);
    }
  }

  /** Evicting idle users changes no decision when a burst refills within the idle time. */
  lemma EvictionIsInvisible(c: Config, start: int, qs: seq<Request>)
    requires Ordered(qs, start)
    requires RefillsWhileIdle(c.user, c.ttl)
    ensures Verdicts(c, Fresh(c, start), qs) == KeptVerdicts(c, FreshKept(c, start), qs)
  {
    AgreesThroughout(c, Fresh(c, start), FreshKept(c, start), start, qs);
  }

  // ---------------------------------------------------------------- admissions in a window

  function Count(u: string, qs: seq<Request>, vs: seq<Verdict>): nat
    requires |qs| == |vs|
  {
    if qs == [] then 0
    else (if qs[0].user == u && vs[0] == Admitted then 1 else 0) + Count(u, qs[1..], vs[1..])
  }

  function Spent(u: string, qs: seq<Request>, vs: seq<Verdict>): nat
    requires |qs| == |vs|
  {
    if qs == [] then 0
    else (if qs[0].user == u && vs[0] == Admitted then TOKEN else 0) + Spent(u, qs[1..], vs[1..])
  }

  lemma {:induction false} SpentIsCounted(u: string, qs: seq<Request>, vs: seq<Verdict>)
    requires |qs| == |vs|
    ensures Spent(u, qs, vs) == Count(u, qs, vs) * TOKEN
  {
    if qs != [] {
      SpentIsCounted(u, qs[1..], vs[1..]);
    }
  }

  function Last(qs: seq<Request>, start: int): int {
    if qs == [] then start else qs[|qs| - 1].at
  }

  /** The level a user's next request finds. */
  function LevelOf(c: Config, k: Kept, u: string, now: int): int {
    Refill(c.user, if u in k.users then k.users[u] else Full(c.user, now), now).level
  }

  /** Waiting raises the level by no more than the refill. */
  lemma LevelRises(c: Config, k: Kept, now: int, u: string, later: int)
    requires KeptSound(c, k, now) && now <= later
    ensures 0 <= LevelOf(c, k, u, now) <= Capacity(c.user)
    ensures LevelOf(c, k, u, later) <= LevelOf(c, k, u, now) + Gain(c.user, later - now)
  {
    if u in k.users {
      RefillLater(c.user, k.users[u], now, now);
      RefillLater(c.user, k.users[u], now, later);
    }
  }

  /** A request costs the level its own admission. */
  lemma LevelFalls(c: Config, k: Kept, u: string, q: Request)
    requires KeptSound(c, k, q.at) && u != ""
    ensures LevelOf(c, KeptNext(c, k, q), u, q.at)
         == LevelOf(c, k, u, q.at) - (if q.user == u && KeptDecide(c, k, q) == Admitted then TOKEN else 0)
  {
  }

  lemma Spends(c: Config, k: Kept, now: int, u: string, q: Request)
    requires KeptSound(c, k, now) && now <= q.at && u != ""
    ensures KeptSound(c, KeptNext(c, k, q), q.at)
    ensures var cost := if q.user == u && KeptDecide(c, k, q) == Admitted then TOKEN else 0;
            LevelOf(c, KeptNext(c, k, q), u, q.at) + cost <= LevelOf(c, k, u, now) + Gain(c.user, q.at - now)
  {
    LevelRises(c, k, now, u, q.at);
    KeptNextSound(c, k, now, q);
    KeptLater(c, k, now, q.at);
    LevelFalls(c, k, u, q);
  }

  lemma {:induction false} OrderedEnds(qs: seq<Request>, start: int)
    requires Ordered(qs, start)
    ensures start <= Last(qs, start)
    decreases |qs|
  {
    if qs != [] {
      OrderedEnds(qs[1..], qs[0].at);
      assert Last(qs[1..], qs[0].at) == Last(qs, start);
    }
  }

  lemma {:induction false} AdmissionsAreBounded(c: Config, k: Kept, now: int, u: string, qs: seq<Request>)
    requires KeptSound(c, k, now) && Ordered(qs, now) && u != ""
    ensures Spent(u, qs, KeptVerdicts(c, k, qs)) <= LevelOf(c, k, u, now) + Gain(c.user, Last(qs, now) - now)
    decreases |qs|
  {
    if qs == [] {
      LevelRises(c, k, now, u, now);
    } else {
      var q, end := qs[0], Last(qs, now);
      Spends(c, k, now, u, q);
      assert Last(qs[1..], q.at) == end;
      OrderedEnds(qs[1..], q.at);
      AdmissionsAreBounded(c, KeptNext(c, k, q), q.at, u, qs[1..]);
      SpentFirst(c, k, u, qs);
      GainAdds(c.user, q.at - now, end - q.at);
    }
  }

  lemma SpentFirst(c: Config, k: Kept, u: string, qs: seq<Request>)
    requires qs != []
    ensures Spent(u, qs, KeptVerdicts(c, k, qs))
         == (if qs[0].user == u && KeptDecide(c, k, qs[0]) == Admitted then TOKEN else 0)
          + Spent(u, qs[1..], KeptVerdicts(c, KeptNext(c, k, qs[0]), qs[1..]))
  {
    assert KeptVerdicts(c, k, qs)[1..] == KeptVerdicts(c, KeptNext(c, k, qs[0]), qs[1..]);
  }

  lemma KeptLater(c: Config, k: Kept, now: int, later: int)
    requires KeptSound(c, k, now) && now <= later
    ensures KeptSound(c, k, later)
  {
  }

  /** Deciding a run from its i-th request is deciding it from the state reached there. */
  lemma {:induction false} VerdictsFrom(c: Config, k: Kept, now: int, qs: seq<Request>, i: nat)
    requires KeptSound(c, k, now) && Ordered(qs, now) && i < |qs|
    ensures KeptVerdicts(c, k, qs)[i..] == KeptVerdicts(c, KeptAfter(c, k, qs[..i]), qs[i..])
    ensures KeptSound(c, KeptAfter(c, k, qs[..i]), qs[i].at)
    ensures Ordered(qs[i..], qs[i].at)
    decreases |qs|
  {
    if i == 0 {
      assert qs[..0] == [] && qs[0..] == qs;
      KeptLater(c, k, now, qs[0].at);
    } else {
      KeptNextSound(c, k, now, qs[0]);
      VerdictsFrom(c, KeptNext(c, k, qs[0]), qs[0].at, qs[1..], i - 1);
      assert qs[1..][..i - 1] == qs[..i][1..];
      assert qs[1..][i - 1..] == qs[i..];
    }
  }

  lemma {:induction false} VerdictsUpTo(c: Config, k: Kept, now: int, qs: seq<Request>, j: nat)
    requires Ordered(qs, now) && j <= |qs|
    ensures KeptVerdicts(c, k, qs)[..j] == KeptVerdicts(c, k, qs[..j])
    ensures Ordered(qs[..j], now)
    decreases |qs|
  {
    if j > 0 {
      VerdictsUpTo(c, KeptNext(c, k, qs[0]), qs[0].at, qs[1..], j - 1);
      assert qs[..j][1..] == qs[1..][..j - 1];
    }
  }

  /** In any window of a run a user is admitted at most the burst plus the refill, evictions or not. */
  lemma WindowBound(c: Config, start: int, qs: seq<Request>, i: nat, j: nat, u: string)
    requires Ordered(qs, start) && i < j <= |qs| && u != ""
    requires c.user.burst * TOKEN <= c.user.rate * (c.ttl + 1)
    ensures qs[i].at <= qs[j - 1].at
    ensures Count(u, qs[i..j], Verdicts(c, Fresh(c, start), qs)[i..j]) * TOKEN
         <= c.user.burst * TOKEN + c.user.rate * (qs[j - 1].at - qs[i].at)
  {
    GainIs(c.user, c.ttl + 1);
    EvictionIsInvisible(c, start, qs);
    var k := FreshKept(c, start);
    var from := KeptAfter(c, k, qs[..i]);
    VerdictsFrom(c, k, start, qs, i);
    VerdictsUpTo(c, from, qs[i].at, qs[i..], j - i);
    assert qs[i..][..j - i] == qs[i..j];
    var vs := KeptVerdicts(c, k, qs);
    assert vs[i..][..j - i] == vs[i..j];
    AdmissionsAreBounded(c, from, qs[i].at, u, qs[i..j]);
    SpentIsCounted(u, qs[i..j], vs[i..j]);
    LevelRises(c, from, qs[i].at, u, qs[i].at);
    OrderedEnds(qs[i..j], qs[i].at);
    GainIs(c.user, qs[j - 1].at - qs[i].at);
  }

  // ---------------------------------------------------------------- exactly when

  function Repeat(u: string, at: int, n: nat): (qs: seq<Request>)
    ensures |qs| == n
  {
    seq(n, i => Request(u, at))
  }

  lemma {:induction false} OrderedRepeat(u: string, at: int, n: nat, start: int, rest: seq<Request>)
    requires start <= at && Ordered(rest, at)
    ensures Ordered(Repeat(u, at, n) + rest, start)
    decreases n
  {
    var qs := Repeat(u, at, n) + rest;
    if n == 0 {
      assert qs == rest;
    } else {
      OrderedRepeat(u, at, n - 1, at, rest);
      assert qs[1..] == Repeat(u, at, n - 1) + rest;
    }
  }

  /** The state after n admissions of one user at one instant. */
  function Drained(c: Config, s: State, u: string, at: int, n: nat): State {
    State(Bucket(Refill(c.global, s.global, at).level - n * TOKEN, at),
          s.users[u := Seen(Bucket(Refill(c.user, Found(c, s, Request(u, at)), at).level - n * TOKEN, at), at)],
          s.cleaned)
  }

  /** Enough tokens for n admissions of u. */
  predicate Holds(c: Config, s: State, u: string, at: int, n: nat) {
    && at - s.cleaned <= c.ttl
    && Refill(c.global, s.global, at).level >= n * TOKEN
    && Refill(c.user, Found(c, s, Request(u, at)), at).level >= n * TOKEN
  }

  lemma DrainOne(c: Config, s: State, u: string, at: int, n: nat)
    requires n > 0 && u != "" && Holds(c, s, u, at, n)
    ensures Decide(c, s, Request(u, at)) == Admitted
    ensures Next(c, s, Request(u, at)) == Drained(c, s, u, at, 1)
    ensures Holds(c, Drained(c, s, u, at, 1), u, at, n - 1)
    ensures Drained(c, Drained(c, s, u, at, 1), u, at, n - 1) == Drained(c, s, u, at, n)
  {
  }

  lemma CountNext(c: Config, s: State, u: string, qs: seq<Request>)
    requires qs != []
    ensures Count(u, qs, Verdicts(c, s, qs))
         == (if qs[0].user == u && Decide(c, s, qs[0]) == Admitted then 1 else 0)
          + Count(u, qs[1..], Verdicts(c, Next(c, s, qs[0]), qs[1..]))
  {
    assert Verdicts(c, s, qs)[1..] == Verdicts(c, Next(c, s, qs[0]), qs[1..]);
  }

  lemma {:induction false} Drain(c: Config, s: State, u: string, at: int, n: nat, rest: seq<Request>)
    requires n > 0 && u != "" && Holds(c, s, u, at, n)
    ensures Count(u, Repeat(u, at, n) + rest, Verdicts(c, s, Repeat(u, at, n) + rest))
         == n + Count(u, rest, Verdicts(c, Drained(c, s, u, at, n), rest))
    decreases n
  {
    var qs := Repeat(u, at, n) + rest;
    assert qs[1..] == Repeat(u, at, n - 1) + rest;
    CountNext(c, s, u, qs);
    DrainOne(c, s, u, at, n);
    if n == 1 {
      assert qs[1..] == rest;
    } else {
      Drain(c, Drained(c, s, u, at, 1), u, at, n - 1, rest);
    }
  }

  ghost predicate Unnoticed(c: Config, start: int, qs: seq<Request>) {
    Verdicts(c, Fresh(c, start), qs) == KeptVerdicts(c, FreshKept(c, start), qs)
  }

  /** Another user's first request, made late enough, evicts an idle one. */
  lemma Evicts(c: Config, s: State, u: string, q: Request)
    requires s.users.Keys == {u} && q.user != u && q.user != ""
    requires q.at - s.cleaned > c.ttl && q.at - s.users[u].lastSeen > c.ttl
    requires Enough(c.global, s.global, q.at)
    ensures var s' := Next(c, s, q); u !in s'.users && s'.cleaned == q.at && s'.global == Take(c.global, s.global, q.at)
  {
  }

  /** Nothing is gained at rate zero. */
  lemma {:induction false} NoGain(l: Limit, dt: int)
    requires l.rate == 0
    ensures Gain(l, dt) == 0
    decreases dt
  {
    if dt > 0 {
      NoGain(l, dt - 1);
    }
  }

  /** A burst of `a`, a request of `b`, another burst of `a`. */
  function Provocation(n: nat, t: int): seq<Request> {
    Repeat("a", 0, n) + [Request("b", t)] + Repeat("a", t, n)
  }

  /** When the first burst is forgotten, both are admitted. */
  lemma BothAdmitted(c: Config, n: nat, t: int)
    requires c.user.burst == n && n > 0 && t > c.ttl && c.global == Limit(0, 2 * n + 1)
    ensures Count("a", Provocation(n, t), Verdicts(c, Fresh(c, 0), Provocation(n, t))) == 2 * n
  {
    var again := Repeat("a", t, n);
    var later := [Request("b", t)] + again;
    var s := Fresh(c, 0);
    Drain(c, s, "a", 0, n, later);
    var s1 := Drained(c, s, "a", 0, n);
    NoGain(c.global, t);
    Evicts(c, s1, "a", later[0]);
    CountNext(c, s1, "a", later);
    assert later[1..] == again && again + [] == again;
    Drain(c, Next(c, s1, later[0]), "a", t, n, []);
    assert Provocation(n, t) == Repeat("a", 0, n) + later;
  }

  lemma ProvocationOrdered(n: nat, t: nat)
    ensures Ordered(Provocation(n, t), 0) && Last(Provocation(n, t), 0) == t
  {
    var again := Repeat("a", t, n);
    var later := [Request("b", t)] + again;
    assert later[1..] == again && again + [] == again;
    OrderedRepeat("a", t, n, t, []);
    OrderedRepeat("a", 0, n, 0, later);
    assert Provocation(n, t) == Repeat("a", 0, n) + later;
  }

  /** A burst forgotten too early admits more than one bucket, refilled so briefly, would. */
  lemma EarlyEviction(user: Limit, ttl: nat) returns (c: Config, qs: seq<Request>)
    requires !RefillsWhileIdle(user, ttl)
    ensures c.user == user && c.ttl == ttl && Ordered(qs, 0)
    ensures !Unnoticed(c, 0, qs)
  {
    var n, t := user.burst, ttl + 1;
    c := Config(Limit(0, 2 * n + 1), user, ttl);
    qs := Provocation(n, t);
    BothAdmitted(c, n, t);
    ProvocationOrdered(n, t);
    AdmissionsAreBounded(c, FreshKept(c, 0), 0, "a", qs);
    SpentIsCounted("a", qs, KeptVerdicts(c, FreshKept(c, 0), qs));
    LevelRises(c, FreshKept(c, 0), 0, "a", 0);
  }

  /** Eviction is never noticed, whatever the global limit and the requests, exactly when a burst refills meanwhile. */
  lemma EvictionIsInvisibleIff(user: Limit, ttl: nat)
    ensures (forall c: Config, start, qs ::
               c.user == user && c.ttl == ttl && Ordered(qs, start) ==> Unnoticed(c, start, qs))
       <==> user.burst * TOKEN <= user.rate * (ttl + 1)
  {
    GainIs(user, ttl + 1);
    if RefillsWhileIdle(user, ttl) {
      forall c: Config, start, qs | c.user == user && c.ttl == ttl && Ordered(qs, start)
        ensures Unnoticed(c, start, qs)
      {
        EvictionIsInvisible(c, start, qs);
      }
    } else {
      var c, qs := EarlyEviction(user, ttl);
      assert Ordered(qs, 0) && !Unnoticed(c, 0, qs);
    }
  }

  /** As configured: 200 requests a second with bursts of 400 in all, 20 with bursts of 40 a user, ten minutes idle. */
  const CONFIGURED := Config(Limit(200, 400), Limit(20, 40), 600 * NANOS)

  lemma ConfiguredWindow(start: int, qs: seq<Request>, i: nat, j: nat, u: string)
    requires Ordered(qs, start) && i < j <= |qs| && u != ""
    ensures Unnoticed(CONFIGURED, start, qs)
    ensures Count(u, qs[i..j], Verdicts(CONFIGURED, Fresh(CONFIGURED, start), qs)[i..j])
         <= 40 + 20 * (qs[j - 1].at - qs[i].at) / NANOS
  {
    GainIs(CONFIGURED.user, CONFIGURED.ttl + 1);
    EvictionIsInvisible(CONFIGURED, start, qs);
    WindowBound(CONFIGURED, start, qs, i, j, u);
  }

  // ---------------------------------------------------------------- the limiter in place

  /** A token bucket updated in place. */
  class Limiter {
    const limit: Limit
    var bucket: Bucket

    constructor (limit: Limit, now: int)
      ensures this.limit == limit && bucket == Full(limit, now)
    {
      this.limit := limit;
      bucket := Full(limit, now);
    }

    method Allow(now: int) returns (ok: bool)
      modifies this
      ensures ok == Enough(limit, old(bucket), now)
      ensures bucket == Take(limit, old(bucket), now)
    {
      bucket := Refill(limit, bucket, now);
      ok := bucket.level >= TOKEN;
      if ok {
        bucket := bucket.(level := bucket.level - TOKEN);
      }
    }
  }

  class UserLimiter {
    const limiter: Limiter
    var lastSeen: int

    constructor (limit: Limit, now: int)
      ensures fresh(limiter) && limiter.limit == limit && limiter.bucket == Full(limit, now)
    {
      limiter := new Limiter(limit, now);
    }
  }

  class TokenBucket {
    const config: Config
    const global: Limiter
    var byUser: map<string, UserLimiter>
    var cleaned: int
    ghost var Repr: set<object>

    /** Every user has a limiter of its own. */
    ghost predicate Valid()
      reads this, Repr
    {
      && this in Repr && global in Repr && global.limit == config.global
      && (forall u :: u in byUser ==> Owned(byUser[u]))
      && (forall u, v :: u in byUser && v in byUser && u != v ==> Apart(byUser[u], byUser[v]))
    }

    ghost predicate Owned(ul: UserLimiter)
      reads this
    {
      ul in Repr && ul.limiter in Repr && ul.limiter.limit == config.user && ul.limiter != global
    }

    ghost predicate Apart(ul: UserLimiter, other: UserLimiter) {
      ul != other && ul.limiter != other.limiter
    }

    ghost function Users(): map<string, Seen>
      requires Valid()
      reads this, Repr
    {
      map u | u in byUser :: Seen(byUser[u].limiter.bucket, byUser[u].lastSeen)
    }

    ghost function Value(): State
      requires Valid()
      reads this, Repr
    {
      State(global.bucket, Users(), cleaned)
    }

    constructor (config: Config, now: int)
      ensures Valid() && fresh(Repr) && this.config == config
      ensures Value() == Fresh(config, now)
    {
      this.config := config;
      var limiter := new Limiter(config.global, now);
      global := limiter;
      byUser := map[];
      cleaned := now;
      Repr := {this, limiter};
    }

    method Evict(now: int)
      requires Valid()
      modifies this`byUser
      ensures Valid()
      ensures byUser.Keys <= old(byUser).Keys
      ensures forall u :: u in byUser ==> byUser[u] == old(byUser)[u]
      ensures forall u :: u in old(byUser) ==> (u in byUser <==> now - old(byUser)[u].lastSeen <= config.ttl)
    {
      ghost var before := byUser;
      var left := byUser.Keys;
      while left != {}
        invariant left <= byUser.Keys <= before.Keys
        invariant forall u :: u in byUser ==> byUser[u] == before[u]
        invariant forall u :: u in before && u !in left ==> (u in byUser <==> now - before[u].lastSeen <= config.ttl)
        decreases left
      {
        var k :| k in left;
        if now - byUser[k].lastSeen > config.ttl {
          byUser := byUser - {k};
        }
        left := left - {k};
      }
    }

    /** Once in a while, the idle are evicted. */
    method Tidy(now: int)
      requires Valid()
      modifies this`byUser, this`cleaned
      ensures Valid()
      ensures Users() == old(if now - cleaned > config.ttl then Sweep(Users(), now, config.ttl) else Users())
      ensures cleaned == old(if now - cleaned > config.ttl then now else cleaned)
      ensures forall u :: u in byUser ==> u in old(byUser) && byUser[u] == old(byUser)[u]
      ensures forall u :: u in old(byUser) && now - old(byUser)[u].lastSeen <= config.ttl ==> u in byUser
    {
      if now - cleaned > config.ttl {
        Evict(now);
        cleaned := now;
      }
    }

    /** The user's limiter, made on the first request, marked as seen. */
    method See(uid: string, now: int) returns (ul: UserLimiter)
      requires Valid()
      modifies this`byUser, this`Repr, byUser.Values
      ensures Valid() && fresh(Repr - old(Repr))
      ensures uid in byUser && ul == byUser[uid] && ul.lastSeen == now
      ensures ul.limiter.bucket == old(Found(config, Value(), Request(uid, now)))
      ensures global.bucket == old(global.bucket)
      ensures Users() == old(var q := Request(uid, now); Users()[uid := Seen(Found(config, Value(), q), now)])
    {
      if uid !in byUser {
        var created := new UserLimiter(config.user, now);
        byUser := byUser[uid := created];
        Repr := Repr + {created, created.limiter};
      }
      ul := byUser[uid];
      ul.lastSeen := now;
    }

    /** One token from a user's limiter, which nobody shares. */
    method Draw(ghost uid: string, ul: UserLimiter, now: int) returns (ok: bool)
      requires Valid() && uid in byUser && ul == byUser[uid]
      modifies ul.limiter
      ensures Valid()
      ensures ok == old(Enough(config.user, ul.limiter.bucket, now))
      ensures Users() == old(Users()[uid := Seen(Take(config.user, ul.limiter.bucket, now), ul.lastSeen)])
    {
      assert forall u :: u in byUser && u != uid ==> Apart(byUser[u], ul);
      ok := ul.limiter.Allow(now);
    }

    /** The part under the lock: find the user's limiter, sweep the idle ones now and then, take a token. */
    method AllowUser(uid: string, now: int) returns (ok: bool)
      requires Valid() && uid != ""
      modifies Repr
      ensures Valid() && fresh(Repr - old(Repr))
      ensures global.bucket == old(global.bucket)
      ensures ok == old(Enough(config.user, Found(config, Value(), Request(uid, now)), now))
      ensures Users() == old(UsersAfter(config, Value(), Request(uid, now)))
      ensures cleaned == if now - old(cleaned) > config.ttl then now else old(cleaned)
    {
      var ul := See(uid, now);
      Tidy(now);
      ok := Draw(uid, ul, now);
    }

    /** One request: whether it goes on to the handler, or which limiter refuses it. */
    method Handle(uid: string, now: int) returns (v: Verdict)
      requires Valid()
      modifies Repr
      ensures Valid() && fresh(Repr - old(Repr))
      ensures v == old(Decide(config, Value(), Request(uid, now)))
      ensures Value() == old(Next(config, Value(), Request(uid, now)))
    {
      var ok := global.Allow(now);
      assert Users() == old(Users());
      if !ok {
        return GlobalRefused;
      }
      if uid != "" {
        ok := AllowUser(uid, now);
        if !ok {
          return UserRefused;
        }
      }
      return Admitted;
    }
  }
}
