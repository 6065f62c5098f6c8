/**
 What the limiter lets through and what it keeps (internal/http/middleware/ratelimit.go:28-62): all requests together
 never more than the global bucket gives, a steady user always, and of users only those seen lately.
 */
module RateBounds {
  import opened Common
  import opened RateLimit

  function After(c: Config, s: State, qs: seq<Request>): State
    decreases |qs|
  {
    if qs == [] then s else After(c, Next(c, s, qs[0]), qs[1..])
  }

  /** Deciding a run from its i-th request is deciding it from the state reached there. */
  lemma {:induction false} DecidedFrom(c: Config, s: State, qs: seq<Request>, i: nat)
    requires i <= |qs|
    ensures Verdicts(c, s, qs)[i..] == Verdicts(c, After(c, s, qs[..i]), qs[i..])
    decreases i
  {
    if i == 0 {
      assert qs[..0] == [] && qs[0..] == qs;
    } else {
      var t, rest := Next(c, s, qs[0]), qs[1..];
      DecidedFrom(c, t, rest, i - 1);
      assert qs[..i][1..] == rest[..i - 1] && qs[i..] == rest[i - 1..];
      assert Verdicts(c, s, qs)[1..] == Verdicts(c, t, rest);
      assert Verdicts(c, s, qs)[i..] == Verdicts(c, t, rest)[i - 1..];
    }
  }

  lemma {:induction false} DecidedUpTo(c: Config, s: State, qs: seq<Request>, j: nat)
    requires j <= |qs|
    ensures Verdicts(c, s, qs)[..j] == Verdicts(c, s, qs[..j])
    decreases j
  {
    if j > 0 {
      DecidedUpTo(c, Next(c, s, qs[0]), qs[1..], j - 1);
      assert qs[..j][1..] == qs[1..][..j - 1];
    }
  }

  // ---------- All requests together ----------

  /** How many requests the global limiter lets by, whatever a user's own limiter says then. */
  function Through(vs: seq<Verdict>): nat {
    if vs == [] then 0 else (if vs[0] != GlobalRefused then 1 else 0) + Through(vs[1..])
  }

  function Admissions(vs: seq<Verdict>): (n: nat)
    ensures n <= Through(vs)
  {
    if vs == [] then 0 else (if vs[0] == Admitted then 1 else 0) + Admissions(vs[1..])
  }

  lemma GlobalPays(c: Config, s: State, now: int, q: Request)
    requires Sound(c.global, s.global, now) && now <= q.at
    ensures Sound(c.global, Next(c, s, q).global, q.at)
    ensures (if Decide(c, s, q) != GlobalRefused then TOKEN else 0) + Refill(c.global, Next(c, s, q).global, q.at).level
         <= Refill(c.global, s.global, now).level + Gain(c.global, q.at - now)
  {
    RefillLater(c.global, s.global, now, q.at);
  }

  lemma {:induction false} ThroughFirst(c: Config, s: State, qs: seq<Request>)
    requires qs != []
    ensures Through(Verdicts(c, s, qs))
         == (if Decide(c, s, qs[0]) != GlobalRefused then 1 else 0) + Through(Verdicts(c, Next(c, s, qs[0]), qs[1..]))
  {
    assert Verdicts(c, s, qs)[1..] == Verdicts(c, Next(c, s, qs[0]), qs[1..]);
  }

  lemma {:induction false} ThroughIsPaid(c: Config, s: State, now: int, qs: seq<Request>)
    requires Sound(c.global, s.global, now) && Ordered(qs, now)
    ensures Through(Verdicts(c, s, qs)) * TOKEN
         <= Refill(c.global, s.global, now).level + Gain(c.global, Last(qs, now) - now)
    decreases |qs|
  {
    if qs == [] {
      RefillLater(c.global, s.global, now, now);
    } else {
      var q, end := qs[0], Last(qs, now);
      GlobalPays(c, s, now, q);
      assert Last(qs[1..], q.at) == end;
      OrderedEnds(qs[1..], q.at);
      ThroughIsPaid(c, Next(c, s, q), q.at, qs[1..]);
      ThroughFirst(c, s, qs);
      GainAdds(c.global, q.at - now, end - q.at);
    }
  }

  lemma {:induction false} AdmittedArePaid(c: Config, s: State, now: int, qs: seq<Request>, end: int)
    requires Sound(c.global, s.global, now) && Ordered(qs, now) && end == Last(qs, now)
    ensures now <= end
    ensures Admissions(Verdicts(c, s, qs)) * TOKEN <= c.global.burst * TOKEN + c.global.rate * (end - now)
  {
    ThroughIsPaid(c, s, now, qs);
    RefillLater(c.global, s.global, now, now);
    OrderedEnds(qs, now);
    GainIs(c.global, end - now);
  }

  lemma {:induction false} StaysSound(c: Config, s: State, now: int, qs: seq<Request>)
    requires Sound(c.global, s.global, now) && Ordered(qs, now)
    ensures Sound(c.global, After(c, s, qs).global, Last(qs, now))
    decreases |qs|
  {
    if qs != [] {
      GlobalPays(c, s, now, qs[0]);
      StaysSound(c, Next(c, s, qs[0]), qs[0].at, qs[1..]);
      assert Last(qs[1..], qs[0].at) == Last(qs, now);
    }
  }

  lemma {:induction false} OrderedFirst(qs: seq<Request>, start: int, n: nat)
    requires Ordered(qs, start) && n <= |qs|
    ensures Ordered(qs[..n], start) && (n > 0 ==> Ordered(qs[..n], qs[0].at))
    ensures Last(qs[..n], start) == if n == 0 then start else qs[n - 1].at
    decreases n
  {
    if n > 0 {
      OrderedFirst(qs[1..], qs[0].at, n - 1);
      assert qs[..n][1..] == qs[1..][..n - 1];
    }
  }

  lemma OrderedLater(qs: seq<Request>, start: int, i: nat)
    requires Ordered(qs, start) && i < |qs|
    ensures Ordered(qs[i..], qs[i].at) && (if i == 0 then start else qs[i - 1].at) <= qs[i].at
    decreases i
  {
    if i > 0 {
      OrderedLater(qs[1..], qs[0].at, i - 1);
      assert qs[1..][i - 1..] == qs[i..];
    }
  }

  /** A stretch of a run, decided by itself from the state it begins in. */
  lemma {:induction false} Stretch(c: Config, start: int, qs: seq<Request>, i: nat, j: nat) returns (t: State)
    requires Ordered(qs, start) && i < j <= |qs|
    ensures t == After(c, Fresh(c, start), qs[..i]) && Sound(c.global, t.global, qs[i].at)
    ensures Verdicts(c, Fresh(c, start), qs)[i..j] == Verdicts(c, t, qs[i..j])
    ensures Ordered(qs[i..j], qs[i].at) && Last(qs[i..j], qs[i].at) == qs[j - 1].at
  {
    var s := Fresh(c, start);
    t := After(c, s, qs[..i]);
    OrderedFirst(qs, start, i);
    OrderedLater(qs, start, i);
    StaysSound(c, s, start, qs[..i]);
    DecidedFrom(c, s, qs, i);
    DecidedUpTo(c, t, qs[i..], j - i);
    OrderedFirst(qs[i..], qs[i].at, j - i);
    assert qs[i..][..j - i] == qs[i..j];
    var vs := Verdicts(c, s, qs);
    assert vs[i..][..j - i] == vs[i..j];
  }

  /** In any window of a run, all users together are admitted at most the global burst plus the refill. */
  lemma {:induction false} GlobalWindow(c: Config, start: int, qs: seq<Request>, i: nat, j: nat)
    requires Ordered(qs, start) && i < j <= |qs|
    ensures qs[i].at <= qs[j - 1].at
    ensures Admissions(Verdicts(c, Fresh(c, start), qs)[i..j]) * TOKEN
         <= c.global.burst * TOKEN + c.global.rate * (qs[j - 1].at - qs[i].at)
  {
    var t := Stretch(c, start, qs, i, j);
    AdmittedArePaid(c, t, qs[i].at, qs[i..j], qs[j - 1].at);
  }

  /** As configured: 400 at once and 200 a second. */
  lemma {:induction false} ConfiguredGlobalWindow(start: int, qs: seq<Request>, i: nat, j: nat)
    requires Ordered(qs, start) && i < j <= |qs|
    ensures Admissions(Verdicts(CONFIGURED, Fresh(CONFIGURED, start), qs)[i..j])
         <= 400 + 200 * (qs[j - 1].at - qs[i].at) / 1_000_000_000
  {
    GlobalWindow(CONFIGURED, start, qs, i, j);
  }

  // ---------- Whom it never refuses ----------

  /** At a rate a second, the time between has brought one more. */
  predicate Apart(l: Limit, dt: int) {
    l.rate * dt >= 1_000_000_000
  }

  lemma ApartGains(l: Limit, dt: int)
    requires Apart(l, dt)
    ensures Gain(l, dt) >= TOKEN
  {
    NoGainBackwards(l.rate, dt);
    GainIs(l, dt);
  }

  lemma NoGainBackwards(rate: nat, dt: int)
    ensures dt <= 0 ==> rate * dt <= 0
  {
  }

  /** Any two requests of the user are that far apart. */
  ghost predicate Steady(l: Limit, qs: seq<Request>, u: string) {
    forall i, j :: 0 <= i < j < |qs| && qs[i].user == u && qs[j].user == u ==> Apart(l, qs[j].at - qs[i].at)
  }

  /** Whatever the user's bucket was left with, it has a token again at every request to come. */
  ghost predicate Recovers(c: Config, s: State, qs: seq<Request>, u: string) {
    u in s.users ==>
      && 0 <= s.users[u].limiter.level
      && forall i :: 0 <= i < |qs| && qs[i].user == u ==> Apart(c.user, qs[i].at - s.users[u].limiter.at)
  }

  lemma RecoversNext(c: Config, s: State, qs: seq<Request>, u: string)
    requires qs != [] && u != "" && c.user.burst >= 1 && Steady(c.user, qs, u) && Recovers(c, s, qs, u)
    ensures Recovers(c, Next(c, s, qs[0]), qs[1..], u) && Steady(c.user, qs[1..], u)
    ensures qs[0].user == u ==> Decide(c, s, qs[0]) != UserRefused
  {
    var t := Next(c, s, qs[0]);
    if u in s.users && qs[0].user == u {
      ApartGains(c.user, qs[0].at - s.users[u].limiter.at);
    }
    assert forall i :: 0 <= i < |qs[1..]| ==> qs[1..][i] == qs[i + 1];
    if u in t.users && qs[0].user != u {
      assert u in s.users && t.users[u] == s.users[u];
    }
  }

  /** A user who keeps to the rate is never refused by his own limiter, whoever is evicted meanwhile. */
  lemma {:induction false} SteadyIsNotRefused(c: Config, s: State, qs: seq<Request>, u: string, i: nat)
    requires u != "" && c.user.burst >= 1 && Steady(c.user, qs, u) && Recovers(c, s, qs, u)
    requires i < |qs| && qs[i].user == u
    ensures Verdicts(c, s, qs)[i] != UserRefused
    decreases |qs|
  {
    RecoversNext(c, s, qs, u);
    if i > 0 {
      SteadyIsNotRefused(c, Next(c, s, qs[0]), qs[1..], u, i - 1);
    }
  }

  /** All requests, whoever's, are that far apart. */
  ghost predicate AllSteady(l: Limit, qs: seq<Request>) {
    forall i, j :: 0 <= i < j < |qs| ==> Apart(l, qs[j].at - qs[i].at)
  }

  ghost predicate GlobalReady(c: Config, s: State, qs: seq<Request>) {
    forall i :: 0 <= i < |qs| ==> Enough(c.global, s.global, qs[i].at)
  }

  lemma GlobalReadyNext(c: Config, s: State, qs: seq<Request>)
    requires qs != [] && c.global.burst >= 1 && AllSteady(c.global, qs) && GlobalReady(c, s, qs)
    ensures AllSteady(c.global, qs[1..]) && GlobalReady(c, Next(c, s, qs[0]), qs[1..])
  {
    var g := Next(c, s, qs[0]).global;
    assert g.at == qs[0].at && g.level >= 0;
    forall i | 0 <= i < |qs[1..]|
      ensures Enough(c.global, g, qs[1..][i].at)
    {
      assert qs[1..][i] == qs[i + 1];
      ApartGains(c.global, qs[i + 1].at - qs[0].at);
    }
  }

  lemma {:induction false} NoGlobalRefusal(c: Config, s: State, qs: seq<Request>, i: nat)
    requires c.global.burst >= 1 && AllSteady(c.global, qs) && GlobalReady(c, s, qs) && i < |qs|
    ensures Verdicts(c, s, qs)[i] != GlobalRefused
    ensures qs[i].user == "" ==> Verdicts(c, s, qs)[i] == Admitted
    decreases |qs|
  {
    if i > 0 {
      GlobalReadyNext(c, s, qs);
      NoGlobalRefusal(c, Next(c, s, qs[0]), qs[1..], i - 1);
    }
  }

  /** From a fresh limiter, requests that keep to both rates are all admitted, anonymous ones too. */
  lemma SteadyIsAdmitted(c: Config, start: int, qs: seq<Request>, i: nat)
    requires c.global.burst >= 1 && c.user.burst >= 1 && Ordered(qs, start) && i < |qs|
    requires AllSteady(c.global, qs) && (qs[i].user != "" ==> Steady(c.user, qs, qs[i].user))
    ensures Verdicts(c, Fresh(c, start), qs)[i] == Admitted
  {
    NoGlobalRefusal(c, Fresh(c, start), qs, i);
    if qs[i].user != "" {
      SteadyIsNotRefused(c, Fresh(c, start), qs, qs[i].user, i);
    }
  }

  // ---------- Whom it keeps ----------

  /** A request that reaches the user map. */
  predicate Named(c: Config, s: State, q: Request) {
    q.user != "" && Enough(c.global, s.global, q.at)
  }

  /** Nobody kept was seen more than the idle time before the last sweep. */
  ghost predicate Swept(c: Config, s: State) {
    forall u :: u in s.users ==> s.users[u].lastSeen >= s.cleaned - c.ttl
  }

  lemma SweptNext(c: Config, s: State, now: int, q: Request)
    requires Swept(c, s) && s.cleaned <= now <= q.at
    ensures Swept(c, Next(c, s, q)) && Next(c, s, q).cleaned <= q.at
    ensures Next(c, s, q).cleaned == s.cleaned || Next(c, s, q).cleaned > s.cleaned + c.ttl
    ensures Named(c, s, q) ==> q.at - Next(c, s, q).cleaned <= c.ttl
  {
  }

  lemma {:induction false} SweptAfter(c: Config, s: State, now: int, qs: seq<Request>)
    requires Swept(c, s) && s.cleaned <= now && Ordered(qs, now)
    ensures Swept(c, After(c, s, qs)) && After(c, s, qs).cleaned <= Last(qs, now)
    ensures After(c, s, qs).cleaned == s.cleaned || After(c, s, qs).cleaned > s.cleaned + c.ttl
    decreases |qs|
  {
    if qs != [] {
      SweptNext(c, s, now, qs[0]);
      SweptAfter(c, Next(c, s, qs[0]), qs[0].at, qs[1..]);
      assert Last(qs[1..], qs[0].at) == Last(qs, now);
    }
  }

  /**
   The map does not grow stale: after any run, once a named request has come through, nobody in it has been idle for
   more than twice the idle time.
   */
  lemma {:induction false} NobodyStaysIdle(c: Config, start: int, qs: seq<Request>, q: Request, u: string)
    requires Ordered(qs, start) && Last(qs, start) <= q.at && Named(c, After(c, Fresh(c, start), qs), q)
    requires u in Next(c, After(c, Fresh(c, start), qs), q).users
    ensures q.at - Next(c, After(c, Fresh(c, start), qs), q).users[u].lastSeen <= 2 * c.ttl
  {
    SweptAfter(c, Fresh(c, start), start, qs);
    SweptNext(c, After(c, Fresh(c, start), qs), Last(qs, start), q);
  }

  lemma {:induction false} AfterParts(c: Config, s: State, p: seq<Request>, q: seq<Request>)
    ensures After(c, s, p + q) == After(c, After(c, s, p), q)
    decreases |p|
  {
    if p == [] {
      assert p + q == q;
    } else {
      assert (p + q)[0] == p[0] && (p + q)[1..] == p[1..] + q;
      AfterParts(c, Next(c, s, p[0]), p[1..], q);
    }
  }

  /** Two sweeps are further apart than the idle time: the clean-up is not done at every request. */
  lemma {:induction false} SweepsAreRare(c: Config, start: int, qs: seq<Request>, i: nat, j: nat)
    requires Ordered(qs, start) && i < j <= |qs|
    ensures var (a, b) := (After(c, Fresh(c, start), qs[..i]), After(c, Fresh(c, start), qs[..j]));
            b.cleaned == a.cleaned || b.cleaned > a.cleaned + c.ttl
  {
    var t := Stretch(c, start, qs, i, j);
    OrderedFirst(qs, start, i);
    OrderedLater(qs, start, i);
    SweptAfter(c, Fresh(c, start), start, qs[..i]);
    SweptAfter(c, t, qs[i].at, qs[i..j]);
    AfterParts(c, Fresh(c, start), qs[..i], qs[i..j]);
    assert qs[..i] + qs[i..j] == qs[..j];
  }

  /** Whoever was seen within the idle time is still there, with the limiter his requests have drawn from. */
  lemma {:induction false} LatelySeenAreKept(c: Config, s: State, qs: seq<Request>, u: string, now: int)
    requires u in s.users && s.users[u].lastSeen <= now && Ordered(qs, now)
    requires Last(qs, now) - s.users[u].lastSeen <= c.ttl
    ensures u in After(c, s, qs).users && After(c, s, qs).users[u].lastSeen >= s.users[u].lastSeen
    decreases |qs|
  {
    if qs != [] {
      var t := Next(c, s, qs[0]);
      OrderedEnds(qs[1..], qs[0].at);
      assert Last(qs[1..], qs[0].at) == Last(qs, now);
      assert u in t.users && s.users[u].lastSeen <= t.users[u].lastSeen <= qs[0].at;
      LatelySeenAreKept(c, t, qs[1..], u, qs[0].at);
    }
  }

  /** As configured: ten minutes. */
  lemma {:induction false} ConfiguredMap(start: int, qs: seq<Request>, q: Request, rs: seq<Request>)
    requires Ordered(qs, start) && Last(qs, start) <= q.at && Ordered(rs, q.at)
    requires Named(CONFIGURED, After(CONFIGURED, Fresh(CONFIGURED, start), qs), q)
    ensures var t := Next(CONFIGURED, After(CONFIGURED, Fresh(CONFIGURED, start), qs), q);
            && (forall u :: u in t.users ==> q.at - t.users[u].lastSeen <= 1200 * 1_000_000_000)
            && (Last(rs, q.at) - q.at <= 600 * 1_000_000_000 ==> q.user in After(CONFIGURED, t, rs).users)
  {
    var t := Next(CONFIGURED, After(CONFIGURED, Fresh(CONFIGURED, start), qs), q);
    forall u | u in t.users
      ensures q.at - t.users[u].lastSeen <= 1200 * 1_000_000_000
    {
      NobodyStaysIdle(CONFIGURED, start, qs, q, u);
    }
    if Last(rs, q.at) - q.at <= 600 * 1_000_000_000 {
      LatelySeenAreKept(CONFIGURED, t, rs, q.user, q.at);
    }
  }
}
