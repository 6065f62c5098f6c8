/**
 When an idempotency key counts as used, told from the log of a run alone: until 300 s have passed since a script or
 call wrote it (internal/store/redis/scripts.go:45-49, 81-83, 111-115, 151-153, internal/store/redis/store.go:475-494).
 */
module KeyLife {
  import opened Common
  import opened Ledger
  import opened Protocol
  import Delivery
  import Keys
  import Safety

  /** The event writes the key of that name: a script that succeeds, or the last command of a close or delete. */
  predicate Writes(s: State, e: Event, name: string) {
    || ((e.Vote? || e.Undo?) && Delivery.Carries(e.user, e.key, name) && Result(s, e) == OK)
    || (e.Advance? && e.client in s.clients && s.clients[e.client].SetKey?
        && Delivery.Carries(s.clients[e.client].user, s.clients[e.client].key, name))
  }

  /** The i-th event of a run does. */
  predicate WritesAt(s: State, es: seq<Event>, i: nat, name: string)
    requires ValidRun(s, es)
  {
    i < |es| && Writes(Before(s, es, i), es[i], name)
  }

  /** A write of the key not longer ago than 300 s. */
  ghost predicate UsedLately(s: State, es: seq<Event>, name: string)
    requires ValidRun(s, es)
  {
    exists i: nat :: WritesAt(s, es, i, name) && Run(s, es).now <= Before(s, es, i).now + 300 * 1_000_000_000
  }

  /** A write sets the key's expiry 300 s ahead, and nothing else touches it. */
  predicate KeyAfter(s: State, e: Event, d: Db, name: string) {
    if Writes(s, e, name) then name in d.idem && d.idem[name] == s.now + 300 * 1_000_000_000
    else (name in d.idem <==> name in s.db.idem) && (name in s.db.idem ==> d.idem[name] == s.db.idem[name])
  }

  lemma VoteWrites(s: State, e: Event, name: string)
    requires e.Vote? && Allowed(s, e)
    ensures KeyAfter(s, e, Step(s, e).db, name)
  {
    if Result(s, e) == OK {
      assert Step(s, e).db == SetIdem(CastVote(s.db, e.id, e.user, e.option), e.user, e.key, s.now);
    }
  }

  lemma UndoWrites(s: State, e: Event, name: string)
    requires e.Undo? && Allowed(s, e)
    ensures KeyAfter(s, e, Step(s, e).db, name)
  {
    if Result(s, e) == OK {
      assert Step(s, e).db.idem == SetIdem(s.db, e.user, e.key, s.now).idem;
    }
  }

  lemma AdvanceWrites(s: State, c: nat, name: string)
    requires Allowed(s, Advance(c))
    ensures KeyAfter(s, Advance(c), AdvanceStep(s, c).db, name) && AdvanceStep(s, c).now == s.now
  {
    var pc := s.clients[c];
    if pc.SetKey? {
      assert AdvanceStep(s, c).db == SetIdem(s.db, pc.user, pc.key, s.now);
    } else {
      assert AdvanceStep(s, c).db.idem == s.db.idem;
    }
  }

  lemma StepWrites(s: State, e: Event, name: string)
    requires Allowed(s, e)
    ensures KeyAfter(s, e, Step(s, e).db, name) && Step(s, e).now >= s.now
  {
    match e
    case Vote(_, _, _, _) => VoteWrites(s, e, name);
    case Undo(_, _, _) => UndoWrites(s, e, name);
    case Advance(c) => AdvanceWrites(s, c, name);
    case _ =>
  }

  /** What is stored under the name after n events: nothing, or the expiry the latest write gave it. */
  ghost predicate Traced(s: State, es: seq<Event>, n: nat, name: string)
    requires ValidRun(s, es) && n <= |es|
  {
    var d := Before(s, es, n).db;
    && (name in d.idem ==>
          exists i: nat :: i < n && WritesAt(s, es, i, name)
                           && d.idem[name] == Before(s, es, i).now + 300 * 1_000_000_000)
    && (forall i: nat :: i < n && WritesAt(s, es, i, name) ==>
          name in d.idem && Before(s, es, i).now + 300 * 1_000_000_000 <= d.idem[name]
          && Before(s, es, i).now <= Before(s, es, n).now)
  }

  lemma {:induction false} TraceHolds(now: int, es: seq<Event>, n: nat, name: string)
    requires ValidRun(Init(now), es) && n <= |es|
    ensures Traced(Init(now), es, n, name)
    decreases n
  {
    var s := Init(now);
    if n == 0 {
      BeforeStart(s, es);
    } else {
      TraceHolds(now, es, n - 1, name);
      TraceStep(s, es, n - 1, name);
    }
  }

  lemma {:induction false} TraceStep(s: State, es: seq<Event>, n: nat, name: string)
    requires ValidRun(s, es) && n < |es| && Traced(s, es, n, name)
    ensures Traced(s, es, n + 1, name)
  {
    var a, b := Before(s, es, n), Before(s, es, n + 1);
    BeforeStep(s, es, n);
    StepWrites(a, es[n], name);
    if name in b.db.idem && !WritesAt(s, es, n, name) {
      var i: nat :| i < n && WritesAt(s, es, i, name) && a.db.idem[name] == Before(s, es, i).now + 300 * 1_000_000_000;
      assert i < n + 1;
    }
    forall i: nat | i < n + 1 && WritesAt(s, es, i, name)
      ensures Before(s, es, i).now <= b.now
      ensures name in b.db.idem && Before(s, es, i).now + 300 * 1_000_000_000 <= b.db.idem[name]
    {
      EarlierWrite(s, es, n, i, name);
    }
  }

  lemma EarlierWrite(s: State, es: seq<Event>, n: nat, i: nat, name: string)
    requires ValidRun(s, es) && n < |es| && Traced(s, es, n, name) && i <= n && WritesAt(s, es, i, name)
    ensures var b := Before(s, es, n + 1);
            && Before(s, es, i).now <= b.now
            && name in b.db.idem && Before(s, es, i).now + 300 * 1_000_000_000 <= b.db.idem[name]
  {
    BeforeStep(s, es, n);
    StepWrites(Before(s, es, n), es[n], name);
    if i < n {
      assert Before(s, es, i).now <= Before(s, es, n).now;
    }
  }

  /** In every reachable state a key is live exactly if it was written within the last 300 s. */
  lemma LiveIff(now: int, es: seq<Event>, name: string)
    requires ValidRun(Init(now), es)
    ensures var s := Run(Init(now), es);
            IdemLive(s.db, name, s.now) <==> UsedLately(Init(now), es, name)
  {
    TraceHolds(now, es, |es|, name);
    BeforeEnd(Init(now), es);
  }

  /** So a script is a no-op exactly if it has a key and that key was. */
  lemma NoopIff(now: int, es: seq<Event>, e: Event)
    requires ValidRun(Init(now), es) && (e.Vote? || e.Undo?)
    ensures Result(Run(Init(now), es), e) == Noop <==>
              e.key != "" && UsedLately(Init(now), es, Keys.IdemKey(e.user, e.key))
  {
    LiveIff(now, es, Keys.IdemKey(e.user, e.key));
  }

  lemma NoopAfterWrite(now: int, es: seq<Event>, i: nat, e: Event)
    requires ValidRun(Init(now), es) && (e.Vote? || e.Undo?) && e.key != ""
    requires WritesAt(Init(now), es, i, Keys.IdemKey(e.user, e.key))
    requires Run(Init(now), es).now <= Before(Init(now), es, i).now + 300 * 1_000_000_000
    ensures Result(Run(Init(now), es), e) == Noop
  {
    NoopIff(now, es, e);
  }

  /**
   Retries: after a script under a key has succeeded, every script of the same user under that key, delivered within
   300 s, is a no-op that changes nothing, whatever ran in between.
   */
  lemma RetryIsNoop(s: State, es: seq<Event>, i: nat, j: nat, user: UserId, key: string)
    requires ValidRun(s, es) && i < j < |es| && key != "" && Safety.Succeeds(Before(s, es, i), es[i], user, key)
    requires (es[j].Vote? || es[j].Undo?) && es[j].user == user && es[j].key == key
    requires Before(s, es, j).now <= Before(s, es, i).now + 300 * 1_000_000_000
    ensures Result(Before(s, es, j), es[j]) == Noop && Before(s, es, j + 1) == Before(s, es, j)
  {
    var a, n := Before(s, es, i), Keys.IdemKey(user, key);
    BeforeStep(s, es, i);
    BeforeStep(s, es, j);
    Safety.SuccessWritesKey(a, es[i], user, key);
    BeforeLater(s, es, i + 1, j);
    Safety.KeyOutlives(Before(s, es, i + 1), es[i + 1..j], n, a.now + IDEM_TTL);
  }
}
