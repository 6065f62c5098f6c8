/**
 Any interleaving is some sequential run: the scripts and the create transaction take effect at their one step, a
 close at its HSET and a delete at its DEL (internal/store/redis/store.go:91, 125), and the ballot machine fed with
 these effects in this order holds the same polls and ballots and gives the scripts' answers. So the memory store,
 called one operation at a time, is in step with Redis under any number of interleaving clients, keys in use or not.
 The answers of close and delete are not among what agrees; `BothDeletesSucceed` shows why.
 */
module Linear {
  import opened Common
  import opened Protocol
  import B = Ballot
  import Deadline
  import E = Equivalence
  import Invariants
  import Keys
  import L = Ledger
  import M = MemoryStore

  /** What an event does to the ballots, if anything. */
  function Effect(s: State, e: Event): Option<B.Op>
    requires Allowed(s, e)
  {
    match e
    case Create(p, _) => Some(B.Create(p))
    case Vote(id, user, option, key) =>
      if L.Repeated(s.db, user, key, s.now) then None else Some(B.Vote(id, user, option))
    case Undo(id, user, key) =>
      if L.Repeated(s.db, user, key, s.now) then None else Some(B.Undo(id, user))
    case Advance(c) =>
      var pc := s.clients[c];
      if !pc.Write? || !L.Live(s.db, pc.id) then None
      else Some(if pc.op.Close? then B.Close(pc.id, pc.user) else B.Delete(pc.id, pc.user))
    case _ => None
  }

  /** An effective event's answer: a script's code, a stub being as good as no poll; the other effects succeed. */
  function Answer(s: State, e: Event): Code {
    if !e.Vote? && !e.Undo? then OK
    else if B.StubAt(s.db, e.id) then NotFound
    else Result(s, e)
  }

  /** Scripts stay clear of their poll's last second, and polls are created without counts. */
  predicate Plain(s: State, e: Event) {
    && (e.Vote? || e.Undo? ==> e.id in s.born ==> !Deadline.LastSecond(s.now, s.born[e.id].poll.expiresAt))
    && (e.Create? ==> forall o :: o in e.poll.votes ==> e.poll.votes[o] == 0)
  }

  ghost predicate PlainRun(s: State, es: seq<Event>)
    requires ValidRun(s, es)
    decreases |es|
  {
    es == [] || (Plain(s, es[0]) && PlainRun(Step(s, es[0]), es[1..]))
  }

  /** The effects of a run, in order, each at its moment. */
  function Effects(s: State, es: seq<Event>): seq<E.Timed>
    requires ValidRun(s, es)
    decreases |es|
  {
    if es == [] then []
    else
      var f := Effect(s, es[0]);
      (if f.Some? then [E.Timed(f.value, s.now)] else []) + Effects(Step(s, es[0]), es[1..])
  }

  /** The answers of the effective events, in the same order. */
  function Answers(s: State, es: seq<Event>): seq<Code>
    requires ValidRun(s, es)
    decreases |es|
  {
    if es == [] then []
    else (if Effect(s, es[0]).Some? then [Answer(s, es[0])] else []) + Answers(Step(s, es[0]), es[1..])
  }

  /** The live polls are the slips, true deadlines included. */
  ghost predicate Sim(s: State, b: B.Box) {
    B.PollsMatch(s.db, b, s.now) && DeadlinesTrue(s, b)
  }

  ghost predicate DeadlinesTrue(s: State, b: B.Box) {
    forall id :: id in b ==> id in s.born && b[id].expiresAt == s.born[id].poll.expiresAt
  }

  function After(b: B.Box, f: Option<B.Op>, now: int): B.Box {
    if f.Some? then B.Apply(b, f.value, now).1 else b
  }

  // ---------- One step ----------

  lemma VoteMatches(db: L.Db, b: B.Box, now: int, id: PollId, user: UserId, option: string, key: string)
    requires L.OptionsMatch(db) && B.PollsMatch(db, b, now) && B.OffLastSecond(b, id, now)
    requires !L.Repeated(db, user, key, now)
    ensures var (r, a) := (L.VoteScript(db, id, user, option, key, now), B.Apply(b, B.Vote(id, user, option), now));
            B.PollsMatch(r.1, a.1, now) && B.SameAnswer(db, id, r.0, a.0)
  {
    B.VoteVerdict(db, b, now, id, user, option, key);
    if L.VoteScript(db, id, user, option, key, now).0 == OK {
      B.CastMatches(db, b, now, id, user, option);
      var d := L.CastVote(db, id, user, option);
      B.SamePolls(d, L.SetIdem(d, user, key, now), B.Apply(b, B.Vote(id, user, option), now).1, now);
    }
  }

  lemma UndoMatches(db: L.Db, b: B.Box, now: int, id: PollId, user: UserId, key: string)
    requires L.OptionsMatch(db) && B.PollsMatch(db, b, now) && B.OffLastSecond(b, id, now)
    requires !L.Repeated(db, user, key, now)
    ensures var (r, a) := (L.UndoScript(db, id, user, key, now), B.Apply(b, B.Undo(id, user), now));
            B.PollsMatch(r.1, a.1, now) && B.SameAnswer(db, id, r.0, a.0)
  {
    B.UndoVerdict(db, b, now, id, user, key);
    if L.UndoScript(db, id, user, key, now).0 == OK {
      B.RetractMatches(db, b, now, id, user);
      var d := L.RetractVote(db, id, user, db.history[(id, user)]);
      B.SamePolls(d, L.SetIdem(d, user, key, now), B.Apply(b, B.Undo(id, user), now).1, now);
    }
  }

  /** Only a creation brings a deadline. */
  lemma DeadlinesStay(b: B.Box, op: B.Op, now: int)
    requires !op.Create?
    ensures var c := B.Apply(b, op, now).1;
            forall id :: id in c ==> id in b && c[id].expiresAt == b[id].expiresAt
  {
  }

  /** A stub is refused as closed where the machine finds no poll. */
  lemma StubAnswer(db: L.Db, b: B.Box, now: int, id: PollId)
    requires B.PollsMatch(db, b, now) && B.StubAt(db, id)
    ensures id !in b
  {
    assert id in b <==> L.Live(db, id);
  }

  lemma ScriptAnswer(s: State, b: B.Box, e: Event)
    requires Sim(s, b) && Allowed(s, e) && (e.Vote? || e.Undo?) && Effect(s, e).Some?
    requires B.SameAnswer(s.db, e.id, Result(s, e), B.Apply(b, Effect(s, e).value, s.now).0)
    ensures B.Apply(b, Effect(s, e).value, s.now).0 == Answer(s, e)
  {
    if B.StubAt(s.db, e.id) {
      StubAnswer(s.db, b, s.now, e.id);
    }
  }

  lemma VoteSims(s: State, b: B.Box, e: Event)
    requires Sim(s, b) && L.OptionsMatch(s.db) && Allowed(s, e) && Plain(s, e) && e.Vote?
    ensures Sim(Step(s, e), After(b, Effect(s, e), s.now))
    ensures Effect(s, e).Some? ==> B.Apply(b, Effect(s, e).value, s.now).0 == Answer(s, e)
  {
    if !L.Repeated(s.db, e.user, e.key, s.now) {
      VoteMatches(s.db, b, s.now, e.id, e.user, e.option, e.key);
      DeadlinesStay(b, B.Vote(e.id, e.user, e.option), s.now);
      ScriptAnswer(s, b, e);
    }
  }

  lemma UndoSims(s: State, b: B.Box, e: Event)
    requires Sim(s, b) && L.OptionsMatch(s.db) && Allowed(s, e) && Plain(s, e) && e.Undo?
    ensures Sim(Step(s, e), After(b, Effect(s, e), s.now))
    ensures Effect(s, e).Some? ==> B.Apply(b, Effect(s, e).value, s.now).0 == Answer(s, e)
  {
    if !L.Repeated(s.db, e.user, e.key, s.now) {
      UndoMatches(s.db, b, s.now, e.id, e.user, e.key);
      DeadlinesStay(b, B.Undo(e.id, e.user), s.now);
      ScriptAnswer(s, b, e);
    }
  }

  lemma CreateSims(s: State, b: B.Box, e: Event)
    requires Sim(s, b) && Invariants.Known(s) && L.VotersMatch(s.db) && Allowed(s, e) && e.Create?
    ensures Sim(Step(s, e), After(b, Effect(s, e), s.now))
    ensures B.Apply(b, Effect(s, e).value, s.now).0 == Answer(s, e)
  {
    B.CreateMatches(s.db, b, s.now, e.poll, e.salt);
  }

  /** A close that comes too late leaves a stub, which is no poll. */
  lemma StubIsNoPoll(db: L.Db, b: B.Box, id: PollId, user: UserId, now: int)
    requires B.PollsMatch(db, b, now) && !L.Live(db, id)
    ensures B.PollsMatch(L.MarkClosed(db, id, user), b, now)
  {
    var d := L.MarkClosed(db, id, user);
    forall i
      ensures i in b <==> L.Live(d, i)
      ensures i in b ==> B.BallotsMatch(d, i, b[i].ballots) && B.MetaMatches(d.meta[i], b[i], now)
    {
      assert i in b <==> L.Live(db, i);
      if i in b {
        assert B.BallotsMatch(db, i, b[i].ballots) && B.MetaMatches(db.meta[i], b[i], now);
      }
    }
  }

  lemma CloseSims(db: L.Db, b: B.Box, now: int, id: PollId, user: UserId)
    requires B.PollsMatch(db, b, now)
    ensures B.PollsMatch(L.MarkClosed(db, id, user), if L.Live(db, id) then B.Apply(b, B.Close(id, user), now).1 else b,
                         now)
    ensures L.Live(db, id) ==> B.Apply(b, B.Close(id, user), now).0 == OK
  {
    if L.Live(db, id) {
      B.CloseMatches(db, L.MarkClosed(db, id, user), b, now, id, user);
    } else {
      StubIsNoPoll(db, b, id, user, now);
    }
  }

  lemma DeleteSims(db: L.Db, b: B.Box, now: int, id: PollId, user: UserId)
    requires B.PollsMatch(db, b, now)
    ensures B.PollsMatch(L.DropPoll(db, id), if L.Live(db, id) then B.Apply(b, B.Delete(id, user), now).1 else b, now)
    ensures L.Live(db, id) ==> B.Apply(b, B.Delete(id, user), now).0 == OK
  {
    B.DropMatches(db, b, now, id);
    if !L.Live(db, id) {
      assert b - {id} == b;
    }
  }

  lemma WriteSims(s: State, b: B.Box, c: nat)
    requires Sim(s, b) && Allowed(s, Advance(c)) && s.clients[c].Write?
    ensures Sim(Step(s, Advance(c)), After(b, Effect(s, Advance(c)), s.now))
    ensures Effect(s, Advance(c)).Some? ==> B.Apply(b, Effect(s, Advance(c)).value, s.now).0 == OK
  {
    var pc := s.clients[c];
    if pc.op.Delete? {
      DeleteSims(s.db, b, s.now, pc.id, pc.user);
      DeadlinesStay(b, B.Delete(pc.id, pc.user), s.now);
    } else {
      CloseSims(s.db, b, s.now, pc.id, pc.user);
      DeadlinesStay(b, B.Close(pc.id, pc.user), s.now);
    }
  }

  lemma AdvanceSims(s: State, b: B.Box, c: nat)
    requires Sim(s, b) && Allowed(s, Advance(c))
    ensures Sim(Step(s, Advance(c)), After(b, Effect(s, Advance(c)), s.now))
    ensures Effect(s, Advance(c)).Some? ==> B.Apply(b, Effect(s, Advance(c)).value, s.now).0 == OK
  {
    if s.clients[c].Write? {
      WriteSims(s, b, c);
    } else {
      B.SamePolls(s.db, AdvanceStep(s, c).db, b, s.now);
    }
  }

  /** Every event is its effect on the ballots, with the same answer. */
  lemma StepSims(s: State, b: B.Box, e: Event)
    requires Sim(s, b) && L.LedgerInv(s.db) && Invariants.Known(s) && Allowed(s, e) && Plain(s, e)
    ensures Sim(Step(s, e), After(b, Effect(s, e), s.now))
    ensures Effect(s, e).Some? ==> B.Apply(b, Effect(s, e).value, s.now).0 == Answer(s, e)
  {
    match e
    case Tick(elapsed) => B.PollsWait(s.db, b, s.now, s.now + elapsed);
    case Create(_, _) => CreateSims(s, b, e);
    case Vote(_, _, _, _) => VoteSims(s, b, e);
    case Undo(_, _, _) => UndoSims(s, b, e);
    case Start(_, _, _, _, _) =>
    case Advance(c) => AdvanceSims(s, b, c);
  }

  // ---------- Whole runs ----------

  lemma EffectIsNew(s: State, b: B.Box, e: Event)
    requires Sim(s, b) && Invariants.Known(s) && Allowed(s, e) && Plain(s, e) && Effect(s, e).Some?
    ensures B.NewAndEmpty(b, Effect(s, e).value)
  {
  }

  /** An effect first, then the rest: how runs of the sequential machines begin. */
  lemma EffectFirst(b: B.Box, m: M.Mem, t: E.Timed, rest: seq<E.Timed>)
    ensures E.BoxAfter(b, [t] + rest) == E.BoxAfter(B.Apply(b, t.op, t.at).1, rest)
    ensures E.MemoryAfter(m, [t] + rest) == E.MemoryAfter(B.OnMemory(m, t.op, t.at).1, rest)
    ensures E.MemoryCodes(m, [t] + rest)
         == [B.OnMemory(m, t.op, t.at).0] + E.MemoryCodes(B.OnMemory(m, t.op, t.at).1, rest)
  {
    assert ([t] + rest)[1..] == rest;
  }

  /** From matching states, a run and its effects end in matching states, with the same answers on the way. */
  lemma {:induction false} RunSims(s: State, es: seq<Event>, b: B.Box, m: M.Mem)
    requires Invariants.Inv(s) && ValidRun(s, es) && PlainRun(s, es) && Sim(s, b) && B.MemoryHolds(m, b)
    ensures Sim(Run(s, es), E.BoxAfter(b, Effects(s, es)))
    ensures B.MemoryHolds(E.MemoryAfter(m, Effects(s, es)), E.BoxAfter(b, Effects(s, es)))
    ensures E.MemoryCodes(m, Effects(s, es)) == Answers(s, es)
    decreases |es|
  {
    if es != [] {
      var e, rest, f := es[0], es[1..], Effect(s, es[0]);
      var t := Step(s, e);
      Invariants.StepKeepsInv(s, e);
      StepSims(s, b, e);
      if f.Some? {
        EffectIsNew(s, b, e);
        B.MemoryRefines(m, b, f.value, s.now);
        RunSims(t, rest, B.Apply(b, f.value, s.now).1, B.OnMemory(m, f.value, s.now).1);
        EffectFirst(b, m, E.Timed(f.value, s.now), Effects(t, rest));
      } else {
        RunSims(t, rest, b, m);
        NoneFirst(s, es);
      }
    }
  }

  lemma NoneFirst(s: State, es: seq<Event>)
    requires ValidRun(s, es) && es != [] && Effect(s, es[0]).None?
    ensures Effects(s, es) == Effects(Step(s, es[0]), es[1..]) && Answers(s, es) == Answers(Step(s, es[0]), es[1..])
  {
  }

  /** What callers can see of a poll agrees. */
  ghost predicate SamePoll(db: L.Db, m: M.Mem, id: PollId)
    requires id in m.polls
  {
    && (forall o :: L.TallyAt(db, id, o) == M.CountOf(m.polls[id], o))
    && (forall u :: u in M.VotesOn(m, id) <==> (id, u) in db.voters)
    && (forall u :: u in M.VotesOn(m, id) ==> (id, u) in db.history && db.history[(id, u)] == M.VotesOn(m, id)[u])
  }

  lemma MatchedPoll(db: L.Db, m: M.Mem, b: B.Box, now: int, id: PollId)
    requires L.LedgerInv(db) && B.PollsMatch(db, b, now) && B.MemoryHolds(m, b) && id in b
    ensures id in m.polls && SamePoll(db, m, id)
    ensures L.Live(db, id) && (!Deadline.LastSecond(now, m.polls[id].expiresAt) ==>
              (db.meta[id].ReadsClosed(now) <==> M.Shut(m.polls[id], now)))
  {
    assert B.EntryHolds(m.polls[id], M.VotesOn(m, id), id, b[id]);
    assert B.MetaMatches(db.meta[id], b[id], now) && B.BallotsMatch(db, id, b[id].ballots);
    forall o
      ensures L.TallyAt(db, id, o) == M.CountOf(m.polls[id], o)
    {
      E.SupportersAreBallots(db, id, b[id].ballots, o);
      L.TallyCountsSupporters(db, id, o);
    }
    if !Deadline.LastSecond(now, m.polls[id].expiresAt) {
      B.SameVerdict(db.meta[id], b[id], now);
    }
  }

  /**
   Any number of clients interleaving on Redis, with keys or without: the memory store, given the run's effects one by
   one, gives the scripts' answers and ends with the same polls, counts, choices and closed status.
   */
  lemma InterleavingsAreSequential(now: int, es: seq<Event>)
    requires ValidRun(Init(now), es) && PlainRun(Init(now), es)
    ensures E.MemoryCodes(M.EMPTY_MEM, Effects(Init(now), es)) == Answers(Init(now), es)
    ensures var t, m := Run(Init(now), es), E.MemoryAfter(M.EMPTY_MEM, Effects(Init(now), es));
            && (forall id :: id in m.polls <==> L.Live(t.db, id))
            && (forall id :: id in m.polls ==> SamePoll(t.db, m, id))
            && (forall id :: id in m.polls && L.Live(t.db, id) && !Deadline.LastSecond(t.now, m.polls[id].expiresAt) ==>
                  (t.db.meta[id].ReadsClosed(t.now) <==> M.Shut(m.polls[id], t.now)))
  {
    Invariants.InitInv(now);
    RunSims(Init(now), es, map[], M.EMPTY_MEM);
    Invariants.RunKeepsInv(Init(now), es);
    var t, m := Run(Init(now), es), E.MemoryAfter(M.EMPTY_MEM, Effects(Init(now), es));
    var b := E.BoxAfter(map[], Effects(Init(now), es));
    forall id | id in m.polls
      ensures SamePoll(t.db, m, id)
      ensures L.Live(t.db, id) && (!Deadline.LastSecond(t.now, m.polls[id].expiresAt) ==>
                (t.db.meta[id].ReadsClosed(t.now) <==> M.Shut(m.polls[id], t.now)))
    {
      MatchedPoll(t.db, m, b, t.now, id);
    }
  }

  // ---------- What does not agree ----------

  /**
   Two clients deleting one poll can both be answered with success, which no sequence of operations does: of two
   deletes the second finds nothing. So answers of close and delete have no order of effects that explains them.
   */
  lemma BothDeletesSucceed(s: State, c: nat, d: nat, id: PollId, user: UserId)
    returns (es: seq<Event>)
    requires c !in s.clients && d !in s.clients && c != d && Keys.Askable(id)
    requires L.Live(s.db, id) && s.db.meta[id].createdBy == user
    ensures ValidRun(s, es) && c in Run(s, es).clients && d in Run(s, es).clients
    ensures Run(s, es).clients[c] == Done(OK) && Run(s, es).clients[d] == Done(OK)
    ensures forall b: B.Box, now, later :: B.Apply(B.Apply(b, B.Delete(id, user), now).1, B.Delete(id, user), later).0
              == NotFound
  {
    var first := Alone(s, c, id, user);
    var t := Run(s, first);
    var second := Alone(t, d, id, user);
    var u := Run(t, second);
    RunConcat(s, first, second);
    var third := Finishing(u, c, id, user);
    var v := Run(u, third);
    RunConcat(s, first + second, third);
    var fourth := Finishing(v, d, id, user);
    RunConcat(s, (first + second) + third, fourth);
    es := ((first + second) + third) + fourth;
  }

  /** A delete up to its write. */
  lemma Alone(s: State, c: nat, id: PollId, user: UserId) returns (es: seq<Event>)
    requires c !in s.clients && Keys.Askable(id) && L.Live(s.db, id) && s.db.meta[id].createdBy == user
    ensures ValidRun(s, es) && Run(s, es) == s.(clients := s.clients[c := Write(Delete, id, user, "")])
  {
    var start := Start(c, Delete, id, user, "");
    var s1 := Step(s, start);
    var s2 := Step(s1, Advance(c));
    var s3 := Step(s2, Advance(c));
    Then(s2, Advance(c), []);
    Then(s1, Advance(c), [Advance(c)] + []);
    Then(s, start, [Advance(c)] + ([Advance(c)] + []));
    es := [start] + ([Advance(c)] + ([Advance(c)] + []));
    assert s3.clients == s.clients[c := Write(Delete, id, user, "")];
  }

  /** And on from there, alone. */
  lemma Finishing(s: State, c: nat, id: PollId, user: UserId) returns (es: seq<Event>)
    requires c in s.clients && s.clients[c] == Write(Delete, id, user, "")
    ensures ValidRun(s, es) && c in Run(s, es).clients && Run(s, es).clients[c] == Done(OK)
    ensures forall d :: d in s.clients && d != c ==> d in Run(s, es).clients && Run(s, es).clients[d] == s.clients[d]
  {
    var s1 := Step(s, Advance(c));
    var s2 := Step(s1, Advance(c));
    var s3 := Step(s2, Advance(c));
    var s4 := Step(s3, Advance(c));
    Then(s3, Advance(c), []);
    Then(s2, Advance(c), [Advance(c)] + []);
    Then(s1, Advance(c), [Advance(c)] + ([Advance(c)] + []));
    Then(s, Advance(c), [Advance(c)] + ([Advance(c)] + ([Advance(c)] + [])));
    es := [Advance(c)] + ([Advance(c)] + ([Advance(c)] + ([Advance(c)] + [])));
    assert Run(s, es) == s4;
  }
}
