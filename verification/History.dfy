/**
 The state told from the log: which polls are there, which are closed and by whom, who has a ballot for what, and with
 them every answer of the two scripts and every poll read, from the events of a run alone
 (internal/store/redis/scripts.go:45-155, internal/store/redis/store.go:24-141, 423-473).
 */
module History {
  import opened Common
  import opened Ledger
  import opened Protocol
  import opened Invariants
  import opened RedisServer
  import KeyLife
  import Keys
  import ServerRuns

  // ---------- What events do ----------

  predicate AtWrite(s: State, e: Event, op: Op, id: PollId) {
    e.Advance? && e.client in s.clients && s.clients[e.client].Write?
    && s.clients[e.client].op == op && s.clients[e.client].id == id
  }

  predicate Makes(e: Event, id: PollId) {
    e.Create? && e.poll.id == id
  }

  predicate Casts(s: State, e: Event, id: PollId, user: UserId, option: string) {
    e.Vote? && e.id == id && e.user == user && e.option == option && Result(s, e) == OK
  }

  predicate TakesBack(s: State, e: Event, id: PollId, user: UserId) {
    e.Undo? && e.id == id && e.user == user && Result(s, e) == OK
  }

  /** The poll has been made among the first n events. */
  ghost predicate Made(es: seq<Event>, n: nat, id: PollId)
    requires n <= |es|
  {
    exists i: nat :: i < n && Makes(es[i], id)
  }

  /** A delete has dropped it, or a close flagged it, among the first n events. */
  ghost predicate Written(s: State, es: seq<Event>, n: nat, op: Op, id: PollId)
    requires ValidRun(s, es) && n <= |es|
  {
    exists i: nat :: i < n && AtWrite(Before(s, es, i), es[i], op, id)
  }

  /** A close after a delete at position i, and no delete from there to n. */
  ghost predicate Haunts(s: State, es: seq<Event>, i: nat, n: nat, id: PollId)
    requires ValidRun(s, es) && n <= |es|
  {
    && i < n && AtWrite(Before(s, es, i), es[i], Close, id) && Written(s, es, i, Delete, id)
    && forall j: nat :: i < j < n ==> !AtWrite(Before(s, es, j), es[j], Delete, id)
  }

  /** A close has come after a delete, and no delete since: there is metadata again, but no poll. */
  ghost predicate Haunted(s: State, es: seq<Event>, n: nat, id: PollId)
    requires ValidRun(s, es) && n <= |es|
  {
    exists i: nat :: Haunts(s, es, i, n, id)
  }

  // ---------- Metadata ----------

  /** What one step does to a poll's metadata. */
  ghost predicate MetaStep(s: State, e: Event, t: State, id: PollId) {
    && (id in t.born <==> id in s.born || Makes(e, id))
    && (id in t.db.meta <==>
          (id in s.db.meta || Makes(e, id) || AtWrite(s, e, Close, id)) && !AtWrite(s, e, Delete, id))
    && (Live(t.db, id) <==> (Live(s.db, id) || Makes(e, id)) && !AtWrite(s, e, Delete, id))
    && (Makes(e, id) ==> id in t.born && t.born[id].poll == e.poll && Live(t.db, id)
                         && t.db.meta[id].isClosed == e.poll.isClosed && t.db.meta[id].updatedBy == e.poll.updatedBy)
    && (id in s.born ==> id in t.born && t.born[id] == s.born[id])
    && (Live(s.db, id) && Live(t.db, id) && id in s.born && !Makes(e, id) ==>
          if AtWrite(s, e, Close, id) then
            t.db.meta[id].isClosed && t.db.meta[id].updatedBy == s.born[id].poll.createdBy
          else
            t.db.meta[id].isClosed == s.db.meta[id].isClosed && t.db.meta[id].updatedBy == s.db.meta[id].updatedBy)
  }

  lemma CloseMeta(s: State, c: nat, id: PollId)
    requires Inv(s) && Allowed(s, Advance(c)) && s.clients[c].Write? && s.clients[c].op.Close?
    ensures MetaStep(s, Advance(c), AdvanceStep(s, c), id) && s.clients[c].id in s.born
  {
    assert ClientOk(s, s.clients[c]);
    assert AdvanceStep(s, c).db == MarkClosed(s.db, s.clients[c].id, s.clients[c].user);
  }

  lemma DropMeta(s: State, c: nat, id: PollId)
    requires Inv(s) && Allowed(s, Advance(c)) && s.clients[c].Write? && s.clients[c].op.Delete?
    ensures MetaStep(s, Advance(c), AdvanceStep(s, c), id) && s.clients[c].id in s.born
  {
    assert ClientOk(s, s.clients[c]);
    assert AdvanceStep(s, c).db == DropPoll(s.db, s.clients[c].id);
  }

  lemma OthersLeaveMeta(s: State, c: nat)
    requires Allowed(s, Advance(c)) && !s.clients[c].Write?
    ensures AdvanceStep(s, c).db.meta == s.db.meta && AdvanceStep(s, c).born == s.born
  {
    match s.clients[c]
    case RemIndex(id, user, key) => assert AdvanceStep(s, c).clients == s.clients[c := RemPublic(id, user, key)];
    case RemPublic(id, user, key) => assert AdvanceStep(s, c).clients == s.clients[c := RemCreated(id, user, key)];
    case RemCreated(id, user, key) => assert AdvanceStep(s, c).clients == s.clients[c := AfterWrites(user, key)];
    case SetKey(user, key) => assert AdvanceStep(s, c).db == SetIdem(s.db, user, key, s.now);
    case ReadMeta(_, _, _, _) => assert AdvanceStep(s, c).db == s.db;
    case Decide(_, _, _, _, _) => assert AdvanceStep(s, c).db == s.db;
    case CheckKey(_, _, _, _) => assert AdvanceStep(s, c).db == s.db;
  }

  lemma MetaLeft(s: State, e: Event, t: State, id: PollId)
    requires t.db.meta == s.db.meta && t.born == s.born && !e.Create?
    requires e.Advance? && e.client in s.clients ==> !s.clients[e.client].Write?
    ensures MetaStep(s, e, t, id)
  {
  }

  lemma AdvanceMeta(s: State, c: nat, id: PollId)
    requires Inv(s) && Allowed(s, Advance(c))
    ensures MetaStep(s, Advance(c), AdvanceStep(s, c), id)
    ensures s.clients[c].Write? ==> s.clients[c].id in s.born
  {
    if !s.clients[c].Write? {
      OthersLeaveMeta(s, c);
      MetaLeft(s, Advance(c), AdvanceStep(s, c), id);
    } else if s.clients[c].op.Close? {
      CloseMeta(s, c, id);
    } else {
      DropMeta(s, c, id);
    }
  }

  lemma StepMeta(s: State, e: Event, id: PollId)
    requires Inv(s) && Allowed(s, e)
    ensures MetaStep(s, e, Step(s, e), id)
    ensures AtWrite(s, e, Close, id) || AtWrite(s, e, Delete, id) ==> id in s.born
  {
    match e
    case Vote(i, u, o, k) => VoteTouches(s.db, i, u, o, k, s.now);
    case Undo(i, u, k) => UndoTouches(s.db, i, u, k, s.now);
    case Advance(c) => AdvanceMeta(s, c, id);
    case _ =>
  }

  lemma InvBefore(now: int, es: seq<Event>, n: nat)
    requires ValidRun(Init(now), es) && n <= |es|
    ensures Inv(Before(Init(now), es, n))
  {
    InitInv(now);
    ValidPrefix(Init(now), es, n);
    RunKeepsInv(Init(now), es[..n]);
  }

  /** Where a poll stands after n events, told from the log. */
  ghost predicate Stands(s: State, es: seq<Event>, n: nat, id: PollId)
    requires ValidRun(s, es) && n <= |es|
  {
    var t := Before(s, es, n);
    && (id in t.born <==> Made(es, n, id))
    && (Live(t.db, id) <==> Made(es, n, id) && !Written(s, es, n, Delete, id))
    && (id in t.db.meta <==> Live(t.db, id) || Haunted(s, es, n, id))
    && (Written(s, es, n, Delete, id) || Written(s, es, n, Close, id) ==> Made(es, n, id))
    && (id in t.born && Live(t.db, id) ==>
          && (t.db.meta[id].isClosed <==> t.born[id].poll.isClosed || Written(s, es, n, Close, id))
          && t.db.meta[id].updatedBy
             == if Written(s, es, n, Close, id) then t.born[id].poll.createdBy else t.born[id].poll.updatedBy)
  }

  lemma OneMoreMade(es: seq<Event>, n: nat, id: PollId)
    requires n < |es|
    ensures Made(es, n + 1, id) <==> Made(es, n, id) || Makes(es[n], id)
  {
  }

  lemma OneMoreWrite(s: State, es: seq<Event>, n: nat, op: Op, id: PollId)
    requires ValidRun(s, es) && n < |es|
    ensures Written(s, es, n + 1, op, id) <==> Written(s, es, n, op, id) || AtWrite(Before(s, es, n), es[n], op, id)
  {
    if Written(s, es, n, op, id) {
      var i: nat :| i < n && AtWrite(Before(s, es, i), es[i], op, id);
      assert i < n + 1;
    }
  }

  lemma OneMoreHaunts(s: State, es: seq<Event>, n: nat, id: PollId)
    requires ValidRun(s, es) && n < |es|
    ensures Haunted(s, es, n + 1, id) <==>
              && !AtWrite(Before(s, es, n), es[n], Delete, id)
              && (Haunted(s, es, n, id)
                  || (AtWrite(Before(s, es, n), es[n], Close, id) && Written(s, es, n, Delete, id)))
  {
    if Haunted(s, es, n, id) && !AtWrite(Before(s, es, n), es[n], Delete, id) {
      var i: nat :| Haunts(s, es, i, n, id);
      assert Haunts(s, es, i, n + 1, id);
    }
    if Haunted(s, es, n + 1, id) {
      var i: nat :| Haunts(s, es, i, n + 1, id);
      assert i < n ==> Haunts(s, es, i, n, id);
    }
    assert AtWrite(Before(s, es, n), es[n], Close, id) && Written(s, es, n, Delete, id) ==> Haunts(s, es, n, n + 1, id);
  }

  lemma StandsNext(now: int, es: seq<Event>, n: nat, id: PollId)
    requires ValidRun(Init(now), es) && n < |es| && Stands(Init(now), es, n, id)
    ensures Stands(Init(now), es, n + 1, id)
  {
    var s := Init(now);
    InvBefore(now, es, n);
    BeforeStep(s, es, n);
    StepMeta(Before(s, es, n), es[n], id);
    OneMoreMade(es, n, id);
    OneMoreWrite(s, es, n, Close, id);
    OneMoreWrite(s, es, n, Delete, id);
    OneMoreHaunts(s, es, n, id);
  }

  /**
   After any events: a poll is live if it was made and no delete has dropped it; there is metadata for it besides
   exactly if a close has come since a delete; it is flagged if it was made so or a close has been written; and its last
   editor is its creator if one has, and otherwise whoever it was made with.
   */
  lemma {:induction false} StandsThroughout(now: int, es: seq<Event>, n: nat, id: PollId)
    requires ValidRun(Init(now), es) && n <= |es|
    ensures Stands(Init(now), es, n, id)
    decreases n
  {
    if n == 0 {
      BeforeStart(Init(now), es);
    } else {
      StandsThroughout(now, es, n - 1, id);
      StandsNext(now, es, n - 1, id);
    }
  }

  // ---------- Ballots ----------

  /** The user's vote at position i, for the option, succeeded and has not been undone before position n. */
  ghost predicate ChoseAt(s: State, es: seq<Event>, i: nat, n: nat, id: PollId, user: UserId, option: string)
    requires ValidRun(s, es) && n <= |es|
  {
    && i < n && Casts(Before(s, es, i), es[i], id, user, option)
    && forall j: nat :: i < j < n ==> !TakesBack(Before(s, es, j), es[j], id, user)
  }

  ghost predicate Chose(s: State, es: seq<Event>, n: nat, id: PollId, user: UserId, option: string)
    requires ValidRun(s, es) && n <= |es|
  {
    exists i: nat :: ChoseAt(s, es, i, n, id, user, option)
  }

  lemma NewChoice(s: State, es: seq<Event>, n: nat, id: PollId, user: UserId, option: string)
    requires ValidRun(s, es) && n < |es|
    ensures ChoseAt(s, es, n, n + 1, id, user, option) <==> Casts(Before(s, es, n), es[n], id, user, option)
  {
  }

  lemma OldChoice(s: State, es: seq<Event>, i: nat, n: nat, id: PollId, user: UserId, option: string)
    requires ValidRun(s, es) && i < n < |es|
    ensures ChoseAt(s, es, i, n + 1, id, user, option) <==>
              ChoseAt(s, es, i, n, id, user, option) && !TakesBack(Before(s, es, n), es[n], id, user)
  {
  }

  lemma ChoiceStays(s: State, es: seq<Event>, n: nat, id: PollId, user: UserId, option: string)
    requires ValidRun(s, es) && n < |es| && Chose(s, es, n, id, user, option)
    requires !TakesBack(Before(s, es, n), es[n], id, user)
    ensures Chose(s, es, n + 1, id, user, option)
  {
    var i: nat :| ChoseAt(s, es, i, n, id, user, option);
    OldChoice(s, es, i, n, id, user, option);
  }

  lemma ChoiceFrom(s: State, es: seq<Event>, n: nat, id: PollId, user: UserId, option: string)
    requires ValidRun(s, es) && n < |es| && Chose(s, es, n + 1, id, user, option)
    ensures || ChoseAt(s, es, n, n + 1, id, user, option)
            || (Chose(s, es, n, id, user, option) && !TakesBack(Before(s, es, n), es[n], id, user))
  {
    var i: nat :| ChoseAt(s, es, i, n + 1, id, user, option);
    if i < n {
      OldChoice(s, es, i, n, id, user, option);
    }
  }

  lemma OneMoreChoice(s: State, es: seq<Event>, n: nat, id: PollId, user: UserId, option: string)
    requires ValidRun(s, es) && n < |es|
    ensures Chose(s, es, n + 1, id, user, option) <==>
              || ChoseAt(s, es, n, n + 1, id, user, option)
              || (Chose(s, es, n, id, user, option) && !TakesBack(Before(s, es, n), es[n], id, user))
  {
    if Chose(s, es, n, id, user, option) && !TakesBack(Before(s, es, n), es[n], id, user) {
      ChoiceStays(s, es, n, id, user, option);
    }
    if Chose(s, es, n + 1, id, user, option) {
      ChoiceFrom(s, es, n, id, user, option);
    }
  }

  /** The ledger has the user down as a voter for the option. */
  predicate Holds(db: Db, id: PollId, user: UserId, option: string) {
    (id, user) in db.voters && (id, user) in db.history && db.history[(id, user)] == option
  }

  /** What has changed of a ballot after an event. */
  predicate BallotStep(s: State, e: Event, d: Db, id: PollId, user: UserId, option: string) {
    Holds(d, id, user, option) <==>
      || Casts(s, e, id, user, option)
      || (Holds(s.db, id, user, option) && !TakesBack(s, e, id, user))
  }

  lemma VoteBallot(s: State, e: Event, id: PollId, user: UserId, option: string)
    requires Allowed(s, e) && e.Vote?
    ensures BallotStep(s, e, Step(s, e).db, id, user, option)
  {
    if Result(s, e) == OK {
      assert Step(s, e).db == SetIdem(CastVote(s.db, e.id, e.user, e.option), e.user, e.key, s.now);
    }
  }

  lemma UndoBallot(s: State, e: Event, id: PollId, user: UserId, option: string)
    requires Allowed(s, e) && e.Undo?
    ensures BallotStep(s, e, Step(s, e).db, id, user, option)
  {
    if Result(s, e) == OK {
      var d := RetractVote(s.db, e.id, e.user, s.db.history[(e.id, e.user)]);
      assert Step(s, e).db == SetIdem(d, e.user, e.key, s.now);
    }
  }

  lemma CreateBallot(s: State, p: Poll, salt: nat, id: PollId, user: UserId, option: string)
    requires p.id != id
    ensures Holds(CreateTx(s.db, p, salt), id, user, option) <==> Holds(s.db, id, user, option)
  {
  }

  lemma StepBallot(s: State, e: Event, id: PollId, user: UserId, option: string)
    requires Inv(s) && Allowed(s, e) && Live(s.db, id) && Live(Step(s, e).db, id)
    ensures BallotStep(s, e, Step(s, e).db, id, user, option)
  {
    match e
    case Vote(_, _, _, _) => VoteBallot(s, e, id, user, option);
    case Undo(_, _, _) => UndoBallot(s, e, id, user, option);
    case Create(p, salt) => CreateBallot(s, p, salt, id, user, option);
    case Advance(c) => AdvanceBallot(s, c, id, user, option);
    case _ =>
  }

  lemma AdvanceBallot(s: State, c: nat, id: PollId, user: UserId, option: string)
    requires Allowed(s, Advance(c)) && Live(AdvanceStep(s, c).db, id)
    ensures Holds(AdvanceStep(s, c).db, id, user, option) <==> Holds(s.db, id, user, option)
  {
    var pc := s.clients[c];
    if pc.Write? && pc.op.Delete? {
      assert pc.id != id;
    } else {
      assert AdvanceStep(s, c).db.voters == s.db.voters && AdvanceStep(s, c).db.history == s.db.history;
    }
  }

  lemma MadeForGood(es: seq<Event>, i: nat, n: nat, id: PollId)
    requires i <= n <= |es|
    ensures Made(es, i, id) ==> Made(es, n, id)
  {
    if Made(es, i, id) {
      var k: nat :| k < i && Makes(es[k], id);
      assert k < n;
    }
  }

  lemma NotBeforeMade(now: int, es: seq<Event>, n: nat, id: PollId, user: UserId, option: string)
    requires ValidRun(Init(now), es) && n < |es| && Makes(es[n], id)
    ensures !Chose(Init(now), es, n + 1, id, user, option)
    ensures !Holds(Before(Init(now), es, n + 1).db, id, user, option)
  {
    var s := Init(now);
    BeforeStep(s, es, n);
    StandsThroughout(now, es, n, id);
    forall i: nat | i < n
      ensures !Casts(Before(s, es, i), es[i], id, user, option)
    {
      StandsThroughout(now, es, i, id);
      MadeForGood(es, i, n, id);
    }
  }

  /** On a live poll, who has a ballot for what is who voted so last and has not taken it back since. */
  lemma {:induction false} HoldsIffChose(now: int, es: seq<Event>, n: nat, id: PollId, user: UserId, option: string)
    requires ValidRun(Init(now), es) && n <= |es| && Live(Before(Init(now), es, n).db, id)
    ensures Holds(Before(Init(now), es, n).db, id, user, option) <==> Chose(Init(now), es, n, id, user, option)
    decreases n
  {
    var s := Init(now);
    BeforeStart(s, es);
    BeforeStep(s, es, n - 1);
    InvBefore(now, es, n - 1);
    if Makes(es[n - 1], id) {
      NotBeforeMade(now, es, n - 1, id, user, option);
    } else {
      StepMeta(Before(s, es, n - 1), es[n - 1], id);
      StepBallot(Before(s, es, n - 1), es[n - 1], id, user, option);
      HoldsIffChose(now, es, n - 1, id, user, option);
      OneMoreChoice(s, es, n - 1, id, user, option);
      NewChoice(s, es, n - 1, id, user, option);
    }
  }

  // ---------- Answers ----------

  /** The poll is there for the scripts: made and not dropped, or metadata left by a late close. */
  ghost predicate There(s: State, es: seq<Event>, id: PollId)
    requires ValidRun(s, es)
  {
    (Made(es, |es|, id) && !Written(s, es, |es|, Delete, id)) || Haunted(s, es, |es|, id)
  }

  /** But it takes no ballots: only metadata is left, or it was made closed, closed since, or its second is past. */
  ghost predicate Barred(s: State, es: seq<Event>, id: PollId)
    requires ValidRun(s, es)
  {
    var t := Run(s, es);
    || id !in t.born || Written(s, es, |es|, Delete, id) || Written(s, es, |es|, Close, id)
    || t.born[id].poll.isClosed || Unix(t.now) > Unix(t.born[id].poll.expiresAt)
  }

  ghost predicate HasBallot(s: State, es: seq<Event>, id: PollId, user: UserId)
    requires ValidRun(s, es)
  {
    exists option :: Chose(s, es, |es|, id, user, option)
  }

  ghost predicate KeyUsed(s: State, es: seq<Event>, user: UserId, key: string)
    requires ValidRun(s, es)
  {
    key != "" && KeyLife.UsedLately(s, es, Keys.IdemKey(user, key))
  }

  lemma GateAnswers(now: int, es: seq<Event>, e: Event)
    requires ValidRun(Init(now), es) && (e.Vote? || e.Undo?)
    ensures var (s, t) := (Init(now), Run(Init(now), es));
            && (Repeated(t.db, e.user, e.key, t.now) <==> KeyUsed(s, es, e.user, e.key))
            && (e.id in t.db.meta <==> There(s, es, e.id))
            && (e.id in t.db.meta ==> (t.db.meta[e.id].Shut(t.now) <==> Barred(s, es, e.id)))
            && (e.id in t.db.meta && !Barred(s, es, e.id) ==> Live(t.db, e.id) && e.id in t.born)
  {
    var (s, t) := (Init(now), Run(Init(now), es));
    BeforeEnd(s, es);
    InvBefore(now, es, |es|);
    StandsThroughout(now, es, |es|, e.id);
    if e.key != "" {
      KeyLife.LiveIff(now, es, Keys.IdemKey(e.user, e.key));
    }
    if Live(t.db, e.id) {
      assert Unchanging(t.db.meta[e.id], t.born[e.id].poll);
    }
  }

  lemma VoterHasBallot(now: int, es: seq<Event>, id: PollId, user: UserId)
    requires ValidRun(Init(now), es) && Live(Run(Init(now), es).db, id)
    ensures (id, user) in Run(Init(now), es).db.voters <==> HasBallot(Init(now), es, id, user)
    ensures (id, user) in Run(Init(now), es).db.voters ==> (id, user) in Run(Init(now), es).db.history
  {
    BeforeEnd(Init(now), es);
    InvBefore(now, es, |es|);
    var db := Run(Init(now), es).db;
    forall option
      ensures Holds(db, id, user, option) <==> Chose(Init(now), es, |es|, id, user, option)
    {
      HoldsIffChose(now, es, |es|, id, user, option);
    }
    if (id, user) in db.voters {
      assert Holds(db, id, user, db.history[(id, user)]);
    }
  }

  lemma OptionsCounted(now: int, es: seq<Event>, id: PollId, option: string)
    requires ValidRun(Init(now), es) && Live(Run(Init(now), es).db, id)
    ensures id in Run(Init(now), es).born
    ensures (id, option) in Run(Init(now), es).db.tally <==> option in Run(Init(now), es).born[id].poll.options
  {
    BeforeEnd(Init(now), es);
    InvBefore(now, es, |es|);
    var t := Run(Init(now), es);
    assert id in t.db.options && t.db.options[id] == t.born[id].poll.options;
  }

  /** What a vote is answered after any run. */
  lemma VoteAnswered(now: int, es: seq<Event>, e: Event)
    requires ValidRun(Init(now), es) && e.Vote?
    ensures var (s, t) := (Init(now), Run(Init(now), es));
            Result(t, e) == if KeyUsed(s, es, e.user, e.key) then Noop
                            else if !There(s, es, e.id) then NotFound
                            else if Barred(s, es, e.id) then Forbidden
                            else if HasBallot(s, es, e.id, e.user) then Conflict
                            else if e.id in t.born && e.option !in t.born[e.id].poll.options then Invalid
                            else OK
  {
    GateAnswers(now, es, e);
    if There(Init(now), es, e.id) && !Barred(Init(now), es, e.id) {
      VoterHasBallot(now, es, e.id, e.user);
      OptionsCounted(now, es, e.id, e.option);
    }
  }

  /** And an undo. */
  lemma UndoAnswered(now: int, es: seq<Event>, e: Event)
    requires ValidRun(Init(now), es) && e.Undo?
    ensures var (s, t) := (Init(now), Run(Init(now), es));
            Result(t, e) == if KeyUsed(s, es, e.user, e.key) then Noop
                            else if !There(s, es, e.id) then NotFound
                            else if Barred(s, es, e.id) then Forbidden
                            else if !HasBallot(s, es, e.id, e.user) then Conflict
                            else OK
  {
    GateAnswers(now, es, e);
    if There(Init(now), es, e.id) && !Barred(Init(now), es, e.id) {
      VoterHasBallot(now, es, e.id, e.user);
    }
  }

  // ---------- Reads ----------

  /**
   What getPoll returns of a live poll after any run: what it was made with, times cut to seconds, closed if it was
   made so, has been closed or is past its deadline, last edited by its creator if closed; and of every option the
   number of users who voted for it last and have not taken it back.
   */
  lemma ReadsAsMade(now: int, es: seq<Event>, id: PollId)
    requires ValidRun(Init(now), es) && Live(Run(Init(now), es).db, id)
    ensures var (s, t) := (Init(now), Run(Init(now), es));
            && id in t.born && ReadPoll(t.db, id, t.now).Some?
            && var p, b := ReadPoll(t.db, id, t.now).value, t.born[id].poll;
            var closed := Written(s, es, |es|, Close, id);
            && p == b.(votes := p.votes, createdAt := Truncated(b.createdAt), expiresAt := Truncated(b.expiresAt),
                       isClosed := b.isClosed || closed || t.now > Truncated(b.expiresAt),
                       updatedBy := if closed then b.createdBy else b.updatedBy)
            && (forall o :: o in p.votes <==> o in b.options)
            && (forall o :: o in p.votes ==> p.votes[o] == |Supporters(t.db, id, o)|)
            && (forall v, o :: v in Supporters(t.db, id, o) <==> v.0 == id && Chose(s, es, |es|, id, v.1, o))
  {
    var (s, t) := (Init(now), Run(Init(now), es));
    BeforeEnd(s, es);
    InvBefore(now, es, |es|);
    StandsThroughout(now, es, |es|, id);
    assert Unchanging(t.db.meta[id], t.born[id].poll) && t.born[id].poll.id == id;
    forall o
      ensures o in CountsOf(t.db.tally, id) <==> o in t.born[id].poll.options
      ensures o in CountsOf(t.db.tally, id) ==> CountsOf(t.db.tally, id)[o] == |Supporters(t.db, id, o)|
    {
      OptionsCounted(now, es, id, o);
      CountField(t.db.tally, id, o);
      TallyCountsSupporters(t.db, id, o);
    }
    forall v: (PollId, UserId), o
      ensures v in Supporters(t.db, id, o) <==> v.0 == id && Chose(s, es, |es|, id, v.1, o)
    {
      HoldsIffChose(now, es, |es|, id, v.1, o);
      assert v == (v.0, v.1);
    }
  }

  /** And of metadata that a late close left of a dropped poll: a closed poll without id, creator, options or counts. */
  lemma StubReadsEmpty(now: int, es: seq<Event>, id: PollId)
    requires ValidRun(Init(now), es) && Written(Init(now), es, |es|, Delete, id)
    ensures var t := Run(Init(now), es);
            if Haunted(Init(now), es, |es|, id) then
              ReadPoll(t.db, id, t.now).Some?
              && var p := ReadPoll(t.db, id, t.now).value;
              p.isClosed && p.id == p.createdBy == p.question == "" && p.options == [] && p.votes == map[]
            else ReadPoll(t.db, id, t.now) == None
  {
    var t := Run(Init(now), es);
    BeforeEnd(Init(now), es);
    InvBefore(now, es, |es|);
    StandsThroughout(now, es, |es|, id);
    forall o
      ensures o !in CountsOf(t.db.tally, id)
    {
      CountField(t.db.tally, id, o);
      ServerRuns.NotLiveNoCount(t.db, id, o);
    }
  }
}
