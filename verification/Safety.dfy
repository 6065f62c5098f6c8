/** What holds in every reachable state and over every run of the interleaved Redis ledger. */
module Safety {
  import opened Common
  import opened Ledger
  import opened Protocol
  import opened Invariants
  import Keys

  // ---------- Tallies ----------

  /**
   In every reachable state every poll's count for every option is the number of its voters whose history
   records that option; deleted polls and stubs are no exception.
   */
  lemma TalliesExact(now: int, es: seq<Event>, id: PollId, option: string)
    requires ValidRun(Init(now), es)
    ensures var db := Run(Init(now), es).db;
            && TallyAt(db, id, option) == |Supporters(db, id, option)|
            && TallyAt(db, id, option) >= 0
            && (!Live(db, id) ==> TallyAt(db, id, option) == 0 && VotersOf(db, id) == {})
  {
    InitInv(now);
    RunKeepsInv(Init(now), es);
    var db := Run(Init(now), es).db;
    TallyCountsSupporters(db, id, option);
    if !Live(db, id) {
      assert (id, option) !in db.tally;
      assert VotersOf(db, id) == {};
    }
  }

  /** In every reachable state a live poll's counts over its options add up to its number of voters. */
  lemma TalliesSum(now: int, es: seq<Event>, id: PollId)
    requires ValidRun(Init(now), es)
    requires Live(Run(Init(now), es).db, id) && id in Run(Init(now), es).born
    requires Distinct(Run(Init(now), es).born[id].poll.options)
    ensures var s := Run(Init(now), es);
            SumTally(s.db, id, s.born[id].poll.options) == |VotersOf(s.db, id)|
  {
    InitInv(now);
    RunKeepsInv(Init(now), es);
    var s := Run(Init(now), es);
    assert s.db.options[id] == s.born[id].poll.options;
    TallySumsToVoters(s.db, id, s.born[id].poll.options);
  }

  /** The undo script's clamp at zero and its missing-history return are dead code in every reachable state. */
  lemma UndoBranchesUnreachable(now: int, es: seq<Event>, id: PollId, user: UserId)
    requires ValidRun(Init(now), es)
    requires (id, user) in Run(Init(now), es).db.voters
    ensures var db := Run(Init(now), es).db;
            && (id, user) in db.history
            && TallyAt(db, id, db.history[(id, user)]) - 1 >= 0
  {
    InitInv(now);
    RunKeepsInv(Init(now), es);
    UndoNeverClamps(Run(Init(now), es).db, id, user);
  }

  // ---------- Indexes ----------

  /**
   In every reachable state a live poll is indexed, is in the public index exactly if it is public, and has one
   entry among all creators' sets, its creator's, with its creation score; any other entry has a deleter on its way.
   */
  lemma IndexesAgree(now: int, es: seq<Event>, id: PollId)
    requires ValidRun(Init(now), es)
    ensures var s := Run(Init(now), es);
            && (Live(s.db, id) ==>
                  && id in s.born && id in s.db.index
                  && (id in s.db.publicIndex <==> s.db.meta[id].isPublic)
                  && (forall u :: (u, id) in s.db.created <==> u == s.db.meta[id].createdBy)
                  && s.db.created[(s.db.meta[id].createdBy, id)]
                     == CreatedScore(s.born[id].poll.createdAt, s.born[id].salt))
            && (!Live(s.db, id) ==>
                  && (id in s.db.index ==> exists u :: BeingRemoved(s, id, u, 1))
                  && (id in s.db.publicIndex ==> exists u :: BeingRemoved(s, id, u, 2))
                  && (forall u :: (u, id) in s.db.created ==> BeingRemoved(s, id, u, 3)))
  {
    InitInv(now);
    RunKeepsInv(Init(now), es);
    var s := Run(Init(now), es);
    if Live(s.db, id) {
      assert Unchanging(s.db.meta[id], s.born[id].poll);
      assert forall u :: (u, id) in s.db.created ==> s.born[(u, id).1].poll.createdBy == (u, id).0;
    } else {
      assert forall u :: (u, id) in s.db.created ==>
        (u, id).1 in s.born && s.born[(u, id).1].poll.createdBy == (u, id).0;
    }
  }

  /** When no delete is under way, the indexes list exactly the live polls. */
  lemma IndexesExactAtRest(now: int, es: seq<Event>, id: PollId)
    requires ValidRun(Init(now), es)
    requires forall c :: c in Run(Init(now), es).clients ==> !InRemoval(Run(Init(now), es).clients[c])
    ensures var s := Run(Init(now), es);
            && (id in s.db.index <==> Live(s.db, id))
            && (id in s.db.publicIndex <==> Live(s.db, id) && s.db.meta[id].isPublic)
            && (forall u :: (u, id) in s.db.created <==> Live(s.db, id) && s.db.meta[id].createdBy == u)
  {
    IndexesAgree(now, es, id);
  }

  // ---------- Finality ----------

  /** The poll is gone, flagged closed, or past its deadline as the scripts see it. */
  ghost predicate Frozen(s: State, id: PollId) {
    id in s.born && (Live(s.db, id) ==> s.db.meta[id].Shut(s.now))
  }

  ghost predicate SameHistory(db: Db, d: Db, id: PollId) {
    forall u :: ((id, u) in d.history <==> (id, u) in db.history)
             && ((id, u) in db.history ==> d.history[(id, u)] == db.history[(id, u)])
  }

  ghost predicate SameBallots(db: Db, d: Db, id: PollId) {
    && (forall u :: (id, u) in d.voters <==> (id, u) in db.voters)
    && (forall o :: (id, o) in d.tally <==> (id, o) in db.tally)
    && (forall o :: (id, o) in db.tally && (id, o) in d.tally ==> d.tally[(id, o)] == db.tally[(id, o)])
  }

  ghost predicate NoBallots(d: Db, id: PollId) {
    (forall u :: (id, u) !in d.voters) && (forall o :: (id, o) !in d.tally)
  }

  ghost predicate Untouched(db: Db, d: Db, id: PollId) {
    SameHistory(db, d, id) && SameBallots(db, d, id)
  }

  lemma CastElsewhere(db: Db, id: PollId, user: UserId, option: string, other: PollId)
    requires id != other
    ensures Untouched(db, CastVote(db, id, user, option), other)
  {
  }

  lemma RetractElsewhere(db: Db, id: PollId, user: UserId, option: string, other: PollId)
    requires id != other
    ensures Untouched(db, RetractVote(db, id, user, option), other)
  {
  }

  lemma FrozenVote(db: Db, id: PollId, user: UserId, option: string, key: string, now: int, frozen: PollId)
    requires frozen in db.meta ==> db.meta[frozen].Shut(now)
    ensures Untouched(db, VoteScript(db, id, user, option, key, now).1, frozen)
  {
    if VoteScript(db, id, user, option, key, now).0 == OK {
      CastElsewhere(db, id, user, option, frozen);
    }
  }

  lemma FrozenUndo(db: Db, id: PollId, user: UserId, key: string, now: int, frozen: PollId)
    requires frozen in db.meta ==> db.meta[frozen].Shut(now)
    ensures Untouched(db, UndoScript(db, id, user, key, now).1, frozen)
  {
    if UndoScript(db, id, user, key, now).0 == OK {
      RetractElsewhere(db, id, user, db.history[(id, user)], frozen);
    }
  }

  lemma FrozenDrop(db: Db, other: PollId, id: PollId)
    ensures var d := DropPoll(db, other);
            SameHistory(db, d, id) && (SameBallots(db, d, id) || NoBallots(d, id))
  {
    if other == id {
      assert NoBallots(DropPoll(db, other), id);
    } else {
      assert SameBallots(db, DropPoll(db, other), id);
    }
  }

  lemma FrozenCreate(db: Db, p: Poll, salt: nat, id: PollId)
    requires p.id != id
    ensures Untouched(db, CreateTx(db, p, salt), id)
  {
    assert forall o :: (id, o) !in Zeros(p.id, p.options);
  }

  /** Ballots as they were, or emptied. */
  ghost predicate Settled(db: Db, d: Db, id: PollId) {
    SameHistory(db, d, id) && (SameBallots(db, d, id) || NoBallots(d, id))
  }

  lemma SettledTwice(a: Db, b: Db, c: Db, id: PollId)
    requires Settled(a, b, id) && Settled(b, c, id)
    ensures Settled(a, c, id)
  {
  }

  lemma FrozenAdvance(s: State, c: nat, id: PollId)
    requires c in s.clients && !s.clients[c].Done?
    ensures Settled(s.db, AdvanceStep(s, c).db, id)
  {
    var pc := s.clients[c];
    var d := AdvanceStep(s, c).db;
    if pc.Write? && pc.op.Delete? {
      FrozenDrop(s.db, pc.id, id);
    } else {
      assert d.voters == s.db.voters && d.tally == s.db.tally && d.history == s.db.history;
    }
  }

  lemma FrozenBallotsStep(s: State, e: Event, id: PollId)
    requires Allowed(s, e) && id in s.born && (id in s.db.meta ==> s.db.meta[id].Shut(s.now))
    ensures Settled(s.db, Step(s, e).db, id)
  {
    match e
    case Create(p, salt) => FrozenCreate(s.db, p, salt, id);
    case Vote(i, u, o, k) => FrozenVote(s.db, i, u, o, k, s.now, id);
    case Undo(i, u, k) => FrozenUndo(s.db, i, u, k, s.now, id);
    case Advance(c) => FrozenAdvance(s, c, id);
    case _ =>
  }

  lemma MetaStaysShut(m: Meta, now: int, elapsed: nat)
    requires m.Shut(now)
    ensures m.Shut(now + elapsed)
  {
    assert Unix(now) <= Unix(now + elapsed);
  }

  lemma FrozenStays(s: State, e: Event, id: PollId)
    requires Allowed(s, e) && Frozen(s, id)
    ensures Frozen(Step(s, e), id)
  {
    match e
    case Tick(d) =>
      if Live(s.db, id) {
        MetaStaysShut(s.db.meta[id], s.now, d);
      }
    case Create(p, salt) => assert Live(Step(s, e).db, id) ==> Live(s.db, id);
    case Vote(i, u, o, k) => VoteTouches(s.db, i, u, o, k, s.now);
    case Undo(i, u, k) => UndoTouches(s.db, i, u, k, s.now);
    case Advance(c) =>
    case Start(_, _, _, _, _) =>
  }

  /** No script on a frozen poll succeeds. */
  lemma FrozenRefuses(s: State, e: Event, id: PollId)
    requires Frozen(s, id) && (e.Vote? || e.Undo?) && e.id == id
    ensures Result(s, e) in {NotFound, Forbidden, Noop}
  {
  }

  /**
   Finality: from a state where a poll is closed, expired for the scripts, or deleted, no run changes who voted
   for what, except that a delete may empty voters and counts; and the poll stays frozen.
   */
  lemma {:induction false} Finality(s: State, es: seq<Event>, id: PollId)
    requires ValidRun(s, es) && Frozen(s, id)
    ensures Frozen(Run(s, es), id) && Settled(s.db, Run(s, es).db, id)
    decreases |es|
  {
    if es != [] {
      var t := Step(s, es[0]);
      FrozenBallotsStep(s, es[0], id);
      FrozenStays(s, es[0], id);
      Finality(t, es[1..], id);
      SettledTwice(s.db, t.db, Run(t, es[1..]).db, id);
    }
  }

  /** A deleted poll never takes a vote or an undo again, whatever happens in between. */
  lemma DeletedRefusesForever(now: int, es: seq<Event>, fs: seq<Event>, e: Event)
    requires ValidRun(Init(now), es) && ValidRun(Run(Init(now), es), fs)
    requires (e.Vote? || e.Undo?) && e.id in Run(Init(now), es).born && !Live(Run(Init(now), es).db, e.id)
    ensures var t := Run(Run(Init(now), es), fs);
            && !Live(t.db, e.id) && VotersOf(t.db, e.id) == {}
            && Result(t, e) in {NotFound, Forbidden, Noop}
  {
    var s := Run(Init(now), es);
    Finality(s, fs, e.id);
    FrozenRefuses(Run(s, fs), e, e.id);
    StaysDead(s, fs, e.id);
    RunConcat(Init(now), es, fs);
    TalliesExact(now, es + fs, e.id, "");
  }

  lemma {:induction false} StaysDead(s: State, es: seq<Event>, id: PollId)
    requires ValidRun(s, es) && id in s.born && !Live(s.db, id)
    ensures id in Run(s, es).born && !Live(Run(s, es).db, id)
    decreases |es|
  {
    if es != [] {
      DeadStep(s, es[0], id);
      StaysDead(Step(s, es[0]), es[1..], id);
    }
  }

  lemma DeadAdvance(s: State, c: nat, id: PollId)
    requires c in s.clients && !s.clients[c].Done? && !Live(s.db, id)
    ensures AdvanceStep(s, c).born == s.born && !Live(AdvanceStep(s, c).db, id)
  {
    var pc := s.clients[c];
    if pc.Write? {
      assert AdvanceStep(s, c).db in {MarkClosed(s.db, pc.id, pc.user), DropPoll(s.db, pc.id)};
    } else {
      assert AdvanceStep(s, c).db.meta == s.db.meta;
    }
  }

  lemma DeadStep(s: State, e: Event, id: PollId)
    requires Allowed(s, e) && id in s.born && !Live(s.db, id)
    ensures id in Step(s, e).born && !Live(Step(s, e).db, id)
  {
    match e
    case Vote(i, u, o, k) => VoteTouches(s.db, i, u, o, k, s.now);
    case Undo(i, u, k) => UndoTouches(s.db, i, u, k, s.now);
    case Advance(c) => DeadAdvance(s, c, id);
    case _ =>
  }

  // ---------- Idempotency keys ----------

  /** A vote or undo of this user with this key that changes the ledger. */
  predicate Succeeds(s: State, e: Event, user: UserId, key: string) {
    && (e.Vote? || e.Undo?) && e.user == user && e.key == key
    && Result(s, e) == OK
  }

  /** The keys are as they were, or one of them has been written now. */
  ghost predicate KeysGrow(db: Db, d: Db, now: int) {
    d.idem == db.idem || exists user, key :: d.idem == SetIdem(db, user, key, now).idem
  }

  lemma VoteKeysGrow(db: Db, id: PollId, user: UserId, option: string, key: string, now: int)
    ensures KeysGrow(db, VoteScript(db, id, user, option, key, now).1, now)
  {
    if VoteScript(db, id, user, option, key, now).0 == OK {
      assert SetIdem(CastVote(db, id, user, option), user, key, now).idem == SetIdem(db, user, key, now).idem;
    }
  }

  lemma UndoKeysGrow(db: Db, id: PollId, user: UserId, key: string, now: int)
    ensures KeysGrow(db, UndoScript(db, id, user, key, now).1, now)
  {
    var r := UndoScript(db, id, user, key, now);
    if r.0 == OK {
      assert r.1.idem == SetIdem(db, user, key, now).idem;
    }
  }

  lemma AdvanceKeysGrow(s: State, c: nat)
    requires c in s.clients && !s.clients[c].Done?
    ensures KeysGrow(s.db, AdvanceStep(s, c).db, s.now)
  {
    var pc := s.clients[c];
    if pc.SetKey? {
      assert AdvanceStep(s, c).db == SetIdem(s.db, pc.user, pc.key, s.now);
    } else {
      assert AdvanceStep(s, c).db.idem == s.db.idem;
    }
  }

  lemma StepKeysGrow(s: State, e: Event)
    requires Allowed(s, e)
    ensures KeysGrow(s.db, Step(s, e).db, s.now) && Step(s, e).now >= s.now
  {
    match e
    case Vote(i, u, o, k) => VoteKeysGrow(s.db, i, u, o, k, s.now);
    case Undo(i, u, k) => UndoKeysGrow(s.db, i, u, k, s.now);
    case Advance(c) => AdvanceKeysGrow(s, c);
    case _ =>
  }

  lemma KeyOutlivesStep(s: State, e: Event, name: string, until: int)
    requires Allowed(s, e)
    requires name in s.db.idem && s.db.idem[name] >= until && s.now + IDEM_TTL >= until
    ensures var t := Step(s, e);
            name in t.db.idem && t.db.idem[name] >= until && t.now >= s.now
  {
    StepKeysGrow(s, e);
  }

  /** A key once written lives at least as long as its first expiry: later writes only extend it. */
  lemma {:induction false} KeyOutlives(s: State, es: seq<Event>, name: string, until: int)
    requires ValidRun(s, es)
    requires name in s.db.idem && s.db.idem[name] >= until && s.now + IDEM_TTL >= until
    ensures var t := Run(s, es);
            name in t.db.idem && t.db.idem[name] >= until && t.now >= s.now
    decreases |es|
  {
    if es != [] {
      KeyOutlivesStep(s, es[0], name, until);
      KeyOutlives(Step(s, es[0]), es[1..], name, until);
    }
  }

  lemma SuccessWritesKey(s: State, e: Event, user: UserId, key: string)
    requires Allowed(s, e) && key != "" && Succeeds(s, e, user, key)
    ensures var n := Keys.IdemKey(user, key);
            && !IdemLive(s.db, n, s.now)
            && Step(s, e).db.idem == s.db.idem[n := s.now + IDEM_TTL]
            && Step(s, e).now == s.now
  {
  }

  /** Over any run, two successes of one user under one key are more than 300 seconds apart. */
  lemma SuccessesFarApart(s: State, es: seq<Event>, i: nat, j: nat, user: UserId, key: string)
    requires ValidRun(s, es) && i < j < |es| && key != ""
    requires Succeeds(Before(s, es, i), es[i], user, key)
    requires Succeeds(Before(s, es, j), es[j], user, key)
    ensures Before(s, es, j).now > Before(s, es, i).now + 300 * NANOS
  {
    var a, b, c := Before(s, es, i), Before(s, es, i + 1), Before(s, es, j);
    var n := Keys.IdemKey(user, key);
    BeforeStep(s, es, i);
    BeforeStep(s, es, j);
    SuccessWritesKey(a, es[i], user, key);
    SuccessWritesKey(c, es[j], user, key);
    BeforeLater(s, es, i + 1, j);
    KeyOutlives(b, es[i + 1..j], n, a.now + IDEM_TTL);
  }
}
