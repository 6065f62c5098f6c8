/**
 What a success of ClosePoll or DeletePoll is worth when other clients interleave with the call
 (internal/store/redis/store.go:68-141). The expiry is read when the call decides and the key when it checks, both
 before the write and neither together with it. `Done` stands for the end of a call's own commands; the read that
 follows a close may still find that the poll is gone.
 */
module Acknowledged {
  import opened Common
  import opened Ledger
  import opened Protocol
  import opened Invariants
  import Keys
  import Safety

  /** Still before the write. */
  predicate Early(pc: Pc, op: Op, id: PollId, user: UserId, key: string) {
    || pc == ReadMeta(op, id, user, key)
    || (pc.Decide? && pc == Decide(op, id, user, key, pc.seen))
    || pc == CheckKey(op, id, user, key)
    || pc == Write(op, id, user, key)
  }

  /** Past the write and not done. */
  predicate Late(pc: Pc, op: Op, id: PollId, user: UserId, key: string) {
    || pc == SetKey(user, key)
    || (op.Delete? && pc in {RemIndex(id, user, key), RemPublic(id, user, key), RemCreated(id, user, key)})
  }

  /** What the call is for: the poll takes no more ballots, or is gone. */
  ghost predicate Achieved(s: State, op: Op, id: PollId) {
    if op.Close? then Safety.Frozen(s, id) else id in s.born && !Live(s.db, id)
  }

  /** A client runs one call from position i on and is not done before position n. */
  ghost predicate CallRuns(s: State, es: seq<Event>, c: nat, i: nat, n: nat, op: Op, id: PollId, user: UserId,
                           key: string)
  {
    && ValidRun(s, es) && i < n <= |es| && es[i] == Start(c, op, id, user, key)
    && forall k :: i < k < n ==> Busy(Before(s, es, k), c)
  }

  predicate Busy(s: State, c: nat) {
    c in s.clients && !s.clients[c].Done?
  }

  /** Between its start and position k the call has taken its write. */
  predicate Wrote(s: State, es: seq<Event>, c: nat, i: nat, k: nat)
    requires ValidRun(s, es) && k <= |es|
    decreases k
  {
    i + 1 < k && (Wrote(s, es, c, i, k - 1) || WritesAt(Before(s, es, k - 1), es[k - 1], c))
  }

  predicate WritesAt(s: State, e: Event, c: nat) {
    e == Advance(c) && c in s.clients && s.clients[c].Write?
  }

  // ---------- One step ----------

  /** What has been achieved stays so, whatever anybody does. */
  lemma AchievedStays(s: State, e: Event, op: Op, id: PollId)
    requires Allowed(s, e) && Achieved(s, op, id)
    ensures Achieved(Step(s, e), op, id)
  {
    if op.Close? {
      Safety.FrozenStays(s, e, id);
    } else {
      Safety.DeadStep(s, e, id);
    }
  }

  lemma {:induction false} AchievedForGood(s: State, es: seq<Event>, op: Op, id: PollId)
    requires ValidRun(s, es) && Achieved(s, op, id)
    ensures Achieved(Run(s, es), op, id)
    decreases |es|
  {
    if es != [] {
      AchievedStays(s, es[0], op, id);
      AchievedForGood(Step(s, es[0]), es[1..], op, id);
    }
  }

  /** The write achieves what the call is for. */
  lemma WriteAchieves(s: State, c: nat, op: Op, id: PollId, user: UserId, key: string)
    requires Busy(s, c) && s.clients[c] == Write(op, id, user, key) && id in s.born
    ensures var t := AdvanceStep(s, c);
            && Achieved(t, op, id)
            && (t.clients[c] == Done(OK) || Late(t.clients[c], op, id, user, key))
  {
  }

  /** Before the write a step only reads: it goes on, or ends the call and changes nothing. */
  lemma EarlyStep(s: State, c: nat, op: Op, id: PollId, user: UserId, key: string)
    requires Busy(s, c) && Early(s.clients[c], op, id, user, key) && !s.clients[c].Write?
    ensures var t := AdvanceStep(s, c);
            t.db == s.db && t.born == s.born && t.now == s.now
            && (t.clients[c].Done? || Early(t.clients[c], op, id, user, key))
  {
  }

  lemma LateStep(s: State, c: nat, op: Op, id: PollId, user: UserId, key: string)
    requires Busy(s, c) && Late(s.clients[c], op, id, user, key)
    ensures var pc := AdvanceStep(s, c).clients[c];
            pc == Done(OK) || Late(pc, op, id, user, key)
  {
  }

  /** Nobody else moves a busy client. */
  lemma OthersLeaveIt(s: State, e: Event, c: nat)
    requires Allowed(s, e) && Busy(s, c) && e != Advance(c)
    ensures c in Step(s, e).clients && Step(s, e).clients[c] == s.clients[c]
  {
  }

  // ---------- The whole call ----------

  /** Where the call stands while it runs: before its write, or past it with its purpose achieved. */
  ghost predicate Stands(s: State, c: nat, wrote: bool, op: Op, id: PollId, user: UserId, key: string) {
    && c in s.clients
    && if wrote then
         Achieved(s, op, id) && (s.clients[c] == Done(OK) || Late(s.clients[c], op, id, user, key))
       else
         s.clients[c].Done? || Early(s.clients[c], op, id, user, key)
  }

  lemma StandsNext(s: State, e: Event, c: nat, wrote: bool, op: Op, id: PollId, user: UserId, key: string)
    requires Allowed(s, e) && Busy(s, c) && Stands(s, c, wrote, op, id, user, key)
    requires WriteKnown(s, c)
    ensures Stands(Step(s, e), c, wrote || WritesAt(s, e, c), op, id, user, key)
  {
    if wrote {
      AchievedStays(s, e, op, id);
    }
    if e != Advance(c) {
      OthersLeaveIt(s, e, c);
    } else if wrote {
      LateStep(s, c, op, id, user, key);
    } else if s.clients[c].Write? {
      WriteAchieves(s, c, op, id, user, key);
    } else {
      EarlyStep(s, c, op, id, user, key);
    }
  }

  /** Whenever a client is at its write, the poll was created. */
  ghost predicate WritesKnown(s: State, es: seq<Event>, c: nat)
    requires ValidRun(s, es)
  {
    forall k: nat :: k <= |es| ==> WriteKnown(Before(s, es, k), c)
  }

  predicate WriteKnown(s: State, c: nat) {
    c in s.clients && s.clients[c].Write? ==> s.clients[c].id in s.born
  }

  lemma InvKnowsWrites(s: State, es: seq<Event>, c: nat)
    requires Inv(s) && ValidRun(s, es)
    ensures WritesKnown(s, es, c)
  {
    forall k: nat | k <= |es|
      ensures WriteKnown(Before(s, es, k), c)
    {
      ValidPrefix(s, es, k);
      RunKeepsInv(s, es[..k]);
      ClientsKnowWrites(Before(s, es, k), c);
    }
  }

  lemma ClientsKnowWrites(s: State, c: nat)
    requires ClientsOk(s)
    ensures WriteKnown(s, c)
  {
    if c in s.clients {
      assert ClientOk(s, s.clients[c]);
    }
  }

  lemma {:induction false} CallStands(s: State, es: seq<Event>, c: nat, i: nat, n: nat, op: Op, id: PollId,
                                      user: UserId, key: string, k: nat)
    requires CallRuns(s, es, c, i, n, op, id, user, key) && WritesKnown(s, es, c) && i < k <= n
    ensures Stands(Before(s, es, k), c, Wrote(s, es, c, i, k), op, id, user, key)
    decreases k
  {
    BeforeStep(s, es, k - 1);
    var t := Before(s, es, k - 1);
    if i + 1 < k {
      CallStands(s, es, c, i, n, op, id, user, key, k - 1);
      assert WriteKnown(t, c);
      StandsNext(t, es[k - 1], c, Wrote(s, es, c, i, k - 1), op, id, user, key);
    }
  }

  /** The reads that let a call be acknowledged without its write. */
  predicate SkipsWrite(s: State, pc: Pc) {
    || (pc.Decide? && pc.op.Close? && pc.seen.Creator() == pc.user && pc.seen.ReadsClosed(s.now))
    || (pc.CheckKey? && IdemLive(s.db, Keys.IdemKey(pc.user, pc.key), s.now))
  }

  /** A call that ends well without having written ends in one of these reads. */
  lemma LastStep(s: State, c: nat, op: Op, id: PollId, user: UserId, key: string)
    requires Busy(s, c) && AdvanceStep(s, c).clients[c] == Done(OK)
    requires Early(s.clients[c], op, id, user, key) && !s.clients[c].Write?
    ensures SkipsWrite(s, s.clients[c])
  {
  }

  /** What the last step of an acknowledged call was. */
  lemma LastMove(s: State, es: seq<Event>, c: nat, i: nat, n: nat, op: Op, id: PollId, user: UserId, key: string)
    requires CallRuns(s, es, c, i, n, op, id, user, key) && WritesKnown(s, es, c) && i + 1 < n
    requires es[n - 1] == Advance(c) && c in Before(s, es, n).clients && Before(s, es, n).clients[c] == Done(OK)
    ensures var u, t := Before(s, es, n - 1), Before(s, es, n);
            && (Achieved(t, op, id) <==> Wrote(s, es, c, i, n) || Achieved(u, op, id))
            && c in u.clients && (!Wrote(s, es, c, i, n) <==> SkipsWrite(u, u.clients[c]))
  {
    var u, t := Before(s, es, n - 1), Before(s, es, n);
    BeforeStep(s, es, n - 1);
    CallStands(s, es, c, i, n, op, id, user, key, n - 1);
    CallStands(s, es, c, i, n, op, id, user, key, n);
    if !Wrote(s, es, c, i, n) {
      EarlyStep(u, c, op, id, user, key);
      LastStep(u, c, op, id, user, key);
    }
    AchievedSame(u, t, op, id, Wrote(s, es, c, i, n));
  }

  /**
   A close or delete acknowledged at position n, whatever ran in between: its purpose is achieved then and after
   every later run exactly when the call went through its write or the purpose was achieved at its last step already;
   and it did not write exactly when that step took the poll for closed or the key for used.
   */
  lemma AcknowledgedIff(s: State, es: seq<Event>, c: nat, i: nat, n: nat, op: Op, id: PollId, user: UserId,
                        key: string)
    requires Inv(s) && CallRuns(s, es, c, i, n, op, id, user, key) && i + 1 < n
    requires es[n - 1] == Advance(c) && c in Before(s, es, n).clients && Before(s, es, n).clients[c] == Done(OK)
    ensures var u, t := Before(s, es, n - 1), Before(s, es, n);
            && ((forall fs :: ValidRun(t, fs) ==> Achieved(Run(t, fs), op, id)) <==>
                  Wrote(s, es, c, i, n) || Achieved(u, op, id))
            && c in u.clients && (!Wrote(s, es, c, i, n) <==> SkipsWrite(u, u.clients[c]))
  {
    InvKnowsWrites(s, es, c);
    LastMove(s, es, c, i, n, op, id, user, key);
    ForGoodIff(Before(s, es, n), op, id);
  }

  lemma ForGoodIff(s: State, op: Op, id: PollId)
    ensures (forall es :: ValidRun(s, es) ==> Achieved(Run(s, es), op, id)) <==> Achieved(s, op, id)
  {
    var none: seq<Event> := [];
    assert ValidRun(s, none) && Run(s, none) == s;
    assert (forall es :: ValidRun(s, es) ==> Achieved(Run(s, es), op, id)) ==> Achieved(Run(s, none), op, id);
    if Achieved(s, op, id) {
      forall es | ValidRun(s, es)
        ensures Achieved(Run(s, es), op, id)
      {
        AchievedForGood(s, es, op, id);
      }
    }
  }

  lemma AchievedSame(u: State, t: State, op: Op, id: PollId, wrote: bool)
    requires wrote ==> Achieved(t, op, id)
    requires !wrote ==> t.db == u.db && t.born == u.born && t.now == u.now
    ensures Achieved(t, op, id) <==> wrote || Achieved(u, op, id)
  {
  }

  /**
   One input: the creator's close or delete has found the poll open and its key unused is about to be checked, when
   the same user votes somewhere under that key. The call is acknowledged and the poll stays as it was.
   */
  lemma KeyTakenMeanwhile(s: State, c: nat, op: Op, id: PollId, other: PollId, user: UserId, option: string,
                          key: string)
    returns (es: seq<Event>)
    requires c !in s.clients && Keys.Askable(id) && Keys.Askable(other)
    requires Live(s.db, id) && id in s.born && s.db.meta[id].createdBy == user && !s.db.meta[id].ReadsClosed(s.now)
    requires key != "" && VoteScript(s.db, other, user, option, key, s.now).0 == OK
    ensures !Repeated(s.db, user, key, s.now)
    ensures ValidRun(s, es) && es != [] && es[0] == Start(c, op, id, user, key)
    ensures var t := Run(s, es);
            && c in t.clients && t.clients[c] == Done(OK) && t.now == s.now
            && Live(t.db, id) && !t.db.meta[id].ReadsClosed(t.now) && !Achieved(t, op, id)
  {
    var start, vote := Start(c, op, id, user, key), Vote(other, user, option, key);
    var s1 := Step(s, start);
    var s2 := Step(s1, Advance(c));
    var s3 := Step(s2, Advance(c));
    assert s3.clients[c] == CheckKey(op, id, user, key) && s3.db == s.db && s3.now == s.now;
    Safety.SuccessWritesKey(s3, vote, user, key);
    VoteTouches(s3.db, other, user, option, key, s.now);
    var s4 := Step(s3, vote);
    var s5 := Step(s4, Advance(c));
    es := [start] + ([Advance(c)] + ([Advance(c)] + ([vote] + ([Advance(c)] + []))));
    Five(s, start, Advance(c), Advance(c), vote, Advance(c));
    assert Run(s, es) == s5;
  }

  /** A run of five events, one after the other. */
  lemma Five(s: State, a: Event, b: Event, c: Event, d: Event, e: Event)
    requires Allowed(s, a)
    requires var s1 := Step(s, a);
             Allowed(s1, b) && var s2 := Step(s1, b);
             Allowed(s2, c) && var s3 := Step(s2, c);
             Allowed(s3, d) && Allowed(Step(s3, d), e)
    ensures var es := [a] + ([b] + ([c] + ([d] + ([e] + []))));
            ValidRun(s, es) && Run(s, es) == Step(Step(Step(Step(Step(s, a), b), c), d), e)
  {
    var s1 := Step(s, a);
    var s2 := Step(s1, b);
    var s3 := Step(s2, c);
    var s4 := Step(s3, d);
    Then(s4, e, []);
    Then(s3, d, [e] + []);
    Then(s2, c, [d] + ([e] + []));
    Then(s1, b, [c] + ([d] + ([e] + [])));
    Then(s, a, [b] + ([c] + ([d] + ([e] + []))));
  }
}
