/** ClosePoll and DeletePoll run without interruption: what one whole call returns and leaves behind. */
module Calls {
  import opened Common
  import opened Ledger
  import opened Protocol

  /** The index removals after the DEL. */
  function Unlist(db: Db, id: PollId, user: UserId): Db {
    db.(index := db.index - {id}, publicIndex := db.publicIndex - {id}, created := db.created - {(user, id)})
  }

  /** All the writes of a call that goes through. */
  function Applied(op: Op, db: Db, id: PollId, user: UserId, key: string, now: int): Db {
    SetIdem(if op.Close? then MarkClosed(db, id, user) else Unlist(DropPoll(db, id), id, user), user, key, now)
  }

  /** A whole call: what it returns and what it leaves. */
  function Call(op: Op, db: Db, id: PollId, user: UserId, key: string, now: int): (Code, Db) {
    if id !in db.meta then (NotFound, db)
    else if db.meta[id].Creator() != user then (Forbidden, db)
    else if op.Close? && db.meta[id].ReadsClosed(now) then (OK, db)
    else if Repeated(db, user, key, now) then (OK, db)
    else (OK, Applied(op, db, id, user, key, now))
  }

  /** Upper bound on the commands a client has left. */
  function Remaining(pc: Pc): nat {
    match pc
    case ReadMeta(_, _, _, _) => 8
    case Decide(_, _, _, _, _) => 7
    case CheckKey(_, _, _, _) => 6
    case Write(_, _, _, _) => 5
    case RemIndex(_, _, _) => 4
    case RemPublic(_, _, _) => 3
    case RemCreated(_, _, _) => 2
    case SetKey(_, _) => 1
    case Done(_) => 0
  }

  /** Every command brings its client nearer to the end of its call, so no call takes more than eight. */
  lemma CallsEnd(s: State, c: nat)
    requires c in s.clients && !s.clients[c].Done?
    ensures c in AdvanceStep(s, c).clients
    ensures Remaining(AdvanceStep(s, c).clients[c]) < Remaining(s.clients[c])
  {
  }

  /** One client running alone to the end of its call. */
  function Finish(s: State, c: nat): State
    requires c in s.clients
    decreases if c in s.clients then Remaining(s.clients[c]) else 0
  {
    if s.clients[c].Done? then s
    else
      CallsEnd(s, c);
      Finish(AdvanceStep(s, c), c)
  }

  lemma {:induction false} FinishIsRun(s: State, c: nat) returns (es: seq<Event>)
    requires c in s.clients
    ensures ValidRun(s, es) && Run(s, es) == Finish(s, c) && forall e :: e in es ==> e == Advance(c)
    decreases Remaining(s.clients[c])
  {
    if s.clients[c].Done? {
      es := [];
    } else {
      CallsEnd(s, c);
      var t := AdvanceStep(s, c);
      var fs := FinishIsRun(t, c);
      es := [Advance(c)] + fs;
      assert es[1..] == fs;
    }
  }

  function Ended(s: State, c: nat, db: Db, code: Code): State {
    s.(db := db, clients := s.clients[c := Done(code)])
  }

  lemma FinishKey(s: State, c: nat, user: UserId, key: string)
    requires c in s.clients && s.clients[c] == AfterWrites(user, key)
    ensures Finish(s, c) == Ended(s, c, SetIdem(s.db, user, key, s.now), OK)
  {
    if key == "" {
      assert s.clients[c := Done(OK)] == s.clients;
    }
  }

  lemma FinishLastRemoval(s: State, c: nat, id: PollId, user: UserId, key: string)
    requires c in s.clients && s.clients[c] == RemCreated(id, user, key)
    ensures Finish(s, c)
         == Ended(s, c, SetIdem(s.db.(created := s.db.created - {(user, id)}), user, key, s.now), OK)
  {
    FinishKey(AdvanceStep(s, c), c, user, key);
  }

  lemma FinishRemovals(s: State, c: nat, id: PollId, user: UserId, key: string)
    requires c in s.clients && s.clients[c] == RemIndex(id, user, key)
    ensures Finish(s, c) == Ended(s, c, SetIdem(Unlist(s.db, id, user), user, key, s.now), OK)
  {
    var a := AdvanceStep(s, c);
    var b := AdvanceStep(a, c);
    FinishLastRemoval(b, c, id, user, key);
    assert Finish(s, c) == Finish(a, c) == Finish(b, c);
  }

  lemma FinishWrite(s: State, c: nat, op: Op, id: PollId, user: UserId, key: string)
    requires c in s.clients && s.clients[c] == Write(op, id, user, key)
    ensures Finish(s, c) == Ended(s, c, Applied(op, s.db, id, user, key, s.now), OK)
  {
    var t := AdvanceStep(s, c);
    if op.Close? {
      FinishKey(t, c, user, key);
    } else {
      FinishRemovals(t, c, id, user, key);
    }
  }

  lemma FinishCheck(s: State, c: nat, op: Op, id: PollId, user: UserId, key: string)
    requires c in s.clients && key != "" && s.clients[c] == CheckKey(op, id, user, key)
    ensures Finish(s, c)
         == Ended(s, c, if Repeated(s.db, user, key, s.now) then s.db else Applied(op, s.db, id, user, key, s.now), OK)
  {
    var t := AdvanceStep(s, c);
    if t.clients[c].Write? {
      FinishWrite(t, c, op, id, user, key);
    }
  }

  /** What follows the decision is the rest of a whole call. */
  lemma FinishDecide(s: State, c: nat, op: Op, id: PollId, user: UserId, key: string)
    requires c in s.clients && id in s.db.meta
    requires s.clients[c] == Decide(op, id, user, key, s.db.meta[id])
    ensures var r := Call(op, s.db, id, user, key, s.now);
            Finish(s, c) == Ended(s, c, r.1, r.0)
  {
    var next := Chosen(op, id, user, key, s.db.meta[id], s.now);
    var t := At(s, c, next);
    assert AdvanceStep(s, c) == t;
    if next.Write? {
      FinishWrite(t, c, op, id, user, key);
    } else if next.CheckKey? {
      FinishCheck(t, c, op, id, user, key);
    } else {
      assert Finish(t, c) == t;
    }
    EndedOver(s, c, next);
  }

  /** A client's place is overwritten when its call ends. */
  lemma EndedOver(s: State, c: nat, pc: Pc)
    requires c in s.clients
    ensures forall db, code :: Ended(At(s, c, pc), c, db, code) == Ended(s, c, db, code)
  {
  }

  /** A close or delete that nobody interrupts does what `Call` says. */
  lemma CallAlone(s: State, c: nat, op: Op, id: PollId, user: UserId, key: string)
    requires Allowed(s, Start(c, op, id, user, key))
    ensures var r := Call(op, s.db, id, user, key, s.now);
            Finish(Step(s, Start(c, op, id, user, key)), c) == Ended(s, c, r.1, r.0)
  {
    var t := Step(s, Start(c, op, id, user, key));
    var u := AdvanceStep(t, c);
    if id in s.db.meta {
      FinishDecide(u, c, op, id, user, key);
    }
  }
}
