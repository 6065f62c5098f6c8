/**
 Any number of clients interleaving store calls on one Redis server, one command, script or transaction per
 step. Vote, UndoVote and CreatePoll reach Redis in one step; ClosePoll and DeletePoll
 (internal/store/redis/store.go:68-141) take several, and anything may happen in between.
 A client that crashes is one that never steps again.
 */
module Protocol {
  import opened Common
  import opened Ledger
  import Keys

  datatype Op = Close | Delete

  /** Where a client stands inside ClosePoll or DeletePoll; `Done` holds what the call returned. */
  datatype Pc =
    | ReadMeta(op: Op, id: PollId, user: UserId, key: string)
    | Decide(op: Op, id: PollId, user: UserId, key: string, seen: Meta)
    | CheckKey(op: Op, id: PollId, user: UserId, key: string)
    | Write(op: Op, id: PollId, user: UserId, key: string)
    | RemIndex(id: PollId, user: UserId, key: string)
    | RemPublic(id: PollId, user: UserId, key: string)
    | RemCreated(id: PollId, user: UserId, key: string)
    | SetKey(user: UserId, key: string)
    | Done(result: Code)

  /** How a poll came to be; kept for every id ever created, deleted or not. */
  datatype Birth = Birth(poll: Poll, salt: nat)

  datatype State = State(db: Db, clients: map<nat, Pc>, now: int, born: map<PollId, Birth>)

  datatype Event =
    | Tick(elapsed: nat)
    | Create(poll: Poll, salt: nat)
    | Vote(id: PollId, user: UserId, option: string, key: string)
    | Undo(id: PollId, user: UserId, key: string)
    | Start(client: nat, op: Op, id: PollId, user: UserId, key: string)
    | Advance(client: nat)

  function Init(now: int): State {
    State(EMPTY_DB, map[], now, map[])
  }

  /**
   Created poll ids are never reused and hold no colon; requests may name any poll id that does not extend another
   poll's; and a client runs one call at a time.
   */
  predicate Allowed(s: State, e: Event) {
    match e
    case Tick(_) => true
    case Create(p, _) => p.id !in s.born && Keys.ColonFree(p.id)
    case Vote(id, _, _, _) => Keys.Askable(id)
    case Undo(id, _, _) => Keys.Askable(id)
    case Start(c, _, id, _, _) => Keys.Askable(id) && (c !in s.clients || s.clients[c].Done?)
    case Advance(c) => c in s.clients && !s.clients[c].Done?
  }

  function At(s: State, c: nat, pc: Pc): State {
    s.(clients := s.clients[c := pc])
  }

  function AfterWrites(user: UserId, key: string): Pc {
    if key != "" then SetKey(user, key) else Done(OK)
  }

  /** The choice made once getPoll has returned: ownership, then (for a close) already closed, then the key. */
  function Chosen(op: Op, id: PollId, user: UserId, key: string, seen: Meta, now: int): Pc {
    if seen.Creator() != user then Done(Forbidden)
    else if op.Close? && seen.ReadsClosed(now) then Done(OK)
    else if key != "" then CheckKey(op, id, user, key)
    else Write(op, id, user, key)
  }

  /** The next command of a client inside ClosePoll or DeletePoll. */
  function AdvanceStep(s: State, c: nat): State
    requires c in s.clients && !s.clients[c].Done?
  {
    match s.clients[c]
    case ReadMeta(op, id, user, key) =>
      At(s, c, if id in s.db.meta then Decide(op, id, user, key, s.db.meta[id]) else Done(NotFound))
    case Decide(op, id, user, key, seen) =>
      At(s, c, Chosen(op, id, user, key, seen, s.now))
    case CheckKey(op, id, user, key) =>
      At(s, c, if IdemLive(s.db, Keys.IdemKey(user, key), s.now) then Done(OK) else Write(op, id, user, key))
    case Write(op, id, user, key) =>
      if op.Close? then At(s, c, AfterWrites(user, key)).(db := MarkClosed(s.db, id, user))
      else At(s, c, RemIndex(id, user, key)).(db := DropPoll(s.db, id))
    case RemIndex(id, user, key) =>
      At(s, c, RemPublic(id, user, key)).(db := s.db.(index := s.db.index - {id}))
    case RemPublic(id, user, key) =>
      At(s, c, RemCreated(id, user, key)).(db := s.db.(publicIndex := s.db.publicIndex - {id}))
    case RemCreated(id, user, key) =>
      At(s, c, AfterWrites(user, key)).(db := s.db.(created := s.db.created - {(user, id)}))
    case SetKey(user, key) =>
      At(s, c, Done(OK)).(db := SetIdem(s.db, user, key, s.now))
  }

  function Step(s: State, e: Event): State
    requires Allowed(s, e)
  {
    match e
    case Tick(d) => s.(now := s.now + d)
    case Create(p, salt) => s.(db := CreateTx(s.db, p, salt), born := s.born[p.id := Birth(p, salt)])
    case Vote(id, user, option, key) => s.(db := VoteScript(s.db, id, user, option, key, s.now).1)
    case Undo(id, user, key) => s.(db := UndoScript(s.db, id, user, key, s.now).1)
    case Start(c, op, id, user, key) => At(s, c, ReadMeta(op, id, user, key))
    case Advance(c) => AdvanceStep(s, c)
  }

  /** A sequence of events each of which is allowed when its turn comes. */
  predicate ValidRun(s: State, es: seq<Event>)
    decreases |es|
  {
    es == [] || (Allowed(s, es[0]) && ValidRun(Step(s, es[0]), es[1..]))
  }

  function Run(s: State, es: seq<Event>): State
    requires ValidRun(s, es)
    decreases |es|
  {
    if es == [] then s else Run(Step(s, es[0]), es[1..])
  }

  /** What a script event returns; other events return `OK`. */
  function Result(s: State, e: Event): Code {
    match e
    case Vote(id, user, option, key) => VoteScript(s.db, id, user, option, key, s.now).0
    case Undo(id, user, key) => UndoScript(s.db, id, user, key, s.now).0
    case _ => OK
  }

  lemma Then(s: State, e: Event, es: seq<Event>)
    requires Allowed(s, e) && ValidRun(Step(s, e), es)
    ensures ValidRun(s, [e] + es) && Run(s, [e] + es) == Run(Step(s, e), es)
  {
    assert ([e] + es)[0] == e && ([e] + es)[1..] == es;
  }

  lemma {:induction false} RunConcat(s: State, es: seq<Event>, fs: seq<Event>)
    requires ValidRun(s, es)
    ensures ValidRun(s, es + fs) <==> ValidRun(Run(s, es), fs)
    ensures ValidRun(s, es + fs) ==> Run(s, es + fs) == Run(Run(s, es), fs)
    decreases |es|
  {
    if es == [] {
      assert es + fs == fs;
    } else {
      assert (es + fs)[0] == es[0] && (es + fs)[1..] == es[1..] + fs;
      RunConcat(Step(s, es[0]), es[1..], fs);
    }
  }

  lemma {:induction false} ValidPrefix(s: State, es: seq<Event>, i: nat)
    requires ValidRun(s, es) && i <= |es|
    ensures ValidRun(s, es[..i]) && ValidRun(Run(s, es[..i]), es[i..])
    ensures Run(s, es) == Run(Run(s, es[..i]), es[i..])
    decreases i
  {
    if i == 0 {
      assert es[..0] == [] && es[0..] == es;
    } else {
      var t := Step(s, es[0]);
      ValidPrefix(t, es[1..], i - 1);
      assert es[..i][1..] == es[1..][..i - 1] && es[i..] == es[1..][i - 1..];
    }
  }

  /** The state reached after the first i events. */
  function Before(s: State, es: seq<Event>, i: nat): State
    requires ValidRun(s, es) && i <= |es|
  {
    ValidPrefix(s, es, i);
    Run(s, es[..i])
  }

  lemma BeforeStart(s: State, es: seq<Event>)
    requires ValidRun(s, es)
    ensures Before(s, es, 0) == s
  {
    assert es[..0] == [];
  }

  lemma BeforeEnd(s: State, es: seq<Event>)
    requires ValidRun(s, es)
    ensures Before(s, es, |es|) == Run(s, es)
  {
    assert es[..|es|] == es;
  }

  lemma BeforeStep(s: State, es: seq<Event>, i: nat)
    requires ValidRun(s, es) && i < |es|
    ensures Allowed(Before(s, es, i), es[i])
    ensures Before(s, es, i + 1) == Step(Before(s, es, i), es[i])
  {
    ValidPrefix(s, es, i);
    ValidPrefix(s, es, i + 1);
    var t := Run(s, es[..i]);
    assert es[i..][0] == es[i];
    assert es[..i + 1] == es[..i] + [es[i]];
    RunConcat(s, es[..i], [es[i]]);
    assert Run(t, [es[i]]) == Run(Step(t, es[i]), []);
  }

  lemma RunSplit(s: State, es: seq<Event>, p: seq<Event>, q: seq<Event>)
    requires ValidRun(s, es) && es == p + q
    ensures ValidRun(s, p) && ValidRun(Run(s, p), q) && Run(s, es) == Run(Run(s, p), q)
  {
    ValidPrefix(s, es, |p|);
    assert es[..|p|] == p && es[|p|..] == q;
    RunConcat(s, p, q);
  }

  /** Between two positions of a run lies a run. */
  lemma BeforeLater(s: State, es: seq<Event>, i: nat, j: nat)
    requires ValidRun(s, es) && i <= j <= |es|
    ensures ValidRun(Before(s, es, i), es[i..j]) && Run(Before(s, es, i), es[i..j]) == Before(s, es, j)
  {
    ValidPrefix(s, es, j);
    assert es[..j] == es[..i] + es[i..j];
    RunSplit(s, es[..j], es[..i], es[i..j]);
  }
}
