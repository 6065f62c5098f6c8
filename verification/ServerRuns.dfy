/**
 Whole runs on the text keyspace: any number of clients interleaving on the server, one command, script or
 transaction a step, keep it holding exactly the data of the typed protocol. So everything module Safety says of
 reachable states is said of what lies in Redis.
 */
module ServerRuns {
  import opened Common
  import opened Ledger
  import opened Encoding
  import opened Protocol
  import opened RedisServer
  import Decimal
  import Invariants
  import Keys
  import Safety

  /** The metadata a client has read, as far as it uses it: no id field means a stub. */
  function MetaOf(h: map<string, string>): Meta {
    if "id" in h then
      Full(FieldOr(h, "question"), FieldOr(h, "created_by"), FieldOr(h, "updated_by"),
           Decimal.ParseOrZero(FieldOr(h, "created_at")), Decimal.ParseOrZero(FieldOr(h, "expires_at")),
           FieldOr(h, "is_closed") == "true", FieldOr(h, "is_public") == "true")
    else
      Stub(FieldOr(h, "updated_by"))
  }

  lemma MetaOfHash(id: PollId, m: Meta)
    ensures MetaOf(MetaHash(id, m)) == m && MetaHash(id, m) != map[]
  {
    if m.Full? {
      FullFields(id, m);
      assert "id" in MetaHash(id, m);
    } else {
      StubFields(id, m);
      assert "id" !in MetaHash(id, m);
    }
  }

  /** A server and the places its clients stand at, matching a state of the protocol. */
  ghost predicate Matches(server: Redis, clients: map<nat, Pc>, s: State)
    reads server
  {
    Holds(server.keys, s.db) && server.now == s.now && clients == s.clients
  }

  lemma StateIsPlain(s: State)
    requires Invariants.Inv(s)
    ensures PlainPolls(s.db)
    ensures forall id :: id in s.born ==> Keys.ColonFree(id)
  {
  }

  lemma FreshPoll(s: State, p: Poll, salt: nat)
    requires Invariants.Inv(s) && Allowed(s, Create(p, salt))
    ensures p.id !in s.db.meta && p.id !in s.db.options && forall o :: (p.id, o) !in s.db.tally
  {
    forall o
      ensures (p.id, o) !in s.db.tally
    {
      NotLiveNoCount(s.db, p.id, o);
    }
  }

  lemma NotLiveNoCount(db: Db, id: PollId, option: string)
    requires OptionsMatch(db)
    ensures (id, option) in db.tally ==> Live(db, id)
  {
    if (id, option) in db.tally {
      assert Live(db, (id, option).0);
    }
  }

  /** The first command of a close or delete: HGETALL of the metadata. */
  method ReadMetadata(server: Redis, id: PollId, ghost db: Db) returns (m: Option<Meta>)
    requires Keys.Askable(id) && Holds(server.keys, db)
    ensures m == if id in db.meta then Some(db.meta[id]) else None
  {
    MetaLayout(server.keys, db, id);
    var h := server.HGetAll(Keys.Name(Keys.PollMeta(id)));
    if id in db.meta {
      MetaOfHash(id, db.meta[id]);
    }
    m := if h == map[] then None else Some(MetaOf(h));
  }

  /** The next command of a client inside a close or delete. */
  method AdvanceClient(server: Redis, pc: Pc, ghost s: State, ghost c: nat) returns (next: Pc)
    requires Invariants.Inv(s) && Allowed(s, Advance(c)) && s.clients[c] == pc && AskedPlainly(pc)
    requires Holds(server.keys, s.db) && server.now == s.now
    modifies server`keys
    ensures Holds(server.keys, AdvanceStep(s, c).db) && next == AdvanceStep(s, c).clients[c]
  {
    StateIsPlain(s);
    assert Invariants.ClientOk(s, pc);
    match pc {
      case ReadMeta(op, id, user, key) =>
        var m := ReadMetadata(server, id, s.db);
        next := if m.Some? then Decide(op, id, user, key, m.value) else Done(NotFound);
      case Decide(op, id, user, key, seen) =>
        next := Chosen(op, id, user, key, seen, server.now);
      case CheckKey(op, id, user, key) =>
        var ok := KeyIsFree(server, user, key, s.db);
        next := if ok then Write(op, id, user, key) else Done(OK);
      case Write(op, id, user, key) =>
        if op.Close? {
          server.MarkClosedOnServer(id, user, s.db);
          next := AfterWrites(user, key);
        } else {
          server.DropPollOnServer(id, s.db);
          next := RemIndex(id, user, key);
        }
      case RemIndex(id, user, key) =>
        server.RemoveFromIndex(id, s.db);
        next := RemPublic(id, user, key);
      case RemPublic(id, user, key) =>
        server.RemoveFromPublic(id, s.db);
        next := RemCreated(id, user, key);
      case RemCreated(id, user, key) =>
        server.RemoveFromCreated(id, user, s.db);
        next := AfterWrites(user, key);
      case SetKey(user, key) =>
        server.SetIdemKey(user, key, s.db);
        next := Done(OK);
    }
  }

  /** GET of an idempotency key. */
  method KeyIsFree(server: Redis, user: UserId, key: string, ghost db: Db) returns (ok: bool)
    requires Holds(server.keys, db)
    ensures ok <==> !IdemLive(db, Keys.IdemKey(user, key), server.now)
  {
    IdemLayout(server.keys, db, user, key);
    var v := server.GetText(Keys.IdemKey(user, key));
    ok := v.None?;
  }

  /** A call that has not yet read its poll was asked for an id that extends no other. */
  predicate AskedPlainly(pc: Pc) {
    pc.ReadMeta? ==> Keys.Askable(pc.id)
  }

  ghost predicate AllAskedPlainly(s: State) {
    forall c :: c in s.clients ==> AskedPlainly(s.clients[c])
  }

  /** A call reads its poll once, at its first command. */
  lemma ReadsOnce(s: State, c: nat)
    requires Allowed(s, Advance(c))
    ensures var t := AdvanceStep(s, c);
            && t.clients.Keys == s.clients.Keys && !t.clients[c].ReadMeta?
            && forall d :: d in s.clients && d != c ==> t.clients[d] == s.clients[d]
  {
  }

  lemma StepKeepsAsked(s: State, e: Event)
    requires AllAskedPlainly(s) && Allowed(s, e)
    ensures AllAskedPlainly(Step(s, e))
  {
    match e
    case Start(c, op, id, user, key) => assert Step(s, e).clients == s.clients[c := ReadMeta(op, id, user, key)];
    case Advance(c) => ReadsOnce(s, c);
    case _ => assert Step(s, e).clients == s.clients;
  }

  /** One step of the protocol, carried out on the server. */
  method Perform(server: Redis, e: Event, clients: map<nat, Pc>, ghost s: State)
    returns (moved: map<nat, Pc>, code: Code)
    requires Invariants.Inv(s) && AllAskedPlainly(s) && Allowed(s, e) && Matches(server, clients, s)
    modifies server
    ensures Matches(server, moved, Step(s, e)) && code == Result(s, e)
  {
    StateIsPlain(s);
    moved, code := clients, OK;
    match e {
      case Tick(elapsed) =>
        server.now := server.now + elapsed;
      case Create(p, salt) =>
        FreshPoll(s, p, salt);
        var created := server.CreatePoll(p, salt, s.db);
      case Vote(id, user, option, key) =>
        code := server.RunVoteScript(id, user, option, key, s.db);
      case Undo(id, user, key) =>
        code := server.RunUndoScript(id, user, key, s.db);
      case Start(c, op, id, user, key) =>
        moved := clients[c := ReadMeta(op, id, user, key)];
      case Advance(c) =>
        var next := AdvanceClient(server, clients[c], s, c);
        moved := clients[c := next];
    }
  }

  /** Any interleaving, from a server that matches a state within the invariant. */
  method PerformAll(server: Redis, es: seq<Event>, clients: map<nat, Pc>, ghost s: State)
    returns (moved: map<nat, Pc>)
    requires Invariants.Inv(s) && AllAskedPlainly(s) && ValidRun(s, es) && Matches(server, clients, s)
    modifies server
    ensures Matches(server, moved, Run(s, es))
  {
    moved := clients;
    var i := 0;
    ghost var t := s;
    assert es[0..] == es;
    while i < |es|
      invariant 0 <= i <= |es|
      invariant Invariants.Inv(t) && AllAskedPlainly(t) && Matches(server, moved, t)
      invariant ValidRun(t, es[i..]) && Run(t, es[i..]) == Run(s, es)
    {
      assert es[i..][0] == es[i] && es[i..][1..] == es[i + 1..];
      var code;
      moved, code := Perform(server, es[i], moved, t);
      Invariants.StepKeepsInv(t, es[i]);
      StepKeepsAsked(t, es[i]);
      t := Step(t, es[i]);
      i := i + 1;
    }
  }

  /** From an empty server on, every interleaving leaves in Redis what the protocol's run says. */
  method RunFromEmpty(now: int, es: seq<Event>) returns (server: Redis)
    requires ValidRun(Init(now), es)
    ensures fresh(server) && Holds(server.keys, Run(Init(now), es).db) && server.now == Run(Init(now), es).now
  {
    server := new Redis(now);
    Invariants.InitInv(now);
    var clients := PerformAll(server, es, map[], Init(now));
  }

  /** So the text of every count field that lies in Redis is the number of voters whose history records the option. */
  lemma StoredCountsAreExact(keys: Keyspace, now: int, es: seq<Event>, id: PollId, option: string)
    requires ValidRun(Init(now), es) && Holds(keys, Run(Init(now), es).db) && Keys.Askable(id)
    ensures var n := Keys.Name(Keys.PollVotes(id));
            && IsHash(keys, n)
            && (option in HashAt(keys, n) ==>
                  HashAt(keys, n)[option] == Decimal.Print(|Supporters(Run(Init(now), es).db, id, option)|))
  {
    var db := Run(Init(now), es).db;
    VotesLayout(keys, db, id);
    TallyField(db.tally, id, option);
    Safety.TalliesExact(now, es, id, option);
  }
}
