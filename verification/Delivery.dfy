/**
 At-least-once delivery counts once: a vote request carrying an idempotency key, delivered any number of times in
 any interleaving, is counted exactly once while redeliveries stay within the key's lifetime.
 */
module Delivery {
  import opened Common
  import opened Ledger
  import opened Protocol
  import opened Invariants
  import Keys
  import Safety

  datatype Request = Request(user: UserId, option: string, key: string)

  function Name(r: Request): string {
    Keys.IdemKey(r.user, r.key)
  }

  function Deliver(id: PollId, r: Request): Event {
    Vote(id, r.user, r.option, r.key)
  }

  predicate Carries(user: UserId, key: string, name: string) {
    key != "" && Keys.IdemKey(user, key) == name
  }

  /** An event that is not about this user's ballot on this poll and does not use the request's key. */
  predicate Apart(e: Event, id: PollId, r: Request) {
    match e
    case Vote(i, u, _, k) => (i != id || u != r.user) && !Carries(u, k, Name(r))
    case Undo(i, u, k) => (i != id || u != r.user) && !Carries(u, k, Name(r))
    case Start(_, _, _, u, k) => !Carries(u, k, Name(r))
    case _ => true
  }

  ghost predicate ClientsApart(s: State, name: string) {
    forall c :: c in s.clients && !s.clients[c].Done? ==> !Carries(s.clients[c].user, s.clients[c].key, name)
  }

  /** Not delivered yet: the user has no ballot on the poll and the key is free. */
  ghost predicate Unseen(s: State, id: PollId, r: Request) {
    && (id, r.user) !in s.db.voters && (id, r.user) !in s.db.history
    && !IdemLive(s.db, Name(r), s.now)
    && ClientsApart(s, Name(r))
  }

  /** Delivered first at the given time. */
  ghost predicate Counted(s: State, id: PollId, r: Request, first: int) {
    && id in s.born
    && (Live(s.db, id) ==> (id, r.user) in s.db.voters)
    && (id, r.user) in s.db.history && s.db.history[(id, r.user)] == r.option
    && Name(r) in s.db.idem && s.db.idem[Name(r)] == first + IDEM_TTL
    && ClientsApart(s, Name(r))
  }

  /** The poll takes this request's vote. */
  ghost predicate Open(s: State, id: PollId, r: Request) {
    Live(s.db, id) && !s.db.meta[id].Shut(s.now) && (id, r.option) in s.db.tally
  }

  /** Where the request is first delivered; the length of the run if it never is. */
  function First(es: seq<Event>, e: Event): (n: nat)
    ensures n <= |es|
    ensures forall i :: 0 <= i < n ==> es[i] != e
    ensures n < |es| ==> es[n] == e
    decreases |es|
  {
    if es == [] || es[0] == e then 0 else 1 + First(es[1..], e)
  }

  /**
   The schedules considered: whenever the request is delivered the poll is open, redeliveries come within 300
   seconds of the first, and nobody else uses its key or its user's ballot.
   */
  ghost predicate OnSchedule(s: State, es: seq<Event>, id: PollId, r: Request) {
    && ValidRun(s, es)
    && forall i :: 0 <= i < |es| ==> Timely(s, es, i, id, r)
  }

  ghost predicate Timely(s: State, es: seq<Event>, i: nat, id: PollId, r: Request)
    requires ValidRun(s, es) && i < |es|
  {
    if es[i] == Deliver(id, r) then
      var f := First(es, Deliver(id, r));
      && Open(Before(s, es, i), id, r)
      && (f <= i ==> Before(s, es, i).now <= Before(s, es, f).now + IDEM_TTL)
    else
      Apart(es[i], id, r)
  }

  // ---------- One step ----------

  lemma CastApart(db: Db, i: PollId, u: UserId, o: string, k: string, now: int, id: PollId, r: Request)
    requires (i != id || u != r.user) && !Carries(u, k, Name(r))
    ensures var d := VoteScript(db, i, u, o, k, now).1;
            && ((id, r.user) in d.voters <==> (id, r.user) in db.voters)
            && ((id, r.user) in d.history <==> (id, r.user) in db.history)
            && ((id, r.user) in db.history ==> d.history[(id, r.user)] == db.history[(id, r.user)])
            && (Name(r) in d.idem <==> Name(r) in db.idem)
            && (Name(r) in db.idem ==> d.idem[Name(r)] == db.idem[Name(r)])
            && d.meta == db.meta
  {
  }

  lemma RetractApart(db: Db, i: PollId, u: UserId, k: string, now: int, id: PollId, r: Request)
    requires (i != id || u != r.user) && !Carries(u, k, Name(r))
    ensures var d := UndoScript(db, i, u, k, now).1;
            && ((id, r.user) in d.voters <==> (id, r.user) in db.voters)
            && ((id, r.user) in d.history <==> (id, r.user) in db.history)
            && ((id, r.user) in db.history ==> d.history[(id, r.user)] == db.history[(id, r.user)])
            && (Name(r) in d.idem <==> Name(r) in db.idem)
            && (Name(r) in db.idem ==> d.idem[Name(r)] == db.idem[Name(r)])
            && d.meta == db.meta
  {
  }

  /** What an event apart from the request does to the request's own entries. */
  lemma ApartStep(s: State, e: Event, id: PollId, r: Request)
    requires Allowed(s, e) && Apart(e, id, r) && ClientsApart(s, Name(r))
    ensures var t := Step(s, e);
            && t.now >= s.now && s.born.Keys <= t.born.Keys
            && ((id, r.user) in t.db.voters ==> (id, r.user) in s.db.voters)
            && ((id, r.user) in t.db.history <==> (id, r.user) in s.db.history)
            && ((id, r.user) in s.db.history ==> t.db.history[(id, r.user)] == s.db.history[(id, r.user)])
            && (Name(r) in t.db.idem <==> Name(r) in s.db.idem)
            && (Name(r) in s.db.idem ==> t.db.idem[Name(r)] == s.db.idem[Name(r)])
  {
    match e
    case Vote(i, u, o, k) => CastApart(s.db, i, u, o, k, s.now, id, r);
    case Undo(i, u, k) => RetractApart(s.db, i, u, k, s.now, id, r);
    case _ =>
  }

  lemma ClientsStayApart(s: State, e: Event, name: string)
    requires Allowed(s, e) && ClientsApart(s, name)
    requires e.Start? ==> !Carries(e.user, e.key, name)
    ensures ClientsApart(Step(s, e), name)
  {
  }

  lemma VoterStaysAdvance(s: State, c: nat, id: PollId, user: UserId)
    requires c in s.clients && !s.clients[c].Done?
    requires (id, user) in s.db.voters && Live(AdvanceStep(s, c).db, id)
    ensures (id, user) in AdvanceStep(s, c).db.voters
  {
    var pc := s.clients[c];
    if pc.Write? && pc.op.Delete? {
      assert pc.id != id;
    } else {
      assert AdvanceStep(s, c).db.voters == s.db.voters;
    }
  }

  /** A voter of a poll that stays alive stays a voter. */
  lemma VoterStays(s: State, e: Event, id: PollId, r: Request)
    requires Allowed(s, e) && Apart(e, id, r) && id in s.born
    requires (id, r.user) in s.db.voters && Live(Step(s, e).db, id)
    ensures (id, r.user) in Step(s, e).db.voters
  {
    match e
    case Create(p, salt) => assert p.id != id;
    case Vote(i, u, o, k) => CastApart(s.db, i, u, o, k, s.now, id, r);
    case Undo(i, u, k) => RetractApart(s.db, i, u, k, s.now, id, r);
    case Advance(c) => VoterStaysAdvance(s, c, id, r.user);
    case _ =>
  }

  lemma CountedApart(s: State, e: Event, id: PollId, r: Request, first: int)
    requires Allowed(s, e) && Apart(e, id, r) && Counted(s, id, r, first)
    ensures Counted(Step(s, e), id, r, first)
  {
    ApartStep(s, e, id, r);
    ClientsStayApart(s, e, Name(r));
    if Live(Step(s, e).db, id) {
      if !Live(s.db, id) {
        Safety.DeadStep(s, e, id);
      }
      VoterStays(s, e, id, r);
    }
  }

  lemma FirstDelivery(s: State, id: PollId, r: Request)
    requires Allowed(s, Deliver(id, r)) && r.key != "" && Unseen(s, id, r) && Open(s, id, r) && id in s.born
    ensures Result(s, Deliver(id, r)) == OK
    ensures Counted(Step(s, Deliver(id, r)), id, r, s.now)
  {
    var t := Step(s, Deliver(id, r));
    assert t.db == SetIdem(CastVote(s.db, id, r.user, r.option), r.user, r.key, s.now);
    assert t.clients == s.clients;
  }

  lemma Redelivery(s: State, id: PollId, r: Request, first: int)
    requires Allowed(s, Deliver(id, r)) && r.key != "" && Counted(s, id, r, first) && s.now <= first + IDEM_TTL
    ensures Result(s, Deliver(id, r)) == Noop && Step(s, Deliver(id, r)) == s
  {
  }

  // ---------- Whole runs ----------

  /** Where a request stands in a state: unseen up to its first delivery at f, counted afterwards. */
  ghost predicate Placed(t: State, i: nat, f: nat, first: int, id: PollId, r: Request) {
    if i <= f then Unseen(t, id, r) else Counted(t, id, r, first)
  }

  /** When the request is first delivered. */
  function FirstTime(s: State, es: seq<Event>, id: PollId, r: Request): int
    requires ValidRun(s, es)
  {
    Before(s, es, First(es, Deliver(id, r))).now
  }

  /** Whenever the poll is alive it was created before. */
  ghost predicate BornWhenLive(s: State, es: seq<Event>, id: PollId)
    requires ValidRun(s, es)
  {
    forall i: nat :: i <= |es| && Live(Before(s, es, i).db, id) ==> id in Before(s, es, i).born
  }

  lemma LiveIsBorn(s: State, es: seq<Event>, id: PollId)
    requires Inv(s) && ValidRun(s, es)
    ensures BornWhenLive(s, es, id)
  {
    forall i: nat | i <= |es|
      ensures Live(Before(s, es, i).db, id) ==> id in Before(s, es, i).born
    {
      ValidPrefix(s, es, i);
      RunKeepsInv(s, es[..i]);
    }
  }

  /** The state of the request after i events. */
  lemma {:induction false} RequestAfter(s: State, es: seq<Event>, i: nat, id: PollId, r: Request)
    requires OnSchedule(s, es, id, r) && BornWhenLive(s, es, id) && r.key != "" && Unseen(s, id, r) && i <= |es|
    ensures Placed(Before(s, es, i), i, First(es, Deliver(id, r)), FirstTime(s, es, id, r), id, r)
    decreases i
  {
    if i == 0 {
      BeforeStart(s, es);
    } else {
      RequestAfter(s, es, i - 1, id, r);
      RequestStep(s, es, i - 1, id, r);
    }
  }

  lemma RequestStep(s: State, es: seq<Event>, i: nat, id: PollId, r: Request)
    requires ValidRun(s, es) && r.key != "" && i < |es| && Timely(s, es, i, id, r)
    requires Live(Before(s, es, i).db, id) ==> id in Before(s, es, i).born
    requires Placed(Before(s, es, i), i, First(es, Deliver(id, r)), FirstTime(s, es, id, r), id, r)
    ensures Placed(Before(s, es, i + 1), i + 1, First(es, Deliver(id, r)), FirstTime(s, es, id, r), id, r)
  {
    BeforeStep(s, es, i);
    var t, f := Before(s, es, i), First(es, Deliver(id, r));
    if es[i] == Deliver(id, r) {
      if i == f {
        FirstDelivery(t, id, r);
      } else {
        Redelivery(t, id, r, FirstTime(s, es, id, r));
      }
    } else if i <= f {
      ApartStep(t, es[i], id, r);
      ClientsStayApart(t, es[i], Name(r));
    } else {
      CountedApart(t, es[i], id, r, FirstTime(s, es, id, r));
    }
  }

  lemma DeliveryAnswered(s: State, es: seq<Event>, i: nat, id: PollId, r: Request)
    requires OnSchedule(s, es, id, r) && BornWhenLive(s, es, id) && r.key != "" && Unseen(s, id, r)
    requires i < |es| && es[i] == Deliver(id, r)
    ensures Result(Before(s, es, i), es[i]) == if i == First(es, Deliver(id, r)) then OK else Noop
  {
    RequestAfter(s, es, i, id, r);
    BeforeStep(s, es, i);
    assert Timely(s, es, i, id, r);
    if i == First(es, Deliver(id, r)) {
      FirstDelivery(Before(s, es, i), id, r);
    } else {
      Redelivery(Before(s, es, i), id, r, FirstTime(s, es, id, r));
    }
  }

  /**
   One request in any schedule: its first delivery succeeds, every other one is a no-op, and while the poll lives
   the user is a voter, with the requested option, exactly from the first delivery on.
   */
  lemma DeliveredOnce(s: State, es: seq<Event>, id: PollId, r: Request)
    requires Inv(s) && OnSchedule(s, es, id, r) && r.key != "" && Unseen(s, id, r)
    ensures forall i :: 0 <= i < |es| && es[i] == Deliver(id, r) ==>
              Result(Before(s, es, i), es[i]) == if i == First(es, Deliver(id, r)) then OK else Noop
    ensures var t := Run(s, es);
            Live(t.db, id) ==>
              && ((id, r.user) in t.db.voters <==> Deliver(id, r) in es)
              && (Deliver(id, r) in es ==>
                    (id, r.user) in t.db.history && t.db.history[(id, r.user)] == r.option)
  {
    LiveIsBorn(s, es, id);
    forall i | 0 <= i < |es| && es[i] == Deliver(id, r)
      ensures Result(Before(s, es, i), es[i]) == if i == First(es, Deliver(id, r)) then OK else Noop
    {
      DeliveryAnswered(s, es, i, id, r);
    }
    RequestAfter(s, es, |es|, id, r);
    BeforeEnd(s, es);
  }

  // ---------- The tally ----------

  /** Every ballot cast on the poll during the run is a delivery of one of the requests, and none is undone. */
  predicate OnlyRequests(es: seq<Event>, id: PollId, rs: set<Request>) {
    forall e :: e in es ==>
      && (e.Undo? ==> e.id != id)
      && (e.Vote? && e.id == id ==> Request(e.user, e.option, e.key) in rs)
  }

  /** Only a vote adds a voter, and only the one who votes. */
  lemma NewVoters(s: State, e: Event)
    requires Allowed(s, e)
    ensures Step(s, e).db.voters <= s.db.voters + if e.Vote? then {(e.id, e.user)} else {}
  {
    match e
    case Advance(c) => assert AdvanceStep(s, c).db.voters <= s.db.voters;
    case _ =>
  }

  /** Whoever ends up a voter was one before or voted during the run. */
  lemma {:induction false} VotersVoted(s: State, es: seq<Event>, id: PollId, user: UserId)
    requires ValidRun(s, es) && (id, user) in Run(s, es).db.voters
    ensures (id, user) in s.db.voters || exists e :: e in es && e.Vote? && e.id == id && e.user == user
    decreases |es|
  {
    if es != [] {
      VotersVoted(Step(s, es[0]), es[1..], id, user);
      NewVoters(s, es[0]);
    }
  }

  ghost function Ballots(id: PollId, rs: set<Request>): set<(PollId, UserId)> {
    set r | r in rs :: (id, r.user)
  }

  lemma {:induction false} AsManyBallots(id: PollId, rs: set<Request>)
    requires forall r, q :: r in rs && q in rs && r.user == q.user ==> r == q
    ensures |Ballots(id, rs)| == |rs|
    decreases |rs|
  {
    if rs == {} {
      assert Ballots(id, rs) == {};
    } else {
      var r :| r in rs;
      AsManyBallots(id, rs - {r});
      assert Ballots(id, rs) == Ballots(id, rs - {r}) + {(id, r.user)};
      assert (id, r.user) !in Ballots(id, rs - {r});
    }
  }

  /** The delivered requests for an option. */
  ghost function DeliveredFor(es: seq<Event>, id: PollId, rs: set<Request>, option: string): set<Request> {
    set r | r in rs && r.option == option && Deliver(id, r) in es
  }

  /** A supporter at the end is the user of a request delivered for that option. */
  lemma SupporterWasDelivered(s: State, es: seq<Event>, id: PollId, rs: set<Request>, option: string, user: UserId)
    returns (r: Request)
    requires Inv(s) && ValidRun(s, es) && Live(Run(s, es).db, id) && (id, user) !in s.db.voters
    requires forall r :: r in rs ==> r.key != "" && Unseen(s, id, r) && OnSchedule(s, es, id, r)
    requires OnlyRequests(es, id, rs)
    requires (id, user) in Supporters(Run(s, es).db, id, option)
    ensures r in DeliveredFor(es, id, rs, option) && r.user == user
  {
    VotersVoted(s, es, id, user);
    var e :| e in es && e.Vote? && e.id == id && e.user == user;
    r := Request(e.user, e.option, e.key);
    assert r in rs && Deliver(id, r) == e;
    DeliveredOnce(s, es, id, r);
  }

  lemma SupportersAreDelivered(s: State, es: seq<Event>, id: PollId, rs: set<Request>, option: string)
    requires Inv(s) && ValidRun(s, es) && Live(Run(s, es).db, id) && (forall u :: (id, u) !in s.db.voters)
    requires forall r :: r in rs ==> r.key != "" && Unseen(s, id, r) && OnSchedule(s, es, id, r)
    requires OnlyRequests(es, id, rs)
    ensures Supporters(Run(s, es).db, id, option) == Ballots(id, DeliveredFor(es, id, rs, option))
  {
    var t := Run(s, es);
    forall v | v in Supporters(t.db, id, option)
      ensures v in Ballots(id, DeliveredFor(es, id, rs, option))
    {
      var r := SupporterWasDelivered(s, es, id, rs, option, v.1);
      assert v == (id, r.user);
    }
    forall r | r in DeliveredFor(es, id, rs, option)
      ensures (id, r.user) in Supporters(t.db, id, option)
    {
      DeliveredOnce(s, es, id, r);
    }
  }

  /**
   Any number of first-time voters with their own keys, each delivered any number of times in any order and
   interleaved with anything else: the final count of an option is the number of distinct requests delivered for it.
   */
  lemma TallyCountsRequests(s: State, es: seq<Event>, id: PollId, rs: set<Request>, option: string)
    requires Inv(s) && ValidRun(s, es) && Live(Run(s, es).db, id) && (forall u :: (id, u) !in s.db.voters)
    requires forall r, q :: r in rs && q in rs && r.user == q.user ==> r == q
    requires forall r :: r in rs ==> r.key != "" && Unseen(s, id, r) && OnSchedule(s, es, id, r)
    requires OnlyRequests(es, id, rs)
    ensures TallyAt(Run(s, es).db, id, option) == |DeliveredFor(es, id, rs, option)|
  {
    RunKeepsInv(s, es);
    TallyCountsSupporters(Run(s, es).db, id, option);
    SupportersAreDelivered(s, es, id, rs, option);
    AsManyBallots(id, DeliveredFor(es, id, rs, option));
  }

  /** Requests of different colon-free users never get in each other's way. */
  lemma ColonFreeUsersApart(id: PollId, r: Request, q: Request)
    requires Keys.ColonFree(r.user) && Keys.ColonFree(q.user) && r.user != q.user
    requires r.key != "" && q.key != ""
    ensures Apart(Deliver(id, q), id, r)
  {
    if Keys.IdemKey(q.user, q.key) == Name(r) {
      Keys.ColonFreeUsersSeparate(q.user, q.key, r.user, r.key);
    }
  }
}
