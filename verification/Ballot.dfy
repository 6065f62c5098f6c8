/**
 One abstract ballot machine and the proof that both stores refine it: with no idempotency keys, ids never reused,
 close and delete issued by the creator, and clocks outside the last second before each deadline, any sequence of
 operations returns the same codes and leaves the same tallies, closed status and votes in either store.
 */
module Ballot {
  import opened Common
  import L = Ledger
  import M = MemoryStore
  import Calls
  import Keys
  import Protocol
  import Deadline

  /** A poll and who chose what. */
  datatype Slip = Slip(question: string, options: seq<string>, createdBy: UserId, createdAt: int, expiresAt: int,
                       closed: bool, isPublic: bool, ballots: map<UserId, string>)

  type Box = map<PollId, Slip>

  datatype Op =
    | Create(poll: Poll)
    | Vote(id: PollId, user: UserId, option: string)
    | Undo(id: PollId, user: UserId)
    | Close(id: PollId, user: UserId)
    | Delete(id: PollId, user: UserId)

  predicate Over(s: Slip, now: int) {
    s.closed || now > s.expiresAt
  }

  function NewSlip(p: Poll): Slip {
    Slip(p.question, p.options, p.createdBy, p.createdAt, p.expiresAt, p.isClosed, p.isPublic, map[])
  }

  function Apply(b: Box, op: Op, now: int): (Code, Box) {
    match op
    case Create(p) => (OK, b[p.id := NewSlip(p)])
    case Vote(id, user, option) =>
      if id !in b then (NotFound, b)
      else if Over(b[id], now) then (Forbidden, b)
      else if user in b[id].ballots then (Conflict, b)
      else if option !in b[id].options then (Invalid, b)
      else (OK, b[id := b[id].(ballots := b[id].ballots[user := option])])
    case Undo(id, user) =>
      if id !in b then (NotFound, b)
      else if Over(b[id], now) then (Forbidden, b)
      else if user !in b[id].ballots then (Conflict, b)
      else (OK, b[id := b[id].(ballots := b[id].ballots - {user})])
    case Close(id, user) =>
      if id !in b then (NotFound, b) else (OK, b[id := b[id].(closed := true)])
    case Delete(id, user) =>
      if id !in b then (NotFound, b) else (OK, b - {id})
  }

  /** An operation on the Redis ledger, as one uninterrupted call without an idempotency key. */
  function OnRedis(db: L.Db, op: Op, salt: PollId -> nat, now: int): (Code, L.Db) {
    match op
    case Create(p) => (OK, L.CreateTx(db, p, salt(p.id)))
    case Vote(id, user, option) => L.VoteScript(db, id, user, option, "", now)
    case Undo(id, user) => L.UndoScript(db, id, user, "", now)
    case Close(id, user) => Calls.Call(Protocol.Close, db, id, user, "", now)
    case Delete(id, user) => Calls.Call(Protocol.Delete, db, id, user, "", now)
  }

  function OnMemory(m: M.Mem, op: Op, now: int): (Code, M.Mem) {
    match op
    case Create(p) => (OK, M.Create(m, p))
    case Vote(id, user, option) => M.Vote(m, id, user, option, now)
    case Undo(id, user) => M.Undo(m, id, user, now)
    case Close(id, user) => M.Close(m, id, user, now)
    case Delete(id, user) => M.Delete(m, id)
  }

  /** No poll is in the last second before its truncated deadline runs out. */
  predicate ClockAgrees(b: Box, now: int) {
    forall id :: id in b ==> !Deadline.LastSecond(now, b[id].expiresAt)
  }

  /** The circumstances under which the stores are compared. */
  predicate Admissible(b: Box, used: set<PollId>, op: Op, now: int) {
    && ClockAgrees(b, now)
    && match op
       case Create(p) => p.id !in used && Keys.ColonFree(p.id) && forall o :: o in p.votes ==> p.votes[o] == 0
       case Vote(id, _, _) => Keys.Askable(id)
       case Undo(id, _) => Keys.Askable(id)
       case Close(id, user) => Keys.Askable(id) && (id in b ==> b[id].createdBy == user)
       case Delete(id, user) => Keys.Askable(id) && (id in b ==> b[id].createdBy == user)
  }

  /** How many ballots are for an option. */
  ghost function CountFor(ballots: map<UserId, string>, option: string): nat {
    |set u | u in ballots && ballots[u] == option|
  }

  // ---------- The Redis ledger ----------

  /** Metadata and options of a poll; the closed flag may lag where the deadline has settled the matter. */
  ghost predicate MetaMatches(m: L.Meta, s: Slip, now: int) {
    && m.Full? && m.question == s.question && m.createdBy == s.createdBy && m.isPublic == s.isPublic
    && m.createdAt == Unix(s.createdAt) && m.expiresAt == Unix(s.expiresAt)
    && (m.isClosed == s.closed || Unix(now) > m.expiresAt)
  }

  ghost predicate BallotsMatch(db: L.Db, id: PollId, ballots: map<UserId, string>) {
    forall u :: (u in ballots <==> (id, u) in db.voters)
             && (u in ballots ==> (id, u) in db.history && db.history[(id, u)] == ballots[u])
  }

  ghost predicate Entries(db: L.Db, b: Box) {
    forall u, id :: (u, id) in db.created <==> id in b && b[id].createdBy == u
  }

  ghost predicate EntryScores(db: L.Db, b: Box, salt: PollId -> nat) {
    forall id :: id in b && (b[id].createdBy, id) in db.created ==>
      db.created[(b[id].createdBy, id)] == CreatedScore(b[id].createdAt, salt(id))
  }

  /** The live polls are the slips, ballots included. */
  ghost predicate PollsMatch(db: L.Db, b: Box, now: int) {
    && (forall id :: id in b <==> L.Live(db, id))
    && (forall id :: id in b ==> MetaMatches(db.meta[id], b[id], now))
    && (forall id :: id in b ==> id in db.options && db.options[id] == b[id].options)
    && (forall id :: id in b ==> BallotsMatch(db, id, b[id].ballots))
  }

  ghost predicate RedisHolds(db: L.Db, b: Box, used: set<PollId>, salt: PollId -> nat, now: int) {
    L.LedgerInv(db) && PollsMatch(db, b, now) && NoStubs(db) && ListsMatch(db, b, used, salt)
  }

  /** Nothing is left of deleted polls. */
  ghost predicate NoStubs(db: L.Db) {
    forall id :: id in db.meta ==> db.meta[id].Full?
  }

  predicate StubAt(db: L.Db, id: PollId) {
    id in db.meta && db.meta[id].Stub?
  }

  /** The creators' lists, and no trace of an id that was never used. */
  ghost predicate ListsMatch(db: L.Db, b: Box, used: set<PollId>, salt: PollId -> nat) {
    && Entries(db, b) && EntryScores(db, b, salt)
    && b.Keys <= used && (forall v :: v in db.history ==> v.0 in used)
  }

  lemma PollsWait(db: L.Db, b: Box, now: int, later: int)
    requires PollsMatch(db, b, now) && now <= later
    ensures PollsMatch(db, b, later)
  {
    forall id | id in b
      ensures MetaMatches(db.meta[id], b[id], later)
    {
      assert MetaMatches(db.meta[id], b[id], now);
      assert Unix(now) <= Unix(later);
    }
  }

  lemma RedisWaits(db: L.Db, b: Box, used: set<PollId>, salt: PollId -> nat, now: int, later: int)
    requires RedisHolds(db, b, used, salt, now) && now <= later
    ensures RedisHolds(db, b, used, salt, later)
  {
    PollsWait(db, b, now, later);
  }

  /** Lists, tallies and keys aside, the same data holds the same slips. */
  lemma SamePolls(db: L.Db, d: L.Db, b: Box, now: int)
    requires PollsMatch(db, b, now)
    requires d.meta == db.meta && d.options == db.options && d.voters == db.voters && d.history == db.history
    ensures PollsMatch(d, b, now)
  {
    forall id
      ensures id in b <==> L.Live(d, id)
      ensures id in b ==> BallotsMatch(d, id, b[id].ballots)
    {
      assert id in b <==> L.Live(db, id);
      if id in b {
        assert BallotsMatch(db, id, b[id].ballots);
      }
    }
  }

  /** Outside the last second the scripts' verdict is the abstract one. */
  lemma SameVerdict(m: L.Meta, s: Slip, now: int)
    requires MetaMatches(m, s, now) && !Deadline.LastSecond(now, s.expiresAt)
    ensures m.Shut(now) <==> Over(s, now)
    ensures m.ReadsClosed(now) <==> Over(s, now)
  {
    Deadline.AgreeIff(now, s.expiresAt);
    Deadline.Sandwich(now, s.expiresAt);
  }

  /** A script's answer in the abstract machine's terms: a stub is refused as closed where the machine knows no poll. */
  predicate SameAnswer(db: L.Db, id: PollId, code: Code, expected: Code) {
    code == expected || (StubAt(db, id) && code == Forbidden && expected == NotFound)
  }

  predicate OffLastSecond(b: Box, id: PollId, now: int) {
    id in b ==> !Deadline.LastSecond(now, b[id].expiresAt)
  }

  /** What a script whose key is unused returns and writes, in the abstract machine's terms. */
  lemma VoteVerdict(db: L.Db, b: Box, now: int, id: PollId, user: UserId, option: string, key: string)
    requires L.OptionsMatch(db) && PollsMatch(db, b, now) && OffLastSecond(b, id, now)
    requires !L.Repeated(db, user, key, now)
    ensures var (r, a) := (L.VoteScript(db, id, user, option, key, now), Apply(b, Vote(id, user, option), now));
            && SameAnswer(db, id, r.0, a.0) && (r.0 == OK <==> a.0 == OK) && (r.0 != OK ==> r.1 == db && a.1 == b)
            && (r.0 == OK ==> id in b && L.Live(db, id) && (id, user) !in db.voters && (id, option) in db.tally
                              && r.1 == L.SetIdem(L.CastVote(db, id, user, option), user, key, now)
                              && a.1 == b[id := b[id].(ballots := b[id].ballots[user := option])])
  {
    if id in b {
      assert MetaMatches(db.meta[id], b[id], now) && BallotsMatch(db, id, b[id].ballots);
      SameVerdict(db.meta[id], b[id], now);
    }
  }

  lemma UndoVerdict(db: L.Db, b: Box, now: int, id: PollId, user: UserId, key: string)
    requires L.OptionsMatch(db) && PollsMatch(db, b, now) && OffLastSecond(b, id, now)
    requires !L.Repeated(db, user, key, now)
    ensures var (r, a) := (L.UndoScript(db, id, user, key, now), Apply(b, Undo(id, user), now));
            && SameAnswer(db, id, r.0, a.0) && (r.0 == OK <==> a.0 == OK) && (r.0 != OK ==> r.1 == db && a.1 == b)
            && (r.0 == OK ==> id in b && L.Live(db, id) && (id, user) in db.voters && (id, user) in db.history
                              && r.1 == L.SetIdem(L.RetractVote(db, id, user, db.history[(id, user)]), user, key, now)
                              && a.1 == b[id := b[id].(ballots := b[id].ballots - {user})])
  {
    if id in b {
      assert MetaMatches(db.meta[id], b[id], now) && BallotsMatch(db, id, b[id].ballots);
      SameVerdict(db.meta[id], b[id], now);
    }
  }

  lemma RedisVotes(db: L.Db, b: Box, used: set<PollId>, salt: PollId -> nat, now: int, id: PollId, user: UserId,
                   option: string)
    requires RedisHolds(db, b, used, salt, now) && ClockAgrees(b, now)
    ensures var (r, a) := (OnRedis(db, Vote(id, user, option), salt, now), Apply(b, Vote(id, user, option), now));
            r.0 == a.0 && RedisHolds(r.1, a.1, used, salt, now)
  {
    VoteVerdict(db, b, now, id, user, option, "");
    if OnRedis(db, Vote(id, user, option), salt, now).0 == OK {
      CastHolds(db, b, used, salt, now, id, user, option);
    }
  }

  lemma CastHolds(db: L.Db, b: Box, used: set<PollId>, salt: PollId -> nat, now: int, id: PollId, user: UserId,
                  option: string)
    requires RedisHolds(db, b, used, salt, now) && id in b
    requires L.Live(db, id) && (id, user) !in db.voters && (id, option) in db.tally
    ensures RedisHolds(L.CastVote(db, id, user, option),
                       b[id := b[id].(ballots := b[id].ballots[user := option])], used, salt, now)
  {
    L.VoteKeepsLedger(db, id, user, option);
    CastMatches(db, b, now, id, user, option);
    SlipChanges(db, L.CastVote(db, id, user, option), b, used, salt, id,
                b[id].(ballots := b[id].ballots[user := option]));
  }

  /** Changing a slip, but not who created it when, and writing history only for its poll. */
  lemma SlipChanges(db: L.Db, d: L.Db, b: Box, used: set<PollId>, salt: PollId -> nat, id: PollId, s: Slip)
    requires ListsMatch(db, b, used, salt) && d.created == db.created && id in b
    requires s.createdBy == b[id].createdBy && s.createdAt == b[id].createdAt
    requires forall v :: v in d.history ==> v in db.history || v.0 == id
    ensures ListsMatch(d, b[id := s], used, salt)
  {
    SameEntries(db, d, b, b[id := s], salt);
  }

  lemma SameEntries(db: L.Db, d: L.Db, b: Box, c: Box, salt: PollId -> nat)
    requires Entries(db, b) && EntryScores(db, b, salt) && d.created == db.created && c.Keys == b.Keys
    requires forall id :: id in b ==> c[id].createdBy == b[id].createdBy && c[id].createdAt == b[id].createdAt
    ensures Entries(d, c) && EntryScores(d, c, salt)
  {
  }

  lemma CastMatches(db: L.Db, b: Box, now: int, id: PollId, user: UserId, option: string)
    requires PollsMatch(db, b, now) && id in b
    ensures PollsMatch(L.CastVote(db, id, user, option),
                       b[id := b[id].(ballots := b[id].ballots[user := option])], now)
  {
    var d := L.CastVote(db, id, user, option);
    var c := b[id := b[id].(ballots := b[id].ballots[user := option])];
    forall i | i in c
      ensures BallotsMatch(d, i, c[i].ballots)
    {
      assert BallotsMatch(db, i, b[i].ballots);
    }
  }

  lemma RedisUndoes(db: L.Db, b: Box, used: set<PollId>, salt: PollId -> nat, now: int, id: PollId, user: UserId)
    requires RedisHolds(db, b, used, salt, now) && ClockAgrees(b, now)
    ensures var (r, a) := (OnRedis(db, Undo(id, user), salt, now), Apply(b, Undo(id, user), now));
            r.0 == a.0 && RedisHolds(r.1, a.1, used, salt, now)
  {
    UndoVerdict(db, b, now, id, user, "");
    if OnRedis(db, Undo(id, user), salt, now).0 == OK {
      RetractHolds(db, b, used, salt, now, id, user);
    }
  }

  lemma RetractHolds(db: L.Db, b: Box, used: set<PollId>, salt: PollId -> nat, now: int, id: PollId, user: UserId)
    requires RedisHolds(db, b, used, salt, now) && id in b
    requires L.Live(db, id) && (id, user) in db.voters && (id, user) in db.history
    ensures RedisHolds(L.RetractVote(db, id, user, db.history[(id, user)]),
                       b[id := b[id].(ballots := b[id].ballots - {user})], used, salt, now)
  {
    L.UndoKeepsLedger(db, id, user);
    RetractMatches(db, b, now, id, user);
    SlipChanges(db, L.RetractVote(db, id, user, db.history[(id, user)]), b, used, salt, id,
                b[id].(ballots := b[id].ballots - {user}));
  }

  lemma RetractMatches(db: L.Db, b: Box, now: int, id: PollId, user: UserId)
    requires PollsMatch(db, b, now) && id in b && (id, user) in db.history
    ensures PollsMatch(L.RetractVote(db, id, user, db.history[(id, user)]),
                       b[id := b[id].(ballots := b[id].ballots - {user})], now)
  {
    var d := L.RetractVote(db, id, user, db.history[(id, user)]);
    var c := b[id := b[id].(ballots := b[id].ballots - {user})];
    forall i | i in c
      ensures BallotsMatch(d, i, c[i].ballots)
    {
      assert BallotsMatch(db, i, b[i].ballots);
    }
  }

  lemma CreateMatches(db: L.Db, b: Box, now: int, p: Poll, salt: nat)
    requires PollsMatch(db, b, now) && p.id !in b
    requires forall v :: v in db.voters ==> v.0 != p.id
    ensures PollsMatch(L.CreateTx(db, p, salt), b[p.id := NewSlip(p)], now)
  {
    var d, c := L.CreateTx(db, p, salt), b[p.id := NewSlip(p)];
    assert d.voters == db.voters;
    forall i | i in c
      ensures BallotsMatch(d, i, c[i].ballots) && MetaMatches(d.meta[i], c[i], now)
    {
      if i != p.id {
        assert BallotsMatch(db, i, b[i].ballots) && MetaMatches(db.meta[i], b[i], now);
      }
    }
  }

  lemma CreateEntries(db: L.Db, b: Box, p: Poll, salt: PollId -> nat)
    requires Entries(db, b) && EntryScores(db, b, salt) && p.id !in b
    ensures Entries(L.CreateTx(db, p, salt(p.id)), b[p.id := NewSlip(p)])
    ensures EntryScores(L.CreateTx(db, p, salt(p.id)), b[p.id := NewSlip(p)], salt)
  {
  }

  lemma CreateLists(db: L.Db, b: Box, used: set<PollId>, salt: PollId -> nat, p: Poll)
    requires ListsMatch(db, b, used, salt) && p.id !in used
    ensures ListsMatch(L.CreateTx(db, p, salt(p.id)), b[p.id := NewSlip(p)], used + {p.id}, salt)
  {
    CreateEntries(db, b, p, salt);
  }

  /** An id that is no slip's has neither metadata nor voters. */
  lemma NothingYet(db: L.Db, b: Box, now: int, id: PollId)
    requires L.LedgerInv(db) && PollsMatch(db, b, now) && NoStubs(db) && id !in b
    ensures id !in db.meta && forall v :: v in db.voters ==> v.0 != id
  {
    assert !L.Live(db, id);
    assert forall v :: v in db.voters ==> L.Live(db, v.0);
  }

  lemma RedisCreates(db: L.Db, b: Box, used: set<PollId>, salt: PollId -> nat, now: int, p: Poll)
    requires RedisHolds(db, b, used, salt, now) && p.id !in used
    ensures RedisHolds(OnRedis(db, Create(p), salt, now).1, Apply(b, Create(p), now).1, used + {p.id}, salt, now)
  {
    NothingYet(db, b, now, p.id);
    L.CreateKeepsLedger(db, p, salt(p.id));
    CreateMatches(db, b, now, p, salt(p.id));
    CreateLists(db, b, used, salt, p);
  }

  lemma CloseVerdict(db: L.Db, b: Box, now: int, id: PollId, user: UserId)
    requires PollsMatch(db, b, now) && ClockAgrees(b, now) && id in b && b[id].createdBy == user
    ensures var r := Calls.Call(Protocol.Close, db, id, user, "", now);
            r.0 == OK && (r.1 == L.MarkClosed(db, id, user) || (r.1 == db && db.meta[id].Shut(now)))
  {
    assert MetaMatches(db.meta[id], b[id], now);
    SameVerdict(db.meta[id], b[id], now);
  }

  lemma RedisCloses(db: L.Db, b: Box, used: set<PollId>, salt: PollId -> nat, now: int, id: PollId, user: UserId)
    requires RedisHolds(db, b, used, salt, now) && Admissible(b, used, Close(id, user), now)
    ensures var (r, a) := (OnRedis(db, Close(id, user), salt, now), Apply(b, Close(id, user), now));
            r.0 == a.0 && RedisHolds(r.1, a.1, used, salt, now)
  {
    if id in b {
      CloseVerdict(db, b, now, id, user);
      var d := OnRedis(db, Close(id, user), salt, now).1;
      L.CloseKeepsLedger(db, id, user);
      ClosedHolds(db, d, b, used, salt, now, id, user);
    }
  }

  lemma ClosedHolds(db: L.Db, d: L.Db, b: Box, used: set<PollId>, salt: PollId -> nat, now: int, id: PollId,
                    user: UserId)
    requires RedisHolds(db, b, used, salt, now) && id in b && L.LedgerInv(d)
    requires d == L.MarkClosed(db, id, user) || (d == db && db.meta[id].Shut(now))
    ensures RedisHolds(d, b[id := b[id].(closed := true)], used, salt, now)
  {
    CloseMatches(db, d, b, now, id, user);
    SlipChanges(db, d, b, used, salt, id, b[id].(closed := true));
  }

  lemma CloseMatches(db: L.Db, d: L.Db, b: Box, now: int, id: PollId, user: UserId)
    requires PollsMatch(db, b, now) && id in b
    requires d == L.MarkClosed(db, id, user) || (d == db && db.meta[id].Shut(now))
    ensures PollsMatch(d, b[id := b[id].(closed := true)], now)
  {
    var c := b[id := b[id].(closed := true)];
    forall i | i in c
      ensures BallotsMatch(d, i, c[i].ballots) && MetaMatches(d.meta[i], c[i], now)
    {
      assert BallotsMatch(db, i, b[i].ballots) && MetaMatches(db.meta[i], b[i], now);
    }
  }

  lemma DeleteVerdict(db: L.Db, b: Box, now: int, id: PollId, user: UserId)
    requires PollsMatch(db, b, now) && id in b && b[id].createdBy == user
    ensures Calls.Call(Protocol.Delete, db, id, user, "", now) == (OK, Calls.Unlist(L.DropPoll(db, id), id, user))
  {
    assert MetaMatches(db.meta[id], b[id], now);
  }

  lemma RedisDeletes(db: L.Db, b: Box, used: set<PollId>, salt: PollId -> nat, now: int, id: PollId, user: UserId)
    requires RedisHolds(db, b, used, salt, now) && Admissible(b, used, Delete(id, user), now)
    ensures var (r, a) := (OnRedis(db, Delete(id, user), salt, now), Apply(b, Delete(id, user), now));
            r.0 == a.0 && RedisHolds(r.1, a.1, used, salt, now)
  {
    if id in b {
      DeleteVerdict(db, b, now, id, user);
      L.DropKeepsLedger(db, id);
      DropMatches(db, b, now, id);
      var d := L.DropPoll(db, id);
      UnlistMatches(d, b, salt, id, user);
      UnlistKeeps(d, b - {id}, id, user, now);
    }
  }

  lemma DropMatches(db: L.Db, b: Box, now: int, id: PollId)
    requires PollsMatch(db, b, now)
    ensures PollsMatch(L.DropPoll(db, id), b - {id}, now)
  {
    var d, c := L.DropPoll(db, id), b - {id};
    forall i | i in c
      ensures BallotsMatch(d, i, c[i].ballots) && MetaMatches(d.meta[i], c[i], now)
    {
      assert BallotsMatch(db, i, b[i].ballots) && MetaMatches(db.meta[i], b[i], now);
    }
  }

  lemma UnlistMatches(db: L.Db, b: Box, salt: PollId -> nat, id: PollId, user: UserId)
    requires Entries(db, b) && EntryScores(db, b, salt) && id in b && b[id].createdBy == user
    ensures Entries(Calls.Unlist(db, id, user), b - {id})
    ensures EntryScores(Calls.Unlist(db, id, user), b - {id}, salt)
  {
  }

  lemma UnlistKeeps(db: L.Db, b: Box, id: PollId, user: UserId, now: int)
    requires L.LedgerInv(db) && PollsMatch(db, b, now)
    ensures L.LedgerInv(Calls.Unlist(db, id, user)) && PollsMatch(Calls.Unlist(db, id, user), b, now)
  {
    var d := Calls.Unlist(db, id, user);
    assert forall i, o :: L.Supporters(d, i, o) == L.Supporters(db, i, o);
    assert forall i :: L.Live(d, i) <==> L.Live(db, i);
    forall i | i in b
      ensures BallotsMatch(d, i, b[i].ballots)
    {
      assert BallotsMatch(db, i, b[i].ballots);
    }
  }

  /** The ids in use after an operation. */
  function Used(used: set<PollId>, op: Op): set<PollId> {
    if op.Create? then used + {op.poll.id} else used
  }

  /** Redis refines the ballot machine. */
  lemma RedisRefines(db: L.Db, b: Box, used: set<PollId>, salt: PollId -> nat, op: Op, now: int)
    requires RedisHolds(db, b, used, salt, now) && Admissible(b, used, op, now)
    ensures var (r, a) := (OnRedis(db, op, salt, now), Apply(b, op, now));
            r.0 == a.0 && RedisHolds(r.1, a.1, Used(used, op), salt, now)
  {
    match op
    case Create(p) => RedisCreates(db, b, used, salt, now, p);
    case Vote(id, user, option) => RedisVotes(db, b, used, salt, now, id, user, option);
    case Undo(id, user) => RedisUndoes(db, b, used, salt, now, id, user);
    case Close(id, user) => RedisCloses(db, b, used, salt, now, id, user);
    case Delete(id, user) => RedisDeletes(db, b, used, salt, now, id, user);
  }

  // ---------- The memory store ----------

  ghost predicate PollMatches(p: Poll, id: PollId, s: Slip) {
    && p.id == id && p.question == s.question && p.options == s.options && p.createdBy == s.createdBy
    && p.createdAt == s.createdAt && p.expiresAt == s.expiresAt && p.isClosed == s.closed && p.isPublic == s.isPublic
  }

  ghost predicate CountsMatch(p: Poll, ballots: map<UserId, string>) {
    forall o :: M.CountOf(p, o) == CountFor(ballots, o)
  }

  ghost predicate EntryHolds(p: Poll, votes: map<UserId, string>, id: PollId, s: Slip) {
    PollMatches(p, id, s) && votes == s.ballots && CountsMatch(p, s.ballots)
  }

  ghost predicate OwnersMatch(m: M.Mem, b: Box) {
    forall u, id :: id in M.CreatedBy(m, u) <==> id in b && b[id].createdBy == u
  }

  ghost predicate MemoryHolds(m: M.Mem, b: Box) {
    && m.polls.Keys == b.Keys && m.votes.Keys <= b.Keys
    && (forall id :: id in b ==> EntryHolds(m.polls[id], M.VotesOn(m, id), id, b[id]))
    && OwnersMatch(m, b)
  }

  lemma CountAfterVote(ballots: map<UserId, string>, user: UserId, option: string, o: string)
    requires user !in ballots
    ensures CountFor(ballots[user := option], o) == CountFor(ballots, o) + if o == option then 1 else 0
  {
    var before := set u | u in ballots && ballots[u] == o;
    var c := ballots[user := option];
    var now := set u | u in c && c[u] == o;
    assert now == if o == option then before + {user} else before;
  }

  lemma CountAfterUndo(ballots: map<UserId, string>, user: UserId, o: string)
    requires user in ballots
    ensures CountFor(ballots - {user}, o) == CountFor(ballots, o) - if o == ballots[user] then 1 else 0
    ensures CountFor(ballots, ballots[user]) >= 1
  {
    var before := set u | u in ballots && ballots[u] == o;
    var c := ballots - {user};
    var now := set u | u in c && c[u] == o;
    assert now == before - {user};
    assert user in set u | u in ballots && ballots[u] == ballots[user];
  }

  lemma EntryAfterVote(p: Poll, id: PollId, s: Slip, user: UserId, option: string)
    requires EntryHolds(p, s.ballots, id, s) && user !in s.ballots
    ensures var v := s.ballots[user := option];
            EntryHolds(M.Counted(p, user, option), v, id, s.(ballots := v))
  {
    forall o
      ensures M.CountOf(M.Counted(p, user, option), o) == CountFor(s.ballots[user := option], o)
    {
      CountAfterVote(s.ballots, user, option, o);
      assert M.CountOf(p, o) == CountFor(s.ballots, o);
    }
  }

  lemma EntryAfterUndo(p: Poll, id: PollId, s: Slip, user: UserId)
    requires EntryHolds(p, s.ballots, id, s) && user in s.ballots
    ensures var v := s.ballots - {user};
            EntryHolds(M.Uncounted(p, user, s.ballots[user]), v, id, s.(ballots := v))
  {
    forall o
      ensures M.CountOf(M.Uncounted(p, user, s.ballots[user]), o) == CountFor(s.ballots - {user}, o)
    {
      CountAfterUndo(s.ballots, user, o);
      assert M.CountOf(p, o) == CountFor(s.ballots, o);
    }
  }

  /** Replacing one poll and its votes. */
  lemma MemoryUpdates(m: M.Mem, b: Box, id: PollId, p: Poll, votes: map<UserId, string>, s: Slip)
    requires MemoryHolds(m, b) && id in b && EntryHolds(p, votes, id, s) && s.createdBy == b[id].createdBy
    ensures MemoryHolds(m.(polls := m.polls[id := p], votes := m.votes[id := votes]), b[id := s])
    ensures votes == M.VotesOn(m, id) ==> MemoryHolds(m.(polls := m.polls[id := p]), b[id := s])
  {
    var n, c := m.(polls := m.polls[id := p], votes := m.votes[id := votes]), b[id := s];
    forall i | i in c
      ensures EntryHolds(n.polls[i], M.VotesOn(n, i), i, c[i])
    {
      if i != id {
        assert EntryHolds(m.polls[i], M.VotesOn(m, i), i, b[i]);
      }
    }
    SameOwners(m, n, b, c);
    MemoryUpdatesPoll(m, b, id, p, votes, s);
  }

  lemma SameOwners(m: M.Mem, n: M.Mem, b: Box, c: Box)
    requires OwnersMatch(m, b) && n.created == m.created && c.Keys == b.Keys
    requires forall i :: i in b ==> c[i].createdBy == b[i].createdBy
    ensures OwnersMatch(n, c)
  {
    forall u, i
      ensures i in M.CreatedBy(n, u) <==> i in c && c[i].createdBy == u
    {
      assert i in M.CreatedBy(m, u) <==> i in b && b[i].createdBy == u;
    }
  }

  /** Replacing one poll, its votes as they were. */
  lemma MemoryUpdatesPoll(m: M.Mem, b: Box, id: PollId, p: Poll, votes: map<UserId, string>, s: Slip)
    requires MemoryHolds(m, b) && id in b && EntryHolds(p, votes, id, s) && s.createdBy == b[id].createdBy
    ensures votes == M.VotesOn(m, id) ==> MemoryHolds(m.(polls := m.polls[id := p]), b[id := s])
  {
    var n, c := m.(polls := m.polls[id := p]), b[id := s];
    forall i | i in c && i != id
      ensures EntryHolds(n.polls[i], M.VotesOn(n, i), i, c[i])
    {
      assert EntryHolds(m.polls[i], M.VotesOn(m, i), i, b[i]);
    }
    SameOwners(m, n, b, c);
  }

  lemma MemoryVotes(m: M.Mem, b: Box, now: int, id: PollId, user: UserId, option: string)
    requires MemoryHolds(m, b)
    ensures var (r, a) := (OnMemory(m, Vote(id, user, option), now), Apply(b, Vote(id, user, option), now));
            r.0 == a.0 && MemoryHolds(r.1, a.1)
  {
    if id in b {
      var p, v := m.polls[id], M.VotesOn(m, id);
      assert EntryHolds(p, v, id, b[id]);
      MemoryUpdates(m, b, id, p, v, b[id]);
      assert b[id := b[id]] == b && m.polls[id := p] == m.polls;
      if Apply(b, Vote(id, user, option), now).0 == OK {
        EntryAfterVote(p, id, b[id], user, option);
        MemoryUpdates(m, b, id, M.Counted(p, user, option), v[user := option],
                      b[id].(ballots := v[user := option]));
      }
    }
  }

  lemma MemoryUndoes(m: M.Mem, b: Box, now: int, id: PollId, user: UserId)
    requires MemoryHolds(m, b)
    ensures var (r, a) := (OnMemory(m, Undo(id, user), now), Apply(b, Undo(id, user), now));
            r.0 == a.0 && MemoryHolds(r.1, a.1)
  {
    if id in b {
      var p, v := m.polls[id], M.VotesOn(m, id);
      assert EntryHolds(p, v, id, b[id]);
      if Apply(b, Undo(id, user), now).0 == OK {
        EntryAfterUndo(p, id, b[id], user);
        MemoryUpdates(m, b, id, M.Uncounted(p, user, v[user]), v - {user}, b[id].(ballots := v - {user}));
      }
    }
  }

  lemma FewerThanBallots(ballots: map<UserId, string>, o: string)
    ensures CountFor(ballots, o) <= |ballots.Keys|
  {
    CardinalityOfSubset((set u | u in ballots && ballots[u] == o), ballots.Keys);
  }

  lemma NoBallotsYet(p: Poll)
    requires forall o :: o in p.votes ==> p.votes[o] == 0
    ensures EntryHolds(p, map[], p.id, NewSlip(p))
  {
    forall o
      ensures M.CountOf(p, o) == CountFor(map[], o)
    {
      FewerThanBallots(map[], o);
    }
  }

  lemma NewOwner(m: M.Mem, b: Box, p: Poll)
    requires OwnersMatch(m, b) && p.id !in b
    ensures OwnersMatch(M.Create(m, p), b[p.id := NewSlip(p)])
  {
    var n, c := M.Create(m, p), b[p.id := NewSlip(p)];
    forall u, i
      ensures i in M.CreatedBy(n, u) <==> i in c && c[i].createdBy == u
    {
      assert i in M.CreatedBy(m, u) <==> i in b && b[i].createdBy == u;
    }
  }

  lemma MemoryCreates(m: M.Mem, b: Box, p: Poll)
    requires MemoryHolds(m, b) && p.id !in b && forall o :: o in p.votes ==> p.votes[o] == 0
    ensures MemoryHolds(M.Create(m, p), b[p.id := NewSlip(p)])
  {
    NoBallotsYet(p);
    NewOwner(m, b, p);
    var n, c := M.Create(m, p), b[p.id := NewSlip(p)];
    forall i | i in c
      ensures EntryHolds(n.polls[i], M.VotesOn(n, i), i, c[i])
    {
      if i != p.id {
        assert EntryHolds(m.polls[i], M.VotesOn(m, i), i, b[i]);
      }
    }
  }

  lemma MemoryCloses(m: M.Mem, b: Box, id: PollId, user: UserId, now: int)
    requires MemoryHolds(m, b)
    ensures var (r, a) := (OnMemory(m, Close(id, user), now), Apply(b, Close(id, user), now));
            r.0 == a.0 && MemoryHolds(r.1, a.1)
  {
    if id in b {
      var n := OnMemory(m, Close(id, user), now).1;
      assert EntryHolds(m.polls[id], M.VotesOn(m, id), id, b[id]);
      assert forall o :: M.CountOf(n.polls[id], o) == M.CountOf(m.polls[id], o);
      MemoryUpdates(m, b, id, n.polls[id], M.VotesOn(m, id), b[id].(closed := true));
    }
  }

  lemma MemoryDeletes(m: M.Mem, b: Box, id: PollId, user: UserId, now: int)
    requires MemoryHolds(m, b)
    ensures var (r, a) := (OnMemory(m, Delete(id, user), now), Apply(b, Delete(id, user), now));
            r.0 == a.0 && MemoryHolds(r.1, a.1)
  {
    if id in b {
      var n, c := OnMemory(m, Delete(id, user), now).1, b - {id};
      assert EntryHolds(m.polls[id], M.VotesOn(m, id), id, b[id]);
      forall i | i in c
        ensures EntryHolds(n.polls[i], M.VotesOn(n, i), i, c[i])
      {
        assert EntryHolds(m.polls[i], M.VotesOn(m, i), i, b[i]);
      }
      DeleteOwners(m, n, b, id);
    }
  }

  lemma DeleteOwners(m: M.Mem, n: M.Mem, b: Box, id: PollId)
    requires OwnersMatch(m, b) && id in b && id in m.polls && m.polls[id].createdBy == b[id].createdBy
    requires n == M.Delete(m, id).1
    ensures OwnersMatch(n, b - {id})
  {
    var c := b - {id};
    forall u, i
      ensures i in M.CreatedBy(n, u) <==> i in c && c[i].createdBy == u
    {
      assert i in M.CreatedBy(m, u) <==> i in b && b[i].createdBy == u;
    }
  }

  /** A created poll is new and without counts. */
  predicate NewAndEmpty(b: Box, op: Op) {
    op.Create? ==> op.poll.id !in b && forall o :: o in op.poll.votes ==> op.poll.votes[o] == 0
  }

  /** The memory store refines the ballot machine, whatever the clock and whoever closes or deletes. */
  lemma MemoryRefines(m: M.Mem, b: Box, op: Op, now: int)
    requires MemoryHolds(m, b) && NewAndEmpty(b, op)
    ensures var (r, a) := (OnMemory(m, op, now), Apply(b, op, now));
            r.0 == a.0 && MemoryHolds(r.1, a.1)
  {
    match op
    case Create(p) => MemoryCreates(m, b, p);
    case Vote(id, user, option) => MemoryVotes(m, b, now, id, user, option);
    case Undo(id, user) => MemoryUndoes(m, b, now, id, user);
    case Close(id, user) => MemoryCloses(m, b, id, user, now);
    case Delete(id, user) => MemoryDeletes(m, b, id, user, now);
  }
}
