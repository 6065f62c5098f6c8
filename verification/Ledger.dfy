/**
 The Redis data of the voting ledger and the commands that change it atomically: the two Lua scripts
 (internal/store/redis/scripts.go), the create transaction and the single commands of ClosePoll and
 DeletePoll (internal/store/redis/store.go).

 Hashes and sets that hold one entry per poll and user are kept as relations over pairs, so that an empty
 hash and a missing key are the same thing, as they are in Redis.
 */
module Ledger {
  import opened Common
  import Keys

  const IDEM_TTL := 300 * NANOS

  /**
   The hash under a poll's metadata key. `Stub` is what ClosePoll's HSET leaves when the poll was deleted
   between its read and its write: only `is_closed` and `updated_by`.
   */
  datatype Meta =
    | Full(question: string, createdBy: UserId, updatedBy: UserId, createdAt: int, expiresAt: int,
           isClosed: bool, isPublic: bool)
    | Stub(updatedBy: UserId)
  {
    /** What getPoll reports as creator: a missing field reads as the empty string. */
    function Creator(): UserId {
      if Full? then createdBy else ""
    }

    /** What getPoll reports as closed: the flag, or the truncated deadline already past. */
    predicate ReadsClosed(now: int) {
      Stub? || isClosed || now > expiresAt * NANOS
    }

    /** What makes both scripts answer "forbidden": the flag, or the server's second past the deadline's. */
    predicate Shut(now: int) {
      Stub? || isClosed || Unix(now) > expiresAt
    }
  }

  datatype Db = Db(
    meta: map<PollId, Meta>,
    options: map<PollId, seq<string>>,
    tally: map<(PollId, string), int>,
    voters: set<(PollId, UserId)>,
    history: map<(PollId, UserId), string>,
    idem: map<string, int>,
    index: set<PollId>,
    publicIndex: set<PollId>,
    created: map<(UserId, PollId), int>)

  const EMPTY_DB := Db(map[], map[], map[], {}, map[], map[], {}, {}, map[])

  /** A poll that can be read back: its metadata carries its id. */
  predicate Live(db: Db, id: PollId) {
    id in db.meta && db.meta[id].Full?
  }

  /** An option's count; a missing field counts as zero. */
  function TallyAt(db: Db, id: PollId, option: string): int {
    if (id, option) in db.tally then db.tally[(id, option)] else 0
  }

  /** The idempotency key is still there: Redis drops it once the clock is past its expiry. */
  predicate IdemLive(db: Db, name: string, now: int) {
    name in db.idem && now <= db.idem[name]
  }

  function SetIdem(db: Db, user: UserId, key: string, now: int): Db {
    if key == "" then db else db.(idem := db.idem[Keys.IdemKey(user, key) := now + IDEM_TTL])
  }

  predicate Repeated(db: Db, user: UserId, key: string, now: int) {
    key != "" && IdemLive(db, Keys.IdemKey(user, key), now)
  }

  /** The writes of a vote: SADD, HINCRBY, HSET. */
  function CastVote(db: Db, id: PollId, user: UserId, option: string): Db {
    db.(voters := db.voters + {(id, user)},
        tally := db.tally[(id, option) := TallyAt(db, id, option) + 1],
        history := db.history[(id, user) := option])
  }

  /** voteScript: every check in the script's order, then the writes. */
  function VoteScript(db: Db, id: PollId, user: UserId, option: string, key: string, now: int): (Code, Db) {
    if Repeated(db, user, key, now) then (Noop, db)
    else if id !in db.meta then (NotFound, db)
    else if db.meta[id].Shut(now) then (Forbidden, db)
    else if (id, user) in db.voters then (Conflict, db)
    else if (id, option) !in db.tally then (Invalid, db)
    else (OK, SetIdem(CastVote(db, id, user, option), user, key, now))
  }

  /** The writes of an undo: SREM, HINCRBY with the clamp at zero, HDEL. */
  function RetractVote(db: Db, id: PollId, user: UserId, option: string): Db {
    var n := TallyAt(db, id, option) - 1;
    db.(voters := db.voters - {(id, user)},
        tally := db.tally[(id, option) := if n < 0 then 0 else n],
        history := db.history - {(id, user)})
  }

  /** undoScript. */
  function UndoScript(db: Db, id: PollId, user: UserId, key: string, now: int): (Code, Db) {
    if Repeated(db, user, key, now) then (Noop, db)
    else if id !in db.meta then (NotFound, db)
    else if db.meta[id].Shut(now) then (Forbidden, db)
    else if (id, user) !in db.voters then (Conflict, db)
    else if (id, user) !in db.history then (Conflict, db)
    else (OK, SetIdem(RetractVote(db, id, user, db.history[(id, user)]), user, key, now))
  }

  function FullMeta(p: Poll): Meta {
    Full(p.question, p.createdBy, p.updatedBy, Unix(p.createdAt), Unix(p.expiresAt), p.isClosed, p.isPublic)
  }

  function Zeros(id: PollId, options: seq<string>): map<(PollId, string), int> {
    map o | o in options :: (id, o) := 0
  }

  /** CreatePoll's transaction. Poll ids are fresh, so the options hash starts out empty. */
  function CreateTx(db: Db, p: Poll, salt: nat): Db {
    db.(meta := db.meta[p.id := FullMeta(p)],
        options := db.options[p.id := p.options],
        tally := db.tally + Zeros(p.id, p.options),
        index := db.index + {p.id},
        publicIndex := if p.isPublic then db.publicIndex + {p.id} else db.publicIndex,
        created := db.created[(p.createdBy, p.id) := CreatedScore(p.createdAt, salt)],
        voters := set v | v in db.voters && v.0 != p.id)
  }

  /** ClosePoll's HSET: on a missing hash it creates the stub. */
  function MarkClosed(db: Db, id: PollId, user: UserId): Db {
    var m := if Live(db, id) then db.meta[id].(isClosed := true, updatedBy := user) else Stub(user);
    db.(meta := db.meta[id := m])
  }

  /** DeletePoll's DEL of the four poll keys; voters' histories stay behind. */
  function DropPoll(db: Db, id: PollId): Db {
    db.(meta := db.meta - {id},
        options := db.options - {id},
        tally := map q | q in db.tally && q.0 != id :: db.tally[q],
        voters := set v | v in db.voters && v.0 != id)
  }

  /** The voters of a poll whose history records an option. */
  ghost function Supporters(db: Db, id: PollId, option: string): set<(PollId, UserId)> {
    set v | v in db.voters && v.0 == id && v in db.history && db.history[v] == option
  }

  ghost function VotersOf(db: Db, id: PollId): set<(PollId, UserId)> {
    set v | v in db.voters && v.0 == id
  }

  /** Options and count fields belong to live polls, and a live poll counts exactly its options. */
  ghost predicate OptionsMatch(db: Db) {
    && (forall id :: id in db.options <==> Live(db, id))
    && (forall id, o :: Live(db, id) ==> (o in db.options[id] <==> (id, o) in db.tally))
    && (forall q :: q in db.tally ==> Live(db, q.0))
  }

  /** On a live poll, voter set and histories agree, and every recorded choice is counted. */
  ghost predicate VotersMatch(db: Db) {
    && (forall v :: v in db.voters ==> Live(db, v.0) && v in db.history)
    && (forall v :: v in db.history && Live(db, v.0) ==> v in db.voters && (v.0, db.history[v]) in db.tally)
  }

  ghost predicate CountsExact(db: Db) {
    forall q :: q in db.tally ==> db.tally[q] == |Supporters(db, q.0, q.1)|
  }

  /** Agreement of metadata, options, tallies, voters and histories. */
  ghost predicate LedgerInv(db: Db) {
    OptionsMatch(db) && VotersMatch(db) && CountsExact(db)
  }

  /** Metadata, options and indexes are as they were. */
  ghost predicate SameRecords(db: Db, d: Db) {
    && d.meta == db.meta && d.options == db.options
    && d.index == db.index && d.publicIndex == db.publicIndex && d.created == db.created
  }

  lemma EmptyLedger()
    ensures LedgerInv(EMPTY_DB)
  {
  }

  /** Only the supporters of the option just voted for change, by the new voter. */
  lemma SupportersAfterVote(db: Db, id: PollId, user: UserId, option: string, q: (PollId, string))
    requires (id, user) !in db.voters
    ensures Supporters(CastVote(db, id, user, option), q.0, q.1)
         == if q == (id, option) then Supporters(db, id, option) + {(id, user)} else Supporters(db, q.0, q.1)
  {
  }

  lemma VoteKeepsCounts(db: Db, id: PollId, user: UserId, option: string)
    requires CountsExact(db) && (id, user) !in db.voters && (id, option) in db.tally
    ensures CountsExact(CastVote(db, id, user, option))
  {
    var d := CastVote(db, id, user, option);
    forall q | q in d.tally
      ensures d.tally[q] == |Supporters(d, q.0, q.1)|
    {
      SupportersAfterVote(db, id, user, option, q);
      var before := Supporters(db, q.0, q.1);
      assert (id, user) !in before;
      assert q in db.tally && db.tally[q] == |before|;
      if q == (id, option) {
        assert Supporters(d, q.0, q.1) == before + {(id, user)};
      }
    }
  }

  lemma VoteKeepsLedger(db: Db, id: PollId, user: UserId, option: string)
    requires LedgerInv(db) && Live(db, id) && (id, user) !in db.voters && (id, option) in db.tally
    ensures LedgerInv(CastVote(db, id, user, option))
  {
    VoteKeepsCounts(db, id, user, option);
  }

  /** The clamp at zero and the missing-history return of undoScript are never taken. */
  lemma UndoNeverClamps(db: Db, id: PollId, user: UserId)
    requires LedgerInv(db) && (id, user) in db.voters
    ensures (id, user) in db.history && (id, db.history[(id, user)]) in db.tally
    ensures TallyAt(db, id, db.history[(id, user)]) >= 1
  {
    var v := (id, user);
    assert v in Supporters(db, id, db.history[v]);
  }

  lemma SupportersAfterUndo(db: Db, id: PollId, user: UserId, q: (PollId, string))
    requires (id, user) in db.voters && (id, user) in db.history
    ensures Supporters(RetractVote(db, id, user, db.history[(id, user)]), q.0, q.1)
         == Supporters(db, q.0, q.1) - {(id, user)}
  {
  }

  lemma UndoKeepsLedger(db: Db, id: PollId, user: UserId)
    requires LedgerInv(db) && Live(db, id) && (id, user) in db.voters
    ensures (id, user) in db.history && LedgerInv(RetractVote(db, id, user, db.history[(id, user)]))
  {
    UndoNeverClamps(db, id, user);
    var d := RetractVote(db, id, user, db.history[(id, user)]);
    forall q | q in d.tally
      ensures d.tally[q] == |Supporters(d, q.0, q.1)|
    {
      SupportersAfterUndo(db, id, user, q);
      assert q == (q.0, q.1);
    }
  }

  lemma CreateKeepsCounts(db: Db, p: Poll, salt: nat)
    requires CountsExact(db) && forall v :: v in db.voters ==> v.0 != p.id
    ensures CountsExact(CreateTx(db, p, salt))
  {
    var d := CreateTx(db, p, salt);
    assert d.voters == db.voters;
    forall q | q in d.tally
      ensures d.tally[q] == |Supporters(d, q.0, q.1)|
    {
      assert Supporters(d, q.0, q.1) == Supporters(db, q.0, q.1);
      if q in Zeros(p.id, p.options) {
        assert Supporters(db, q.0, q.1) == {};
      }
    }
  }

  lemma CreateKeepsOptions(db: Db, p: Poll, salt: nat)
    requires OptionsMatch(db) && p.id !in db.meta
    ensures OptionsMatch(CreateTx(db, p, salt))
  {
    var d := CreateTx(db, p, salt);
    forall o
      ensures (p.id, o) in d.tally <==> o in p.options
    {
      assert (p.id, o) !in db.tally;
      assert (p.id, o) in Zeros(p.id, p.options) <==> o in p.options;
    }
    forall id, o | id != p.id
      ensures (id, o) in d.tally <==> (id, o) in db.tally
    {
      assert (id, o) !in Zeros(p.id, p.options);
    }
    assert forall id :: id != p.id ==> (Live(d, id) <==> Live(db, id));
  }

  lemma CreateKeepsLedger(db: Db, p: Poll, salt: nat)
    requires LedgerInv(db) && p.id !in db.meta
    requires forall v :: v in db.history ==> v.0 != p.id
    ensures LedgerInv(CreateTx(db, p, salt))
  {
    CreateKeepsCounts(db, p, salt);
    CreateKeepsOptions(db, p, salt);
  }

  lemma CloseKeepsLedger(db: Db, id: PollId, user: UserId)
    requires LedgerInv(db)
    ensures LedgerInv(MarkClosed(db, id, user))
  {
    var d := MarkClosed(db, id, user);
    assert forall i :: Live(d, i) <==> Live(db, i);
    assert forall i, o :: Supporters(d, i, o) == Supporters(db, i, o);
  }

  lemma DropKeepsLedger(db: Db, id: PollId)
    requires LedgerInv(db)
    ensures LedgerInv(DropPoll(db, id))
  {
    var d := DropPoll(db, id);
    forall q | q in d.tally
      ensures Live(d, q.0) && d.tally[q] == |Supporters(d, q.0, q.1)|
    {
      assert Supporters(d, q.0, q.1) == Supporters(db, q.0, q.1);
    }
  }

  /** The scripts as a whole keep the agreement. */
  lemma ScriptsKeepLedger(db: Db, id: PollId, user: UserId, option: string, key: string, now: int)
    requires LedgerInv(db)
    ensures LedgerInv(VoteScript(db, id, user, option, key, now).1)
    ensures LedgerInv(UndoScript(db, id, user, key, now).1)
  {
    if VoteScript(db, id, user, option, key, now).0 == OK {
      VoteKeepsLedger(db, id, user, option);
      IdemIsApart(CastVote(db, id, user, option), user, key, now);
    }
    if UndoScript(db, id, user, key, now).0 == OK {
      UndoKeepsLedger(db, id, user);
      IdemIsApart(RetractVote(db, id, user, db.history[(id, user)]), user, key, now);
    }
  }

  lemma IdemIsApart(db: Db, user: UserId, key: string, now: int)
    requires LedgerInv(db)
    ensures LedgerInv(SetIdem(db, user, key, now))
  {
    var d := SetIdem(db, user, key, now);
    assert forall i, o :: Supporters(d, i, o) == Supporters(db, i, o);
  }

  /** Every count, present or missing, is the number of voters whose history records the option. */
  lemma TallyCountsSupporters(db: Db, id: PollId, option: string)
    requires LedgerInv(db)
    ensures TallyAt(db, id, option) == |Supporters(db, id, option)|
  {
    if (id, option) !in db.tally {
      assert Supporters(db, id, option) == {};
    }
  }

  /** The sum of a poll's counts over a list of options. */
  function SumTally(db: Db, id: PollId, options: seq<string>): int {
    if options == [] then 0 else TallyAt(db, id, options[0]) + SumTally(db, id, options[1..])
  }

  predicate Distinct(s: seq<string>) {
    forall i, j :: 0 <= i < j < |s| ==> s[i] != s[j]
  }

  ghost function VotersAmong(db: Db, id: PollId, options: seq<string>): set<(PollId, UserId)> {
    set v | v in db.voters && v.0 == id && v in db.history && db.history[v] in options
  }

  lemma {:induction false} SumOverOptions(db: Db, id: PollId, options: seq<string>)
    requires LedgerInv(db) && Distinct(options)
    ensures SumTally(db, id, options) == |VotersAmong(db, id, options)|
  {
    if options == [] {
      assert VotersAmong(db, id, options) == {};
    } else {
      var o, rest := options[0], options[1..];
      SumOverOptions(db, id, rest);
      TallyCountsSupporters(db, id, o);
      var a, b := Supporters(db, id, o), VotersAmong(db, id, rest);
      assert VotersAmong(db, id, options) == a + b;
      assert a !! b;
    }
  }

  /** A poll's counts add up to its number of voters, for any list naming each counted option once. */
  lemma TallySumsToVoters(db: Db, id: PollId, options: seq<string>)
    requires LedgerInv(db) && Distinct(options)
    requires forall o :: (id, o) in db.tally ==> o in options
    ensures SumTally(db, id, options) == |VotersOf(db, id)|
  {
    SumOverOptions(db, id, options);
    forall v | v in VotersOf(db, id)
      ensures v in VotersAmong(db, id, options)
    {
      assert (v.0, db.history[v]) in db.tally;
    }
    assert VotersAmong(db, id, options) == VotersOf(db, id);
  }

  /** Retracting the vote just cast restores counts, voters and histories exactly. */
  lemma RetractInvertsCast(db: Db, id: PollId, user: UserId, option: string)
    requires (id, user) !in db.voters && (id, user) !in db.history
    requires (id, option) in db.tally && db.tally[(id, option)] >= 0
    ensures RetractVote(CastVote(db, id, user, option), id, user, option) == db
  {
    var d := CastVote(db, id, user, option);
    assert d.history - {(id, user)} == db.history;
    assert d.voters - {(id, user)} == db.voters;
    assert d.tally[(id, option) := db.tally[(id, option)]] == db.tally;
  }

  /**
   After a successful vote, the same user's undo succeeds exactly while its key is unused and the poll is
   still open to the scripts, and then nothing but idempotency keys differs from before the vote.
   */
  lemma UndoInvertsVote(db: Db, id: PollId, user: UserId, option: string, key: string, undoKey: string,
                        now: int, later: int)
    requires LedgerInv(db)
    requires VoteScript(db, id, user, option, key, now).0 == OK
    ensures var d := VoteScript(db, id, user, option, key, now).1;
            var r := UndoScript(d, id, user, undoKey, later);
            && (r.0 == OK <==> !Repeated(d, user, undoKey, later) && !db.meta[id].Shut(later))
            && (r.0 == OK ==> r.1 == db.(idem := r.1.idem))
  {
    var c := CastVote(db, id, user, option);
    var d := SetIdem(c, user, key, now);
    assert db.tally[(id, option)] == |Supporters(db, id, option)|;
    RetractInvertsCast(db, id, user, option);
    assert RetractVote(d, id, user, option) == RetractVote(c, id, user, option).(idem := d.idem);
  }

  /** Exactly when a vote is counted. */
  lemma VoteOutcome(db: Db, id: PollId, user: UserId, option: string, key: string, now: int)
    requires LedgerInv(db)
    ensures VoteScript(db, id, user, option, key, now).0 == OK <==>
      && !Repeated(db, user, key, now) && Live(db, id) && !db.meta[id].Shut(now)
      && (id, user) !in db.history && option in db.options[id]
  {
  }
}
