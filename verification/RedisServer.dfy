/**
 The flat, text-valued Redis server and the code that runs on it, command by command: the two Lua scripts and the
 store's Go methods. Each is proved to do on the flat keyspace what the ledger's function does on the typed data.
 */
module RedisServer {
  import opened Common
  import opened Ledger
  import opened Encoding
  import Keys
  import Decimal
  import Protocol
  import Calls

  predicate IsHash(keys: Keyspace, name: string) {
    name in keys ==> keys[name].Hash?
  }

  predicate IsMembers(keys: Keyspace, name: string) {
    name in keys ==> keys[name].Members?
  }

  predicate IsScored(keys: Keyspace, name: string) {
    name in keys ==> keys[name].Scored?
  }

  predicate IsText(keys: Keyspace, name: string) {
    name in keys ==> keys[name].Text?
  }

  function HashAt(keys: Keyspace, name: string): map<string, string>
    requires IsHash(keys, name)
  {
    if name in keys then keys[name].fields else map[]
  }

  function MembersAt(keys: Keyspace, name: string): set<string>
    requires IsMembers(keys, name)
  {
    if name in keys then keys[name].members else {}
  }

  function ScoresAt(keys: Keyspace, name: string): map<string, int>
    requires IsScored(keys, name)
  {
    if name in keys then keys[name].scores else map[]
  }

  function CountsOf(tally: map<(PollId, string), int>, id: PollId): map<string, int> {
    map q | q in tally && q.0 == id :: q.1 := tally[q]
  }

  /** What getPoll returns for a poll's typed data. */
  function ReadPoll(db: Db, id: PollId, now: int): Option<Poll> {
    if id !in db.meta then None
    else
      var options := OptionsOf(db.options, id);
      var votes := CountsOf(db.tally, id);
      match db.meta[id]
      case Full(question, createdBy, updatedBy, createdAt, expiresAt, _, isPublic) =>
        Some(Poll(id, question, options, votes, createdBy, updatedBy, createdAt * NANOS, expiresAt * NANOS,
                  db.meta[id].ReadsClosed(now), isPublic))
      case Stub(updatedBy) =>
        Some(Poll("", "", options, votes, "", updatedBy, 0, 0, true, false))
  }

  /** What Vote and UndoVote make of a script's code: success and a repeated key bring the poll as it now reads. */
  function Reply(code: Code, db: Db, id: PollId, now: int): (Code, Option<Poll>) {
    if code != OK && code != Noop then (code, None)
    else
      var p := ReadPoll(db, id, now);
      (if p.Some? then OK else NotFound, p)
  }

  // What kind of value lies under each name, and what it is.

  lemma HashUnder(keys: Keyspace, name: string, h: map<string, string>)
    requires Get(keys, name) == HashOrNone(h)
    ensures IsHash(keys, name) && HashAt(keys, name) == h
  {
  }

  lemma MembersUnder(keys: Keyspace, name: string, m: set<string>)
    requires Get(keys, name) == MembersOrNone(m)
    ensures IsMembers(keys, name) && MembersAt(keys, name) == m
  {
  }

  lemma ScoresUnder(keys: Keyspace, name: string, z: map<string, int>)
    requires Get(keys, name) == ScoredOrNone(z)
    ensures IsScored(keys, name) && ScoresAt(keys, name) == z
  {
  }

  lemma MetaLayout(keys: Keyspace, db: Db, id: PollId)
    requires Holds(keys, db) && Keys.Askable(id)
    ensures var n := Keys.Name(Keys.PollMeta(id));
            && IsHash(keys, n) && (n in keys <==> id in db.meta)
            && HashAt(keys, n) == if id in db.meta then MetaHash(id, db.meta[id]) else map[]
  {
    assert View(db, Keys.PollMeta(id)) == Get(keys, Keys.Name(Keys.PollMeta(id)));
  }

  /** What the scripts read of a poll's metadata. */
  lemma GateFields(keys: Keyspace, db: Db, id: PollId)
    requires Holds(keys, db) && Keys.Askable(id)
    ensures var n := Keys.Name(Keys.PollMeta(id));
            && IsHash(keys, n) && (n in keys <==> id in db.meta)
            && (id in db.meta ==>
                  && (("is_closed" in HashAt(keys, n) && HashAt(keys, n)["is_closed"] == "true") <==>
                        db.meta[id].Stub? || db.meta[id].isClosed)
                  && ("expires_at" in HashAt(keys, n) <==> db.meta[id].Full?)
                  && (db.meta[id].Full? ==>
                        Decimal.ParseOrZero(HashAt(keys, n)["expires_at"]) == db.meta[id].expiresAt))
  {
    MetaLayout(keys, db, id);
    if Live(db, id) {
      Decimal.ParsePrint(db.meta[id].expiresAt);
    }
  }

  lemma OptionsLayout(keys: Keyspace, db: Db, id: PollId)
    requires Holds(keys, db) && Keys.Askable(id)
    ensures var n := Keys.Name(Keys.PollOptions(id));
            IsHash(keys, n) && HashAt(keys, n) == OptionHash(OptionsOf(db.options, id))
  {
    assert View(db, Keys.PollOptions(id)) == Get(keys, Keys.Name(Keys.PollOptions(id)));
    HashUnder(keys, Keys.Name(Keys.PollOptions(id)), OptionHash(OptionsOf(db.options, id)));
  }

  lemma VotesLayout(keys: Keyspace, db: Db, id: PollId)
    requires Holds(keys, db) && Keys.Askable(id)
    ensures var n := Keys.Name(Keys.PollVotes(id));
            IsHash(keys, n) && HashAt(keys, n) == TallyHash(db.tally, id)
  {
    assert View(db, Keys.PollVotes(id)) == Get(keys, Keys.Name(Keys.PollVotes(id)));
    HashUnder(keys, Keys.Name(Keys.PollVotes(id)), TallyHash(db.tally, id));
  }

  lemma VotersLayout(keys: Keyspace, db: Db, id: PollId)
    requires Holds(keys, db) && Keys.Askable(id)
    ensures var n := Keys.Name(Keys.PollVoters(id));
            IsMembers(keys, n) && MembersAt(keys, n) == VoterSet(db.voters, id)
  {
    assert View(db, Keys.PollVoters(id)) == Get(keys, Keys.Name(Keys.PollVoters(id)));
    MembersUnder(keys, Keys.Name(Keys.PollVoters(id)), VoterSet(db.voters, id));
  }

  lemma HistoryLayout(keys: Keyspace, db: Db, user: UserId)
    requires Holds(keys, db)
    ensures var n := Keys.Name(Keys.UserVotes(user));
            IsHash(keys, n) && HashAt(keys, n) == HistoryHash(db.history, user)
  {
    assert View(db, Keys.UserVotes(user)) == Get(keys, Keys.Name(Keys.UserVotes(user)));
    HashUnder(keys, Keys.Name(Keys.UserVotes(user)), HistoryHash(db.history, user));
  }

  lemma IdemLayout(keys: Keyspace, db: Db, user: UserId, key: string)
    requires Holds(keys, db)
    ensures var n := Keys.IdemKey(user, key);
            && IsText(keys, n) && (n in keys <==> n in db.idem)
            && (n in keys ==> keys[n] == Text("1", db.idem[n]))
  {
    Keys.IdemNameWellFormed(user, key);
    var k := Keys.Idem(Keys.IdemKey(user, key));
    assert View(db, k) == Get(keys, Keys.Name(k));
  }

  lemma IndexLayout(keys: Keyspace, db: Db)
    requires Holds(keys, db)
    ensures IsMembers(keys, Keys.Name(Keys.PollsIndex))
    ensures MembersAt(keys, Keys.Name(Keys.PollsIndex)) == db.index
    ensures IsMembers(keys, Keys.Name(Keys.PollsPublicIndex))
    ensures MembersAt(keys, Keys.Name(Keys.PollsPublicIndex)) == db.publicIndex
  {
    assert View(db, Keys.PollsIndex) == Get(keys, Keys.Name(Keys.PollsIndex));
    assert View(db, Keys.PollsPublicIndex) == Get(keys, Keys.Name(Keys.PollsPublicIndex));
  }

  lemma CreatedLayout(keys: Keyspace, db: Db, user: UserId)
    requires Holds(keys, db)
    ensures var n := Keys.Name(Keys.UserCreated(user));
            IsScored(keys, n) && ScoresAt(keys, n) == CreatedScores(db.created, user)
  {
    assert View(db, Keys.UserCreated(user)) == Get(keys, Keys.Name(Keys.UserCreated(user)));
    ScoresUnder(keys, Keys.Name(Keys.UserCreated(user)), CreatedScores(db.created, user));
  }

  lemma CountText(db: Db, id: PollId, option: string)
    ensures var h := TallyHash(db.tally, id);
            (if option in h then Decimal.ParseOrZero(h[option]) else 0) == TallyAt(db, id, option)
  {
    TallyField(db.tally, id, option);
    Decimal.ParsePrint(TallyAt(db, id, option));
  }

  lemma HashPlusOne(h: map<string, string>, field: string, value: string)
    ensures HashOrNone(h + map[field := value]) == Some(Hash(h[field := value]))
    ensures HashOrNone(h[field := value]) == Some(Hash(h[field := value]))
  {
    assert h + map[field := value] == h[field := value];
    assert field in h[field := value];
  }

  function FieldOr(h: map<string, string>, field: string): string {
    if field in h then h[field] else ""
  }

  /** The poll getPoll builds from the three hashes it reads. */
  function BuildPoll(m: map<string, string>, options: seq<string>, votes: map<string, int>, now: int): Poll {
    var createdAt := Decimal.ParseOrZero(FieldOr(m, "created_at"));
    var expiresAt := Decimal.ParseOrZero(FieldOr(m, "expires_at"));
    Poll(FieldOr(m, "id"), FieldOr(m, "question"), options, votes, FieldOr(m, "created_by"), FieldOr(m, "updated_by"),
         createdAt * NANOS, expiresAt * NANOS,
         FieldOr(m, "is_closed") == "true" || now > expiresAt * NANOS, FieldOr(m, "is_public") == "true")
  }

  lemma TextFields(id: PollId, m: Meta)
    requires m.Full?
    ensures var h := MetaHash(id, m);
            && "id" in h && FieldOr(h, "id") == id && FieldOr(h, "question") == m.question
            && FieldOr(h, "created_by") == m.createdBy && FieldOr(h, "updated_by") == m.updatedBy
  {
  }

  lemma TimeFields(id: PollId, m: Meta)
    requires m.Full?
    ensures var h := MetaHash(id, m);
            && FieldOr(h, "created_at") == Decimal.Print(m.createdAt)
            && FieldOr(h, "expires_at") == Decimal.Print(m.expiresAt)
  {
  }

  lemma FlagFields(id: PollId, m: Meta)
    requires m.Full?
    ensures var h := MetaHash(id, m);
            && (FieldOr(h, "is_closed") == "true" <==> m.isClosed)
            && (FieldOr(h, "is_public") == "true" <==> m.isPublic)
  {
    assert "true" != "false";
  }

  lemma FullFields(id: PollId, m: Meta)
    requires m.Full?
    ensures var h := MetaHash(id, m);
            && h != map[] && FieldOr(h, "id") == id && FieldOr(h, "question") == m.question
            && FieldOr(h, "created_by") == m.createdBy && FieldOr(h, "updated_by") == m.updatedBy
            && Decimal.ParseOrZero(FieldOr(h, "created_at")) == m.createdAt
            && Decimal.ParseOrZero(FieldOr(h, "expires_at")) == m.expiresAt
            && (FieldOr(h, "is_closed") == "true" <==> m.isClosed)
            && (FieldOr(h, "is_public") == "true" <==> m.isPublic)
  {
    TextFields(id, m);
    TimeFields(id, m);
    FlagFields(id, m);
    Decimal.ParsePrint(m.createdAt);
    Decimal.ParsePrint(m.expiresAt);
  }

  lemma StubFields(id: PollId, m: Meta)
    requires m.Stub?
    ensures var h := MetaHash(id, m);
            && h != map[] && FieldOr(h, "id") == "" && FieldOr(h, "question") == ""
            && FieldOr(h, "created_by") == "" && FieldOr(h, "updated_by") == m.updatedBy
            && FieldOr(h, "created_at") == "" && FieldOr(h, "expires_at") == ""
            && FieldOr(h, "is_closed") == "true" && FieldOr(h, "is_public") == ""
  {
    assert "is_closed" in MetaHash(id, m);
  }

  /** getPoll's assembly gives back the typed poll. */
  lemma BuildsReadPoll(db: Db, id: PollId, now: int)
    requires id in db.meta
    ensures MetaHash(id, db.meta[id]) != map[]
    ensures ReadPoll(db, id, now)
         == Some(BuildPoll(MetaHash(id, db.meta[id]), OptionsOf(db.options, id), CountsOf(db.tally, id), now))
  {
    if db.meta[id].Full? {
      FullFields(id, db.meta[id]);
    } else {
      StubFields(id, db.meta[id]);
    }
  }

  lemma CountField(tally: map<(PollId, string), int>, id: PollId, option: string)
    ensures option in CountsOf(tally, id) <==> (id, option) in tally
    ensures (id, option) in tally ==> CountsOf(tally, id)[option] == tally[(id, option)]
  {
    if (id, option) in tally {
      assert (id, option).1 in CountsOf(tally, id);
    }
  }

  /** The parsed counts are the counts. */
  lemma ParsedCounts(tally: map<(PollId, string), int>, id: PollId, votes: map<string, int>)
    requires votes.Keys == TallyHash(tally, id).Keys
    requires forall o :: o in votes ==> votes[o] == Decimal.ParseOrZero(TallyHash(tally, id)[o])
    ensures votes == CountsOf(tally, id)
  {
    forall o
      ensures o in votes <==> o in CountsOf(tally, id)
      ensures o in votes ==> votes[o] == CountsOf(tally, id)[o]
    {
      TallyField(tally, id, o);
      CountField(tally, id, o);
      if o in votes {
        Decimal.ParsePrint(tally[(id, o)]);
      }
    }
  }

  /** What ClosePoll's HSET makes of the metadata hash. */
  lemma ClosedFields(db: Db, id: PollId, user: UserId)
    ensures var h := if id in db.meta then MetaHash(id, db.meta[id]) else map[];
            var fields := map["is_closed" := "true", "updated_by" := user];
            HashOrNone(h + fields) == Some(Hash(MetaHash(id, MarkClosed(db, id, user).meta[id])))
  {
    var h := if id in db.meta then MetaHash(id, db.meta[id]) else map[];
    var fields := map["is_closed" := "true", "updated_by" := user];
    assert "is_closed" in h + fields;
    assert h + fields == MetaHash(id, MarkClosed(db, id, user).meta[id]);
  }

  class Redis {
    var keys: Keyspace
    var now: int

    constructor (now: int)
      ensures keys == map[] && this.now == now
      ensures Holds(keys, EMPTY_DB)
    {
      keys := map[];
      this.now := now;
    }

    // ---------- Commands ----------

    /** EXISTS */
    method Exists(name: string) returns (there: bool)
      ensures there <==> name in keys
    {
      there := name in keys;
    }

    /** GET: an expired string reads as missing. */
    method GetText(name: string) returns (v: Option<string>)
      requires IsText(keys, name)
      ensures v == if name in keys && now <= keys[name].expiry then Some(keys[name].text) else None
    {
      if name in keys && now <= keys[name].expiry {
        v := Some(keys[name].text);
      } else {
        v := None;
      }
    }

    /** SETEX, and SET with an expiry */
    method SetEx(name: string, ttl: int, text: string)
      modifies this`keys
      ensures keys == Place(old(keys), name, Some(Text(text, now + ttl)))
    {
      keys := keys[name := Text(text, now + ttl)];
    }

    /** HGETALL */
    method HGetAll(name: string) returns (h: map<string, string>)
      requires IsHash(keys, name)
      ensures h == HashAt(keys, name)
    {
      h := if name in keys then keys[name].fields else map[];
    }

    /** HGET */
    method HGet(name: string, field: string) returns (v: Option<string>)
      requires IsHash(keys, name)
      ensures v == if field in HashAt(keys, name) then Some(HashAt(keys, name)[field]) else None
    {
      var h := HGetAll(name);
      v := if field in h then Some(h[field]) else None;
    }

    /** HSET with any number of fields */
    method HSet(name: string, fields: map<string, string>)
      requires IsHash(keys, name)
      modifies this`keys
      ensures keys == Place(old(keys), name, HashOrNone(HashAt(old(keys), name) + fields))
    {
      var h := HGetAll(name);
      keys := Place(keys, name, HashOrNone(h + fields));
    }

    /** HDEL */
    method HDel(name: string, field: string)
      requires IsHash(keys, name)
      modifies this`keys
      ensures keys == Place(old(keys), name, HashOrNone(HashAt(old(keys), name) - {field}))
    {
      var h := HGetAll(name);
      keys := Place(keys, name, HashOrNone(h - {field}));
    }

    /** HINCRBY: a missing field counts from zero; the new value is returned. */
    method HIncrBy(name: string, field: string, delta: int) returns (n: int)
      requires IsHash(keys, name)
      modifies this`keys
      ensures var h := HashAt(old(keys), name);
              && n == (if field in h then Decimal.ParseOrZero(h[field]) else 0) + delta
              && keys == Place(old(keys), name, Some(Hash(h[field := Decimal.Print(n)])))
    {
      var h := HGetAll(name);
      n := (if field in h then Decimal.ParseOrZero(h[field]) else 0) + delta;
      keys := keys[name := Hash(h[field := Decimal.Print(n)])];
    }

    /** SISMEMBER */
    method SIsMember(name: string, member: string) returns (b: bool)
      requires IsMembers(keys, name)
      ensures b <==> member in MembersAt(keys, name)
    {
      b := name in keys && member in keys[name].members;
    }

    /** SADD */
    method SAdd(name: string, member: string)
      requires IsMembers(keys, name)
      modifies this`keys
      ensures keys == Place(old(keys), name, MembersOrNone(MembersAt(old(keys), name) + {member}))
    {
      keys := Place(keys, name, MembersOrNone((if name in keys then keys[name].members else {}) + {member}));
    }

    /** SREM */
    method SRem(name: string, member: string)
      requires IsMembers(keys, name)
      modifies this`keys
      ensures keys == Place(old(keys), name, MembersOrNone(MembersAt(old(keys), name) - {member}))
    {
      keys := Place(keys, name, MembersOrNone((if name in keys then keys[name].members else {}) - {member}));
    }

    /** ZADD */
    method ZAdd(name: string, score: int, member: string)
      requires IsScored(keys, name)
      modifies this`keys
      ensures keys == Place(old(keys), name, ScoredOrNone(ScoresAt(old(keys), name)[member := score]))
    {
      keys := Place(keys, name, ScoredOrNone((if name in keys then keys[name].scores else map[])[member := score]));
    }

    /** ZREM */
    method ZRem(name: string, member: string)
      requires IsScored(keys, name)
      modifies this`keys
      ensures keys == Place(old(keys), name, ScoredOrNone(ScoresAt(old(keys), name) - {member}))
    {
      keys := Place(keys, name, ScoredOrNone((if name in keys then keys[name].scores else map[]) - {member}));
    }

    /** DEL of one key */
    method Del(name: string)
      modifies this`keys
      ensures keys == old(keys) - {name}
    {
      keys := keys - {name};
    }

    // ---------- Scripts ----------

    /** The opening both scripts share: the key, existence, the flag, the deadline. `OK` lets the script go on. */
    method ScriptGate(id: PollId, user: UserId, key: string, ghost db: Db) returns (code: Code)
      requires Keys.Askable(id) && Holds(keys, db)
      ensures code == if Repeated(db, user, key, now) then Noop
                      else if id !in db.meta then NotFound
                      else if db.meta[id].Shut(now) then Forbidden
                      else OK
    {
      IdemLayout(keys, db, user, key);
      GateFields(keys, db, id);
      if key != "" {
        var seen := GetText(Keys.IdemKey(user, key));
        if seen.Some? {
          return Noop;
        }
      }
      var meta := Keys.Name(Keys.PollMeta(id));
      var there := Exists(meta);
      if !there {
        return NotFound;
      }
      var closed := HGet(meta, "is_closed");
      if closed == Some("true") {
        return Forbidden;
      }
      var expiresAt := HGet(meta, "expires_at");
      if expiresAt.Some? {
        if Unix(now) > Decimal.ParseOrZero(expiresAt.value) {
          return Forbidden;
        }
      }
      return OK;
    }

    /** voteScript */
    method RunVoteScript(id: PollId, user: UserId, option: string, key: string, ghost db: Db) returns (code: Code)
      requires Keys.Askable(id) && PlainPolls(db) && Holds(keys, db)
      modifies this`keys
      ensures code == VoteScript(db, id, user, option, key, now).0
      ensures Holds(keys, VoteScript(db, id, user, option, key, now).1)
    {
      code := ScriptGate(id, user, key, db);
      if code != OK {
        return;
      }
      VotersLayout(keys, db, id);
      VotesLayout(keys, db, id);
      VoterMember(db.voters, id, user);
      var voted := SIsMember(Keys.Name(Keys.PollVoters(id)), user);
      if voted {
        return Conflict;
      }
      TallyField(db.tally, id, option);
      var known := HGet(Keys.Name(Keys.PollVotes(id)), option);
      if known.None? {
        return Invalid;
      }
      CastOnServer(id, user, option, db);
      SetIdemKey(user, key, CastVote(db, id, user, option));
    }

    /** HINCRBY on an option's count. */
    method AddToCount(id: PollId, option: string, delta: int, ghost db: Db) returns (n: int)
      requires Keys.ColonFree(id) && Holds(keys, db)
      modifies this`keys
      ensures n == TallyAt(db, id, option) + delta
      ensures Holds(keys, db.(tally := db.tally[(id, option) := n]))
    {
      VotesLayout(keys, db, id);
      CountText(db, id, option);
      WithCount(keys, db, id, option, TallyAt(db, id, option) + delta);
      n := HIncrBy(Keys.Name(Keys.PollVotes(id)), option, delta);
    }

    /** HSET of an option's count. */
    method SetCount(id: PollId, option: string, n: int, ghost db: Db)
      requires Keys.ColonFree(id) && Holds(keys, db)
      modifies this`keys
      ensures Holds(keys, db.(tally := db.tally[(id, option) := n]))
    {
      VotesLayout(keys, db, id);
      WithCount(keys, db, id, option, n);
      HashPlusOne(TallyHash(db.tally, id), option, Decimal.Print(n));
      HSet(Keys.Name(Keys.PollVotes(id)), map[option := Decimal.Print(n)]);
    }

    /** HSET of a user's choice. */
    method RecordChoice(id: PollId, user: UserId, option: string, ghost db: Db)
      requires Holds(keys, db)
      modifies this`keys
      ensures Holds(keys, db.(history := db.history[(id, user) := option]))
    {
      HistoryLayout(keys, db, user);
      HistorySet(db.history, id, user, option);
      WithHistory(keys, db, user, db.history[(id, user) := option]);
      HashPlusOne(HistoryHash(db.history, user), id, option);
      HSet(Keys.Name(Keys.UserVotes(user)), map[id := option]);
    }

    /** SADD of a voter. */
    method AddVoter(id: PollId, user: UserId, ghost db: Db)
      requires Keys.ColonFree(id) && Holds(keys, db)
      modifies this`keys
      ensures Holds(keys, db.(voters := db.voters + {(id, user)}))
    {
      VotersLayout(keys, db, id);
      VoterSetChange(db.voters, id, user);
      WithVoters(keys, db, id, db.voters + {(id, user)});
      SAdd(Keys.Name(Keys.PollVoters(id)), user);
    }

    /** SREM of a voter. */
    method RemoveVoter(id: PollId, user: UserId, ghost db: Db)
      requires Keys.ColonFree(id) && Holds(keys, db)
      modifies this`keys
      ensures Holds(keys, db.(voters := db.voters - {(id, user)}))
    {
      VotersLayout(keys, db, id);
      VoterSetChange(db.voters, id, user);
      WithVoters(keys, db, id, db.voters - {(id, user)});
      SRem(Keys.Name(Keys.PollVoters(id)), user);
    }

    /** SADD, HINCRBY, HSET of a vote that passed every check. */
    method CastOnServer(id: PollId, user: UserId, option: string, ghost db: Db)
      requires Keys.ColonFree(id) && Holds(keys, db)
      modifies this`keys
      ensures Holds(keys, CastVote(db, id, user, option))
    {
      AddVoter(id, user, db);
      ghost var d1 := db.(voters := db.voters + {(id, user)});
      var n := AddToCount(id, option, 1, d1);
      RecordChoice(id, user, option, d1.(tally := d1.tally[(id, option) := n]));
    }

    /** undoScript */
    method RunUndoScript(id: PollId, user: UserId, key: string, ghost db: Db) returns (code: Code)
      requires Keys.Askable(id) && PlainPolls(db) && Holds(keys, db)
      modifies this`keys
      ensures code == UndoScript(db, id, user, key, now).0
      ensures Holds(keys, UndoScript(db, id, user, key, now).1)
    {
      code := ScriptGate(id, user, key, db);
      if code != OK {
        return;
      }
      VotersLayout(keys, db, id);
      HistoryLayout(keys, db, user);
      VoterMember(db.voters, id, user);
      var voted := SIsMember(Keys.Name(Keys.PollVoters(id)), user);
      if !voted {
        return Conflict;
      }
      HistoryField(db.history, user, id);
      var option := HGet(Keys.Name(Keys.UserVotes(user)), id);
      if option.None? {
        return Conflict;
      }
      RetractOnServer(id, user, option.value, db);
      SetIdemKey(user, key, RetractVote(db, id, user, option.value));
    }

    /** SREM, HINCRBY with the clamp, HDEL of an undo that passed every check. */
    method RetractOnServer(id: PollId, user: UserId, option: string, ghost db: Db)
      requires Keys.ColonFree(id) && Holds(keys, db)
      modifies this`keys
      ensures Holds(keys, RetractVote(db, id, user, option))
    {
      RemoveVoter(id, user, db);
      ghost var d1 := db.(voters := db.voters - {(id, user)});
      var n := AddToCount(id, option, -1, d1);
      ghost var d2 := d1.(tally := d1.tally[(id, option) := n]);
      if n < 0 {
        SetCount(id, option, 0, d2);
        assert d2.tally[(id, option) := 0] == d1.tally[(id, option) := 0];
        ForgetChoice(id, user, d2.(tally := d2.tally[(id, option) := 0]));
      } else {
        ForgetChoice(id, user, d2);
      }
    }

    /** HDEL of a user's choice. */
    method ForgetChoice(id: PollId, user: UserId, ghost db: Db)
      requires Holds(keys, db)
      modifies this`keys
      ensures Holds(keys, db.(history := db.history - {(id, user)}))
    {
      HistoryLayout(keys, db, user);
      HistoryDel(db.history, id, user);
      WithHistory(keys, db, user, db.history - {(id, user)});
      HDel(Keys.Name(Keys.UserVotes(user)), id);
    }

    // ---------- Store methods ----------

    /** idemOK */
    method IdemOK(user: UserId, key: string, ghost db: Db) returns (ok: bool)
      requires Holds(keys, db)
      ensures ok <==> !Repeated(db, user, key, now)
    {
      if key == "" {
        return true;
      }
      IdemLayout(keys, db, user, key);
      var v := GetText(Keys.IdemKey(user, key));
      ok := v.None?;
    }

    /** setIdem, and the SETEX with which both scripts end */
    method SetIdemKey(user: UserId, key: string, ghost db: Db)
      requires Holds(keys, db)
      modifies this`keys
      ensures Holds(keys, SetIdem(db, user, key, now))
    {
      if key != "" {
        WithIdem(keys, db, user, key, now + IDEM_TTL);
        SetEx(Keys.IdemKey(user, key), IDEM_TTL, "1");
      }
    }

    /** getPoll */
    method GetPoll(id: PollId, ghost db: Db) returns (p: Option<Poll>)
      requires Keys.Askable(id) && Holds(keys, db)
      ensures p == ReadPoll(db, id, now)
    {
      MetaLayout(keys, db, id);
      var m := HGetAll(Keys.Name(Keys.PollMeta(id)));
      if m == map[] {
        if id in db.meta {
          BuildsReadPoll(db, id, now);
        }
        return None;
      }
      BuildsReadPoll(db, id, now);
      var options := ReadOptions(id, db);
      var votes := ReadCounts(id, db);
      p := Some(BuildPoll(m, options, votes, now));
    }

    /** The options in order of their position fields. */
    method ReadOptions(id: PollId, ghost db: Db) returns (options: seq<string>)
      requires Keys.Askable(id) && Holds(keys, db)
      ensures options == OptionsOf(db.options, id)
    {
      OptionsLayout(keys, db, id);
      var h := HGetAll(Keys.Name(Keys.PollOptions(id)));
      ghost var stored := OptionsOf(db.options, id);
      assert |h| == |stored| by {
        OptionFields(stored);
      }
      options := [];
      var i := 0;
      while i < |h|
        invariant 0 <= i <= |h| == |stored|
        invariant options == stored[..i]
      {
        OptionAt(stored, i);
        var field := Decimal.Print(i);
        if field in h {
          options := options + [h[field]];
        }
        assert stored[..i + 1] == stored[..i] + [stored[i]];
        i := i + 1;
      }
    }

    /** The counts, parsed field by field. */
    method ReadCounts(id: PollId, ghost db: Db) returns (votes: map<string, int>)
      requires Keys.Askable(id) && Holds(keys, db)
      ensures votes == CountsOf(db.tally, id)
    {
      VotesLayout(keys, db, id);
      var h := HGetAll(Keys.Name(Keys.PollVotes(id)));
      votes := map[];
      var left := h.Keys;
      while left != {}
        invariant left <= h.Keys && votes.Keys == h.Keys - left
        invariant forall o :: o in votes ==> votes[o] == Decimal.ParseOrZero(h[o])
        decreases left
      {
        var o :| o in left;
        votes := votes[o := Decimal.ParseOrZero(h[o])];
        left := left - {o};
      }
      ParsedCounts(db.tally, id, votes);
    }

    /** Vote: the script, then for a success or a repeated key the poll as it now reads. */
    method Vote(id: PollId, user: UserId, option: string, key: string, ghost db: Db)
      returns (code: Code, p: Option<Poll>)
      requires Keys.Askable(id) && PlainPolls(db) && Holds(keys, db)
      modifies this`keys
      ensures var r := VoteScript(db, id, user, option, key, now);
              Holds(keys, r.1) && (code, p) == Reply(r.0, r.1, id, now)
    {
      code := RunVoteScript(id, user, option, key, db);
      p := None;
      if code == OK || code == Noop {
        p := GetPoll(id, VoteScript(db, id, user, option, key, now).1);
        code := if p.Some? then OK else NotFound;
      }
    }

    /** UndoVote */
    method UndoVote(id: PollId, user: UserId, key: string, ghost db: Db) returns (code: Code, p: Option<Poll>)
      requires Keys.Askable(id) && PlainPolls(db) && Holds(keys, db)
      modifies this`keys
      ensures var r := UndoScript(db, id, user, key, now);
              Holds(keys, r.1) && (code, p) == Reply(r.0, r.1, id, now)
    {
      code := RunUndoScript(id, user, key, db);
      p := None;
      if code == OK || code == Noop {
        p := GetPoll(id, UndoScript(db, id, user, key, now).1);
        code := if p.Some? then OK else NotFound;
      }
    }

    /** ClosePoll's HSET */
    method MarkClosedOnServer(id: PollId, user: UserId, ghost db: Db)
      requires Keys.ColonFree(id) && Holds(keys, db)
      modifies this`keys
      ensures Holds(keys, MarkClosed(db, id, user))
    {
      MetaLayout(keys, db, id);
      ClosedFields(db, id, user);
      WithMeta(keys, db, id, MarkClosed(db, id, user).meta[id]);
      HSet(Keys.Name(Keys.PollMeta(id)), map["is_closed" := "true", "updated_by" := user]);
    }

    /** ClosePoll, uninterrupted */
    method ClosePoll(id: PollId, user: UserId, key: string, ghost db: Db) returns (code: Code, p: Option<Poll>)
      requires Keys.Askable(id) && PlainPolls(db) && Holds(keys, db)
      modifies this`keys
      ensures var r := Calls.Call(Protocol.Close, db, id, user, key, now);
              && code == r.0 && Holds(keys, r.1)
              && (code == OK ==> p == ReadPoll(r.1, id, now))
    {
      p := GetPoll(id, db);
      if p.None? {
        return NotFound, p;
      }
      if p.value.createdBy != user {
        return Forbidden, None;
      }
      if p.value.isClosed {
        return OK, p;
      }
      var ok := IdemOK(user, key, db);
      if !ok {
        return OK, p;
      }
      MarkClosedOnServer(id, user, db);
      SetIdemKey(user, key, MarkClosed(db, id, user));
      p := GetPoll(id, SetIdem(MarkClosed(db, id, user), user, key, now));
      code := OK;
    }

    /** DeletePoll's DEL of the four poll keys */
    method DropPollOnServer(id: PollId, ghost db: Db)
      requires Keys.ColonFree(id) && Holds(keys, db)
      modifies this`keys
      ensures Holds(keys, DropPoll(db, id))
    {
      WithoutMeta(keys, db, id);
      Del(Keys.Name(Keys.PollMeta(id)));
      ghost var d1 := db.(meta := db.meta - {id});
      WithoutOptions(keys, d1, id);
      Del(Keys.Name(Keys.PollOptions(id)));
      ghost var d2 := d1.(options := d1.options - {id});
      WithoutCounts(keys, d2, id);
      Del(Keys.Name(Keys.PollVotes(id)));
      ghost var d3 := d2.(tally := map q | q in d2.tally && q.0 != id :: d2.tally[q]);
      WithoutVoters(keys, d3, id);
      Del(Keys.Name(Keys.PollVoters(id)));
    }

    /** SREM from the index of all polls */
    method RemoveFromIndex(id: PollId, ghost db: Db)
      requires Holds(keys, db)
      modifies this`keys
      ensures Holds(keys, db.(index := db.index - {id}))
    {
      IndexLayout(keys, db);
      WithIndex(keys, db, db.index - {id});
      SRem(Keys.Name(Keys.PollsIndex), id);
    }

    /** SREM from the index of public polls */
    method RemoveFromPublic(id: PollId, ghost db: Db)
      requires Holds(keys, db)
      modifies this`keys
      ensures Holds(keys, db.(publicIndex := db.publicIndex - {id}))
    {
      IndexLayout(keys, db);
      WithPublicIndex(keys, db, db.publicIndex - {id});
      SRem(Keys.Name(Keys.PollsPublicIndex), id);
    }

    /** ZREM from the user's sorted set of created polls */
    method RemoveFromCreated(id: PollId, user: UserId, ghost db: Db)
      requires Holds(keys, db)
      modifies this`keys
      ensures Holds(keys, db.(created := db.created - {(user, id)}))
    {
      CreatedLayout(keys, db, user);
      CreatedDel(db.created, user, id);
      WithCreated(keys, db, user, db.created - {(user, id)});
      ZRem(Keys.Name(Keys.UserCreated(user)), id);
    }

    /** The three index removals */
    method UnlistOnServer(id: PollId, user: UserId, ghost db: Db)
      requires Holds(keys, db)
      modifies this`keys
      ensures Holds(keys, Calls.Unlist(db, id, user))
    {
      RemoveFromIndex(id, db);
      ghost var d1 := db.(index := db.index - {id});
      RemoveFromPublic(id, d1);
      RemoveFromCreated(id, user, d1.(publicIndex := d1.publicIndex - {id}));
    }

    /** DeletePoll, uninterrupted */
    method DeletePoll(id: PollId, user: UserId, key: string, ghost db: Db) returns (code: Code)
      requires Keys.Askable(id) && PlainPolls(db) && Holds(keys, db)
      modifies this`keys
      ensures var r := Calls.Call(Protocol.Delete, db, id, user, key, now);
              code == r.0 && Holds(keys, r.1)
    {
      var p := GetPoll(id, db);
      if p.None? {
        return NotFound;
      }
      if p.value.createdBy != user {
        return Forbidden;
      }
      var ok := IdemOK(user, key, db);
      if !ok {
        return OK;
      }
      ghost var dropped := DropPoll(db, id);
      ghost var unlisted := Calls.Unlist(dropped, id, user);
      DropPollOnServer(id, db);
      UnlistOnServer(id, user, dropped);
      SetIdemKey(user, key, unlisted);
      code := OK;
    }

    /** CreatePoll's transaction; the id is fresh, so nothing is stored for it yet. */
    method CreatePoll(p: Poll, salt: nat, ghost db: Db) returns (created: Poll)
      requires Keys.ColonFree(p.id) && Holds(keys, db)
      requires p.id !in db.meta && p.id !in db.options && forall o :: (p.id, o) !in db.tally
      modifies this`keys
      ensures Holds(keys, CreateTx(db, p, salt))
      ensures created.votes == (map o | o in p.options :: 0) && created == p.(votes := created.votes)
    {
      MetaLayout(keys, db, p.id);
      NewMetaFields(p);
      WithMeta(keys, db, p.id, FullMeta(p));
      HSet(Keys.Name(Keys.PollMeta(p.id)), MetaHash(p.id, FullMeta(p)));
      ghost var d1 := db.(meta := db.meta[p.id := FullMeta(p)]);
      NoOptionsYet(keys, d1, p.id);
      NoneYet(d1, p);
      var i := 0;
      while i < |p.options|
        invariant 0 <= i <= |p.options|
        invariant Holds(keys, WithFirstOptions(d1, p, i))
      {
        AddOption(p, i, d1);
        i := i + 1;
      }
      ghost var d2 := WithFirstOptions(d1, p, |p.options|);
      ListNewPoll(p, salt, d2);
      AllOptionsSet(db, p);
      created := p.(votes := map o | o in p.options :: 0);
    }

    /** One round of the option loop: two HSETs. */
    method AddOption(p: Poll, i: nat, ghost db: Db)
      requires Keys.ColonFree(p.id) && i < |p.options| && Holds(keys, WithFirstOptions(db, p, i))
      modifies this`keys
      ensures Holds(keys, WithFirstOptions(db, p, i + 1))
    {
      ghost var d := WithFirstOptions(db, p, i);
      ghost var opts := p.options[..i + 1];
      OptionsLayout(keys, d, p.id);
      WithOptions(keys, d, p.id, opts);
      assert opts[..i] == p.options[..i];
      HashPlusOne(OptionHash(p.options[..i]), Decimal.Print(i), p.options[i]);
      HSet(Keys.Name(Keys.PollOptions(p.id)), map[Decimal.Print(i) := p.options[i]]);
      ghost var d1 := d.(options := d.options[p.id := opts]);
      SetCount(p.id, p.options[i], 0, d1);
      NextOption(db, p, i);
    }

    /** SADD, SADD if public, ZADD, DEL of the voter set */
    method ListNewPoll(p: Poll, salt: nat, ghost db: Db)
      requires Keys.ColonFree(p.id) && Holds(keys, db)
      modifies this`keys
      ensures Holds(keys, Listed(db, p, salt))
    {
      IndexLayout(keys, db);
      WithIndex(keys, db, db.index + {p.id});
      SAdd(Keys.Name(Keys.PollsIndex), p.id);
      ghost var d1 := db.(index := db.index + {p.id});
      if p.isPublic {
        IndexLayout(keys, d1);
        WithPublicIndex(keys, d1, d1.publicIndex + {p.id});
        SAdd(Keys.Name(Keys.PollsPublicIndex), p.id);
        d1 := d1.(publicIndex := d1.publicIndex + {p.id});
      }
      CreatedLayout(keys, d1, p.createdBy);
      CreatedSet(d1.created, p.createdBy, p.id, CreatedScore(p.createdAt, salt));
      WithCreated(keys, d1, p.createdBy, d1.created[(p.createdBy, p.id) := CreatedScore(p.createdAt, salt)]);
      ZAdd(Keys.Name(Keys.UserCreated(p.createdBy)), CreatedScore(p.createdAt, salt), p.id);
      ghost var d2 := d1.(created := d1.created[(p.createdBy, p.id) := CreatedScore(p.createdAt, salt)]);
      WithoutVoters(keys, d2, p.id);
      Del(Keys.Name(Keys.PollVoters(p.id)));
    }
  }

  /** After the first options of a new poll have been written. */
  ghost function WithFirstOptions(db: Db, p: Poll, n: nat): Db
    requires n <= |p.options|
  {
    db.(options := db.options[p.id := p.options[..n]],
        tally := db.tally + Zeros(p.id, p.options[..n]))
  }

  lemma ZeroField(id: PollId, options: seq<string>, q: (PollId, string))
    ensures q in Zeros(id, options) <==> q.0 == id && q.1 in options
    ensures q in Zeros(id, options) ==> Zeros(id, options)[q] == 0
  {
  }

  lemma NoneYet(db: Db, p: Poll)
    ensures WithFirstOptions(db, p, 0) == db.(options := db.options[p.id := []])
  {
    assert Zeros(p.id, []) == map[];
    assert p.options[..0] == [];
  }

  ghost function Listed(db: Db, p: Poll, salt: nat): Db {
    db.(index := db.index + {p.id},
        publicIndex := if p.isPublic then db.publicIndex + {p.id} else db.publicIndex,
        created := db.created[(p.createdBy, p.id) := CreatedScore(p.createdAt, salt)],
        voters := set v | v in db.voters && v.0 != p.id)
  }

  lemma NextZero(tally: map<(PollId, string), int>, id: PollId, options: seq<string>, i: nat)
    requires i < |options|
    ensures (tally + Zeros(id, options[..i]))[(id, options[i]) := 0] == tally + Zeros(id, options[..i + 1])
  {
    var a, b := (tally + Zeros(id, options[..i]))[(id, options[i]) := 0], tally + Zeros(id, options[..i + 1]);
    assert options[..i + 1] == options[..i] + [options[i]];
    forall q
      ensures q in a <==> q in b
      ensures q in a ==> a[q] == b[q]
    {
      ZeroField(id, options[..i], q);
      ZeroField(id, options[..i + 1], q);
    }
  }

  lemma NextOption(db: Db, p: Poll, i: nat)
    requires i < |p.options|
    ensures var d := WithFirstOptions(db, p, i);
            d.(options := d.options[p.id := p.options[..i + 1]], tally := d.tally[(p.id, p.options[i]) := 0])
            == WithFirstOptions(db, p, i + 1)
  {
    NextZero(db.tally, p.id, p.options, i);
    assert WithFirstOptions(db, p, i).options[p.id := p.options[..i + 1]] == WithFirstOptions(db, p, i + 1).options;
  }

  lemma NewMetaFields(p: Poll)
    ensures map[] + MetaHash(p.id, FullMeta(p)) == MetaHash(p.id, FullMeta(p))
    ensures HashOrNone(MetaHash(p.id, FullMeta(p))) == Some(Hash(MetaHash(p.id, FullMeta(p))))
  {
    assert "id" in MetaHash(p.id, FullMeta(p));
  }

  lemma NoOptionsYet(keys: Keyspace, db: Db, id: PollId)
    requires Holds(keys, db) && Keys.ColonFree(id) && id !in db.options
    ensures Holds(keys, db.(options := db.options[id := []]))
  {
    OptionsLayout(keys, db, id);
    assert View(db, Keys.PollOptions(id)) == None;
    WithOptions(keys, db, id, []);
    assert keys - {Keys.Name(Keys.PollOptions(id))} == keys;
  }

  lemma WithoutVoters(keys: Keyspace, db: Db, id: PollId)
    requires Holds(keys, db) && Keys.ColonFree(id)
    ensures Holds(keys - {Keys.Name(Keys.PollVoters(id))}, db.(voters := set v | v in db.voters && v.0 != id))
  {
    var voters := set v | v in db.voters && v.0 != id;
    assert VoterSet(voters, id) == {};
    WithVoters(keys, db, id, voters);
  }

  lemma AllOptionsSet(db: Db, p: Poll)
    ensures forall salt: nat ::
              Listed(WithFirstOptions(db.(meta := db.meta[p.id := FullMeta(p)]), p, |p.options|), p, salt)
              == CreateTx(db, p, salt)
  {
    assert p.options[..|p.options|] == p.options;
  }

  // ---------- Round trip ----------

  /** Timestamps lose what lies below the second. */
  function Truncated(t: int): int {
    Unix(t) * NANOS
  }

  /**
   A poll just created reads back as itself: options in order, each at zero, timestamps truncated to seconds,
   and closed already only if it was created so or past its truncated deadline.
   */
  lemma CreateThenRead(db: Db, p: Poll, salt: nat, now: int)
    requires LedgerInv(db) && p.id !in db.meta
    ensures ReadPoll(CreateTx(db, p, salt), p.id, now)
         == Some(p.(votes := map o | o in p.options :: 0,
                    createdAt := Truncated(p.createdAt), expiresAt := Truncated(p.expiresAt),
                    isClosed := p.isClosed || now > Truncated(p.expiresAt)))
  {
    NewCounts(db, p, salt);
  }

  lemma NewCount(db: Db, p: Poll, salt: nat, option: string)
    requires OptionsMatch(db) && p.id !in db.meta
    ensures var tally := CreateTx(db, p, salt).tally;
            && ((p.id, option) in tally <==> option in p.options)
            && (option in p.options ==> tally[(p.id, option)] == 0)
  {
    var q := (p.id, option);
    assert q in db.tally ==> Live(db, q.0);
    assert q in Zeros(p.id, p.options) <==> option in p.options;
  }

  lemma ZeroCounts(tally: map<(PollId, string), int>, id: PollId, options: seq<string>)
    requires forall o :: (id, o) in tally <==> o in options
    requires forall o :: o in options && (id, o) in tally ==> tally[(id, o)] == 0
    ensures CountsOf(tally, id) == map o | o in options :: 0
  {
    forall o
      ensures o in CountsOf(tally, id) <==> o in options
      ensures o in options && o in CountsOf(tally, id) ==> CountsOf(tally, id)[o] == 0
    {
      CountField(tally, id, o);
    }
  }

  lemma NewCounts(db: Db, p: Poll, salt: nat)
    requires OptionsMatch(db) && p.id !in db.meta
    ensures CountsOf(CreateTx(db, p, salt).tally, p.id) == map o | o in p.options :: 0
  {
    var tally := CreateTx(db, p, salt).tally;
    forall o
      ensures (p.id, o) in tally <==> o in p.options
      ensures o in p.options && (p.id, o) in tally ==> tally[(p.id, o)] == 0
    {
      NewCount(db, p, salt, o);
    }
    ZeroCounts(tally, p.id, p.options);
  }

  /** Whatever happened since, a read reports every option's true count, parsed from text. */
  lemma ReadReportsCounts(db: Db, id: PollId, now: int, option: string)
    requires LedgerInv(db) && Live(db, id) && option in db.options[id]
    ensures ReadPoll(db, id, now).Some?
    ensures var p := ReadPoll(db, id, now).value;
            option in p.votes && p.votes[option] == |Supporters(db, id, option)|
  {
    CountField(db.tally, id, option);
    TallyCountsSupporters(db, id, option);
  }
}
