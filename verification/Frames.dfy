/**
 What an operation leaves alone on the flat keyspace: every key it does not name, and so every entry of other polls
 and other users (internal/store/redis/store.go:68-197).
 */
module Frames {
  import opened Common
  import opened Ledger
  import opened Encoding
  import opened Keys
  import Protocol
  import Calls

  /** The keys handed to both scripts, but for the metadata, which they only read. */
  predicate ScriptWrites(k: Key, id: PollId, user: UserId, key: string) {
    k == PollVotes(id) || k == PollVoters(id) || k == UserVotes(user) || k == Idem(IdemKey(user, key))
  }

  /** The keys a close or delete writes. */
  predicate CallWrites(op: Protocol.Op, k: Key, id: PollId, user: UserId, key: string) {
    || k == PollMeta(id) || k == Idem(IdemKey(user, key))
    || (op.Delete? && (k == PollOptions(id) || k == PollVotes(id) || k == PollVoters(id) || k == PollsIndex
                       || k == PollsPublicIndex || k == UserCreated(user)))
  }

  /** Ballots of one poll and one user's history change, and possibly idempotency keys; nothing else does. */
  ghost predicate Localized(db: Db, d: Db, id: PollId, user: UserId) {
    && SameRecords(db, d)
    && (forall v: (PollId, UserId) :: v.0 != id ==> (v in d.voters <==> v in db.voters))
    && (forall q: (PollId, string) :: q.0 != id ==> (q in d.tally <==> q in db.tally))
    && (forall q: (PollId, string) :: q.0 != id && q in db.tally && q in d.tally ==> d.tally[q] == db.tally[q])
    && (forall v: (PollId, UserId) :: v.1 != user ==> (v in d.history <==> v in db.history))
    && (forall v: (PollId, UserId) ::
          v.1 != user && v in db.history && v in d.history ==> d.history[v] == db.history[v])
  }

  lemma SameVoterSet(a: set<(PollId, UserId)>, b: set<(PollId, UserId)>, id: PollId)
    requires forall v: (PollId, UserId) :: v.0 == id ==> (v in a <==> v in b)
    ensures VoterSet(a, id) == VoterSet(b, id)
  {
    forall u
      ensures u in VoterSet(a, id) <==> u in VoterSet(b, id)
    {
      VoterMember(a, id, u);
      VoterMember(b, id, u);
    }
  }

  lemma BallotViews(db: Db, d: Db, id: PollId, user: UserId, k: Key)
    requires Localized(db, d, id, user)
    requires !k.Idem? && k != PollVotes(id) && k != PollVoters(id) && k != UserVotes(user)
    ensures View(d, k) == View(db, k)
  {
    match k
    case PollVotes(other) => SameTallyHash(d.tally, db.tally, other);
    case PollVoters(other) => SameVoterSet(d.voters, db.voters, other);
    case UserVotes(other) => SameHistoryHash(d.history, db.history, other);
    case _ =>
  }

  lemma CastIsBallots(db: Db, id: PollId, user: UserId, option: string)
    ensures Localized(db, CastVote(db, id, user, option), id, user)
  {
  }

  lemma RetractIsBallots(db: Db, id: PollId, user: UserId, option: string)
    ensures Localized(db, RetractVote(db, id, user, option), id, user)
  {
  }

  lemma KeyIsNoBallot(db: Db, d: Db, id: PollId, user: UserId, key: string, now: int)
    requires Localized(db, d, id, user)
    ensures Localized(db, SetIdem(d, user, key, now), id, user)
  {
  }

  lemma ScriptsAreBallots(db: Db, id: PollId, user: UserId, option: string, key: string, now: int)
    ensures Localized(db, VoteScript(db, id, user, option, key, now).1, id, user)
    ensures Localized(db, UndoScript(db, id, user, key, now).1, id, user)
  {
    if VoteScript(db, id, user, option, key, now).0 == OK {
      CastIsBallots(db, id, user, option);
      KeyIsNoBallot(db, CastVote(db, id, user, option), id, user, key, now);
    }
    if UndoScript(db, id, user, key, now).0 == OK {
      var choice := db.history[(id, user)];
      RetractIsBallots(db, id, user, choice);
      KeyIsNoBallot(db, RetractVote(db, id, user, choice), id, user, key, now);
    }
  }

  lemma ScriptKeys(db: Db, id: PollId, user: UserId, option: string, key: string, now: int, t: string)
    requires t != IdemKey(user, key)
    ensures View(VoteScript(db, id, user, option, key, now).1, Idem(t)) == View(db, Idem(t))
    ensures View(UndoScript(db, id, user, key, now).1, Idem(t)) == View(db, Idem(t))
  {
  }

  /** A vote or undo leaves what lies under every name but the four it was handed to write. */
  lemma ScriptsLeaveOthers(keys: Keyspace, after: Keyspace, db: Db, d: Db, id: PollId, user: UserId, option: string,
                           key: string, now: int, k: Key)
    requires Holds(keys, db) && Holds(after, d)
    requires d == VoteScript(db, id, user, option, key, now).1 || d == UndoScript(db, id, user, key, now).1
    requires WellFormed(k) && !ScriptWrites(k, id, user, key)
    ensures Get(after, Name(k)) == Get(keys, Name(k))
  {
    ScriptsAreBallots(db, id, user, option, key, now);
    if k.Idem? {
      ScriptKeys(db, id, user, option, key, now, k.text);
    } else {
      BallotViews(db, d, id, user, k);
    }
    assert View(d, k) == View(db, k);
  }

  lemma DropViews(db: Db, id: PollId, k: Key)
    requires k != PollMeta(id) && k != PollOptions(id) && k != PollVotes(id) && k != PollVoters(id)
    ensures View(DropPoll(db, id), k) == View(db, k)
  {
    var d := DropPoll(db, id);
    match k
    case PollVotes(other) => SameTallyHash(d.tally, db.tally, other);
    case PollVoters(other) => SameVoterSet(d.voters, db.voters, other);
    case _ =>
  }

  lemma UnlistViews(db: Db, id: PollId, user: UserId, k: Key)
    requires k != PollsIndex && k != PollsPublicIndex && k != UserCreated(user)
    ensures View(Calls.Unlist(db, id, user), k) == View(db, k)
  {
    if k.UserCreated? {
      SameCreatedScores(Calls.Unlist(db, id, user).created, db.created, k.user);
    }
  }

  lemma KeyViews(db: Db, user: UserId, key: string, now: int, k: Key)
    requires k != Idem(IdemKey(user, key))
    ensures View(SetIdem(db, user, key, now), k) == View(db, k)
  {
  }

  /** A close leaves all but the poll's metadata and the idempotency key, a delete all but the keys it names. */
  lemma CallsLeaveOthers(keys: Keyspace, after: Keyspace, db: Db, op: Protocol.Op, id: PollId, user: UserId,
                         key: string, now: int, k: Key)
    requires Holds(keys, db) && Holds(after, Calls.Call(op, db, id, user, key, now).1)
    requires WellFormed(k) && !CallWrites(op, k, id, user, key)
    ensures Get(after, Name(k)) == Get(keys, Name(k))
  {
    var d := Calls.Call(op, db, id, user, key, now).1;
    if op.Close? {
      KeyViews(MarkClosed(db, id, user), user, key, now, k);
    } else {
      DropViews(db, id, k);
      UnlistViews(DropPoll(db, id), id, user, k);
      KeyViews(Calls.Unlist(DropPoll(db, id), id, user), user, key, now, k);
    }
    assert View(d, k) == View(db, k);
  }

  /** Creating a poll leaves other polls' keys, all users' votes, other users' lists and all idempotency keys. */
  lemma CreateLeavesOthers(keys: Keyspace, after: Keyspace, db: Db, p: Poll, salt: nat, k: Key)
    requires Holds(keys, db) && Holds(after, CreateTx(db, p, salt)) && WellFormed(k)
    requires k != PollMeta(p.id) && k != PollOptions(p.id) && k != PollVotes(p.id) && k != PollVoters(p.id)
    requires k != PollsIndex && k != PollsPublicIndex && k != UserCreated(p.createdBy)
    ensures Get(after, Name(k)) == Get(keys, Name(k))
  {
    var d := CreateTx(db, p, salt);
    match k {
      case PollVotes(other) => SameTallyHash(d.tally, db.tally, other);
      case PollVoters(other) => SameVoterSet(d.voters, db.voters, other);
      case UserCreated(user) => SameCreatedScores(d.created, db.created, user);
      case _ =>
    }
    assert View(d, k) == View(db, k);
  }
}
