/**
 What an answer of success is worth when a request carries an idempotency key. The key's name holds the user and the
 key, neither the poll nor the operation (internal/store/redis/store.go:523-528), so a key this user has used within
 300 s for anything answers a vote, an undo or a delete with success although nothing is done
 (internal/store/redis/scripts.go:45-49, 111-115, internal/store/redis/store.go:109-117).
 */
module Answers {
  import opened Common
  import opened Ledger
  import Calls
  import Protocol

  /** The user's ballot on the poll is for the option. */
  predicate Recorded(db: Db, id: PollId, user: UserId, option: string) {
    (id, user) in db.history && db.history[(id, user)] == option
  }

  /** A vote answered with success is recorded exactly when its key was unused, or it was recorded before. */
  lemma VoteRecordedIff(db: Db, id: PollId, user: UserId, option: string, key: string, now: int)
    requires VoteScript(db, id, user, option, key, now).0 in {OK, Noop}
    ensures Recorded(VoteScript(db, id, user, option, key, now).1, id, user, option) <==>
              !Repeated(db, user, key, now) || Recorded(db, id, user, option)
  {
  }

  /** An undo answered with success leaves no ballot exactly when its key was unused, or there was none before. */
  lemma UndoneIff(db: Db, id: PollId, user: UserId, key: string, now: int)
    requires LedgerInv(db) && UndoScript(db, id, user, key, now).0 in {OK, Noop}
    ensures (id, user) !in UndoScript(db, id, user, key, now).1.voters <==>
              !Repeated(db, user, key, now) || (id, user) !in db.voters
  {
  }

  /** A delete that nobody interrupts, answered with success, has deleted exactly when its key was unused. */
  lemma DeletedIff(db: Db, id: PollId, user: UserId, key: string, now: int)
    requires Calls.Call(Protocol.Delete, db, id, user, key, now).0 == OK
    ensures id !in Calls.Call(Protocol.Delete, db, id, user, key, now).1.meta <==> !Repeated(db, user, key, now)
  {
  }

  /**
   One key, used by one user for a vote and within 300 s for deleting a poll and for voting on another: both are
   answered with success and neither is done.
   */
  lemma KeyUsedTwice(db: Db, id: PollId, own: PollId, other: PollId, user: UserId, option: string, choice: string,
                     key: string, now: int, later: int)
    requires LedgerInv(db) && key != "" && now <= later <= now + IDEM_TTL
    requires VoteScript(db, id, user, option, key, now).0 == OK
    requires Live(db, own) && db.meta[own].createdBy == user
    requires other != id && (other, user) !in db.history
    ensures var d := VoteScript(db, id, user, option, key, now).1;
            && Calls.Call(Protocol.Delete, d, own, user, key, later) == (OK, d) && Live(d, own)
            && VoteScript(d, other, user, choice, key, later) == (Noop, d)
            && !Recorded(d, other, user, choice)
  {
    var d := VoteScript(db, id, user, option, key, now).1;
    assert Repeated(d, user, key, later);
    assert d.meta == db.meta;
  }
}
