/**
 Three ways to tell whether a poll has expired: the scripts compare whole seconds
 (internal/store/redis/scripts.go:60-67), the memory store compares exact instants
 (internal/store/memory/memory.go:93), and getPoll compares the clock with the truncated deadline
 (internal/store/redis/store.go:469-471).
 */
module Deadline {
  import opened Common
  import opened Ledger
  import opened Calls
  import Protocol

  predicate ScriptExpired(now: int, expiresAt: int) {
    Unix(now) > Unix(expiresAt)
  }

  predicate MemoryExpired(now: int, expiresAt: int) {
    now > expiresAt
  }

  predicate ReadExpired(now: int, expiresAt: int) {
    now > Unix(expiresAt) * NANOS
  }

  /** Strictly inside the second that starts at the truncated deadline. */
  predicate LastSecond(now: int, expiresAt: int) {
    Unix(expiresAt) * NANOS < now < (Unix(expiresAt) + 1) * NANOS
  }

  /** Script expiry implies memory expiry implies read expiry; a second after the read verdict the script agrees. */
  lemma Sandwich(now: int, expiresAt: int)
    ensures ScriptExpired(now, expiresAt) ==> MemoryExpired(now, expiresAt)
    ensures MemoryExpired(now, expiresAt) ==> ReadExpired(now, expiresAt)
    ensures ReadExpired(now, expiresAt) ==> ScriptExpired(now + NANOS, expiresAt)
  {
    assert Unix(now + NANOS) == Unix(now) + 1;
  }

  /** The script and read verdicts, and with them all three, agree exactly outside the last second. */
  lemma AgreeIff(now: int, expiresAt: int)
    ensures (ScriptExpired(now, expiresAt) == ReadExpired(now, expiresAt)) <==> !LastSecond(now, expiresAt)
    ensures !LastSecond(now, expiresAt) ==> MemoryExpired(now, expiresAt) == ReadExpired(now, expiresAt)
  {
    Sandwich(now, expiresAt);
  }

  /** Whole-second clocks never fall inside it. */
  lemma WholeSecondsAgree(seconds: int, expiresAt: int)
    ensures !LastSecond(seconds * NANOS, expiresAt)
  {
  }

  /**
   A close by the creator that nobody interrupts is always answered with success. It bars votes exactly when the poll
   was flagged closed already, or past its deadline as the scripts see it, or when getPoll did not take it for
   expired and the key was not in use: otherwise nothing is written. Module Acknowledged has the interrupted case and
   says that what is barred stays barred.
   */
  lemma CloseHoldsIff(db: Db, id: PollId, key: string, now: int, p: Poll)
    requires Live(db, id) && db.meta[id].expiresAt == Unix(p.expiresAt)
    ensures var creator := db.meta[id].createdBy;
            var r := Call(Protocol.Close, db, id, creator, key, now);
            && r.0 == OK && id in r.1.meta
            && (r.1.meta[id].Shut(now) <==>
                  || db.meta[id].isClosed || ScriptExpired(now, p.expiresAt)
                  || (!ReadExpired(now, p.expiresAt) && !Repeated(db, creator, key, now)))
  {
    AgreeIff(now, p.expiresAt);
  }

  /** The same in terms of the two ways to fail: the last second, and a key the creator has used. */
  lemma CloseFailsIff(db: Db, id: PollId, key: string, now: int, p: Poll)
    requires Live(db, id) && db.meta[id].expiresAt == Unix(p.expiresAt) && !db.meta[id].isClosed
    ensures var creator := db.meta[id].createdBy;
            var r := Call(Protocol.Close, db, id, creator, key, now);
            && r.0 == OK && id in r.1.meta
            && (!r.1.meta[id].Shut(now) <==>
                  || LastSecond(now, p.expiresAt)
                  || (!ReadExpired(now, p.expiresAt) && Repeated(db, creator, key, now)))
  {
    CloseHoldsIff(db, id, key, now, p);
    AgreeIff(now, p.expiresAt);
    Sandwich(now, p.expiresAt);
  }

  /** So in the last second a vote can follow a successful close. */
  lemma VoteAfterClose(db: Db, id: PollId, user: UserId, option: string, now: int, p: Poll)
    requires LedgerInv(db) && Live(db, id) && db.meta[id].expiresAt == Unix(p.expiresAt) && !db.meta[id].isClosed
    requires LastSecond(now, p.expiresAt) && (id, user) !in db.history && option in db.options[id]
    ensures var d := Call(Protocol.Close, db, id, db.meta[id].createdBy, "", now);
            d.0 == OK && VoteScript(d.1, id, user, option, "", now).0 == OK
  {
    VoteOutcome(db, id, user, option, "", now);
    AgreeIff(now, p.expiresAt);
  }

  /** And at any time before, a vote can follow a close under a key its creator has just used for something else. */
  lemma VoteAfterCloseUnderUsedKey(db: Db, id: PollId, key: string, user: UserId, option: string, now: int, p: Poll)
    requires LedgerInv(db) && Live(db, id) && db.meta[id].expiresAt == Unix(p.expiresAt) && !db.meta[id].isClosed
    requires !ReadExpired(now, p.expiresAt) && Repeated(db, db.meta[id].createdBy, key, now)
    requires (id, user) !in db.history && option in db.options[id]
    ensures var d := Call(Protocol.Close, db, id, db.meta[id].createdBy, key, now);
            d == (OK, db) && VoteScript(d.1, id, user, option, "", now).0 == OK
  {
    VoteOutcome(db, id, user, option, "", now);
    AgreeIff(now, p.expiresAt);
  }
}
