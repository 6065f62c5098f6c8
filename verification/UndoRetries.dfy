/**
 An undo that carries an idempotency key, delivered any number of times within 300 s, takes back exactly one ballot, and
 every delivery is answered with success and the poll (internal/store/redis/scripts.go:111-155,
 internal/store/redis/store.go:172-197).
 */
module UndoRetries {
  import opened Common
  import opened Ledger
  import opened Protocol
  import opened Invariants
  import opened RedisServer
  import Delivery
  import Keys
  import KeyLife

  /** A script's event, answered as Vote and UndoVote answer it. */
  function Answer(s: State, e: Event): (Code, Option<Poll>)
    requires Allowed(s, e) && (e.Vote? || e.Undo?)
  {
    Reply(Result(s, e), Step(s, e).db, e.id, s.now)
  }

  /** One vote less, and that the user's: of the option on record, on this poll. */
  ghost predicate TakenBack(db: Db, d: Db, id: PollId, user: UserId) {
    && (id, user) in db.voters && (id, user) in db.history
    && d.voters == db.voters - {(id, user)} && d.history == db.history - {(id, user)}
    && d.meta == db.meta && d.options == db.options
    && forall i, o :: TallyAt(d, i, o) == TallyAt(db, i, o) - if i == id && o == db.history[(id, user)] then 1 else 0
  }

  /** What the first delivery finds: the poll open, a ballot of the user's, the key unused. */
  predicate Undoable(s: State, id: PollId, user: UserId, key: string) {
    && Live(s.db, id) && !s.db.meta[id].Shut(s.now) && (id, user) in s.db.voters
    && !IdemLive(s.db, Keys.IdemKey(user, key), s.now)
  }

  lemma RetractTakesBack(db: Db, id: PollId, user: UserId)
    requires LedgerInv(db) && (id, user) in db.voters
    ensures (id, user) in db.history && TakenBack(db, RetractVote(db, id, user, db.history[(id, user)]), id, user)
  {
    UndoNeverClamps(db, id, user);
  }

  lemma KeyAside(db: Db, d: Db, id: PollId, user: UserId, key: string, now: int)
    requires TakenBack(db, d, id, user)
    ensures TakenBack(db, SetIdem(d, user, key, now), id, user)
  {
    var e := SetIdem(d, user, key, now);
    assert forall i, o :: TallyAt(e, i, o) == TallyAt(d, i, o);
  }

  lemma FirstUndo(s: State, id: PollId, user: UserId, key: string)
    requires LedgerInv(s.db) && Allowed(s, Undo(id, user, key)) && Undoable(s, id, user, key)
    ensures Result(s, Undo(id, user, key)) == OK
    ensures TakenBack(s.db, Step(s, Undo(id, user, key)).db, id, user)
  {
    RetractTakesBack(s.db, id, user);
    KeyAside(s.db, RetractVote(s.db, id, user, s.db.history[(id, user)]), id, user, key, s.now);
  }

  lemma PollIsRead(db: Db, id: PollId, now: int)
    ensures ReadPoll(db, id, now).Some? <==> id in db.meta
  {
  }

  lemma {:induction false} OnlySuccessChanges(s: State, e: Event)
    requires Allowed(s, e) && (e.Vote? || e.Undo?)
    ensures Result(s, e) != OK ==> Step(s, e) == s
    ensures Result(s, e) == OK ==> e.id in Step(s, e).db.meta
  {
    if e.Vote? {
      VoteTouches(s.db, e.id, e.user, e.option, e.key, s.now);
    } else {
      UndoTouches(s.db, e.id, e.user, e.key, s.now);
    }
  }

  /**
   A refused script changes nothing and is answered with its own code and no poll; a success or a repeated key is
   answered with success and the poll, unless there is none to read.
   */
  lemma RefusedChangesNothing(s: State, e: Event)
    requires Allowed(s, e) && (e.Vote? || e.Undo?)
    ensures var (code, t, (answer, p)) := (Result(s, e), Step(s, e), Answer(s, e));
            && (code != OK ==> t == s)
            && (code in {NotFound, Forbidden, Conflict, Invalid} ==> answer == code && p == None)
            && (code == OK ==> answer == OK && p.Some? && p == ReadPoll(t.db, e.id, t.now))
            && (code == Noop && e.id in s.db.meta ==> answer == OK && p.Some? && p == ReadPoll(s.db, e.id, s.now))
            && (code == Noop && e.id !in s.db.meta ==> answer == NotFound && p == None)
  {
    OnlySuccessChanges(s, e);
    PollIsRead(Step(s, e).db, e.id, s.now);
  }

  /** A retried script is answered with success and the poll as it reads, unless the poll has been deleted meanwhile. */
  lemma RetryIsAnswered(s: State, es: seq<Event>, i: nat, j: nat, e: Event)
    requires ValidRun(s, es) && i < j < |es| && es[i] == e && es[j] == e && (e.Vote? || e.Undo?) && e.key != ""
    requires Result(Before(s, es, i), e) == OK
    requires Before(s, es, j).now <= Before(s, es, i).now + 300 * 1_000_000_000
    ensures Allowed(Before(s, es, j), e) && Before(s, es, j + 1) == Before(s, es, j)
    ensures var t := Before(s, es, j);
            if e.id in t.db.meta then
              Answer(t, e) == (OK, ReadPoll(t.db, e.id, t.now)) && Answer(t, e).1.Some?
            else Answer(t, e) == (NotFound, None)
  {
    KeyLife.RetryIsNoop(s, es, i, j, e.user, e.key);
    BeforeStep(s, es, j);
    var t := Before(s, es, j);
    PollIsRead(t.db, e.id, t.now);
  }

  /** No later ballot of the user's on the poll. */
  predicate VotesNoMore(es: seq<Event>, id: PollId, user: UserId) {
    forall e :: e in es && e.Vote? ==> e.id != id || e.user != user
  }

  /** The i-th event, a delivery: a success if it is the first, and otherwise a no-op; answered with the poll. */
  ghost predicate DeliveredAs(s: State, es: seq<Event>, f: nat, i: nat)
    requires ValidRun(s, es) && i < |es| && es[i].Undo?
  {
    var (t, u, e) := (Before(s, es, i), Before(s, es, i + 1), es[i]);
    && Result(t, e) == (if i == f then OK else Noop) && (i != f ==> u == t)
    && Allowed(t, e) && (e.id in t.db.meta ==> Answer(t, e) == (OK, ReadPoll(u.db, e.id, t.now)))
  }

  lemma EachDelivery(s: State, es: seq<Event>, f: nat, i: nat, e: Event)
    requires ValidRun(s, es) && f <= i < |es| && es[f] == e && es[i] == e && e.Undo? && e.key != ""
    requires Result(Before(s, es, f), e) == OK
    requires Before(s, es, i).now <= Before(s, es, f).now + 300 * 1_000_000_000
    ensures DeliveredAs(s, es, f, i)
  {
    BeforeStep(s, es, i);
    if i == f {
      UndoTouches(Before(s, es, f).db, e.id, e.user, e.key, Before(s, es, f).now);
      PollIsRead(Before(s, es, f + 1).db, e.id, Before(s, es, f).now);
    } else {
      RetryIsAnswered(s, es, f, i, e);
      KeyLife.RetryIsNoop(s, es, f, i, e.user, e.key);
    }
  }

  lemma NoVoterAfter(s: State, es: seq<Event>, f: nat, id: PollId, user: UserId)
    requires ValidRun(s, es) && f < |es| && (id, user) !in Before(s, es, f + 1).db.voters
    requires VotesNoMore(es[f + 1..], id, user)
    ensures (id, user) !in Run(s, es).db.voters
  {
    BeforeLater(s, es, f + 1, |es|);
    BeforeEnd(s, es);
    assert es[f + 1..|es|] == es[f + 1..];
    if (id, user) in Run(s, es).db.voters {
      Delivery.VotersVoted(Before(s, es, f + 1), es[f + 1..], id, user);
    }
  }

  /**
   The whole run: the first delivery takes the ballot back, every other one changes nothing, all that find the poll are
   answered with success, and at the end the user is no voter unless he voted again.
   */
  lemma UndoDeliveredOnce(s: State, es: seq<Event>, f: nat, id: PollId, user: UserId, key: string)
    requires Inv(s) && ValidRun(s, es) && key != "" && f == Delivery.First(es, Undo(id, user, key)) < |es|
    requires Undoable(Before(s, es, f), id, user, key)
    requires forall i: nat :: i < |es| && es[i] == Undo(id, user, key) ==>
               Before(s, es, i).now <= Before(s, es, f).now + 300 * 1_000_000_000
    ensures TakenBack(Before(s, es, f).db, Before(s, es, f + 1).db, id, user)
    ensures forall i: nat :: i < |es| && es[i] == Undo(id, user, key) ==> DeliveredAs(s, es, f, i)
    ensures VotesNoMore(es[f + 1..], id, user) ==> (id, user) !in Run(s, es).db.voters
  {
    ValidPrefix(s, es, f);
    RunKeepsInv(s, es[..f]);
    BeforeStep(s, es, f);
    FirstUndo(Before(s, es, f), id, user, key);
    forall i: nat | i < |es| && es[i] == Undo(id, user, key)
      ensures DeliveredAs(s, es, f, i)
    {
      EachDelivery(s, es, f, i, es[i]);
    }
    if VotesNoMore(es[f + 1..], id, user) {
      NoVoterAfter(s, es, f, id, user);
    }
  }
}
