/**
 What ClosePoll and DeletePoll answer in any interleaving, told from what the call read (internal/store/redis/store.go:
 68-75, 100-107): not found where there was no metadata, forbidden where somebody else was its creator. So nobody but
 the creator ever closes or deletes a poll; and a call that wrote has its key in use afterwards.
 */
module CallAnswers {
  import opened Common
  import opened Ledger
  import opened Protocol
  import opened Invariants
  import opened Acknowledged
  import Calls
  import Keys
  import KeyLife

  /** What the call begun at position i had read by position k: nothing yet, no metadata, or the metadata. */
  function Heard(s: State, es: seq<Event>, c: nat, i: nat, k: nat, id: PollId): Option<Option<Meta>>
    requires ValidRun(s, es) && k <= |es|
    decreases k
  {
    if k <= i + 1 then None
    else if ReadsAt(Before(s, es, k - 1), es[k - 1], c) then Some(MetaAt(Before(s, es, k - 1).db, id))
    else Heard(s, es, c, i, k - 1, id)
  }

  predicate ReadsAt(s: State, e: Event, c: nat) {
    e == Advance(c) && c in s.clients && s.clients[c].ReadMeta?
  }

  function MetaAt(db: Db, id: PollId): Option<Meta> {
    if id in db.meta then Some(db.meta[id]) else None
  }

  /** Where a call stands, given what it has read. */
  predicate Told(pc: Pc, heard: Option<Option<Meta>>, user: UserId) {
    if heard.None? then pc.ReadMeta?
    else if heard.value.None? then pc == Done(NotFound)
    else if pc.Decide? then pc.seen == heard.value.value
    else if heard.value.value.Creator() != user then pc == Done(Forbidden)
    else !pc.ReadMeta? && (pc.Done? ==> pc.result == OK)
  }

  lemma ToldNext(s: State, c: nat, heard: Option<Option<Meta>>, op: Op, id: PollId, user: UserId, key: string)
    requires Busy(s, c) && Told(s.clients[c], heard, user)
    requires Early(s.clients[c], op, id, user, key) || Late(s.clients[c], op, id, user, key)
    ensures var now := if s.clients[c].ReadMeta? then Some(MetaAt(s.db, id)) else heard;
            c in AdvanceStep(s, c).clients && Told(AdvanceStep(s, c).clients[c], now, user)
  {
  }

  /** At every position of the call it stands as it was told. */
  lemma {:induction false} CallIsTold(s: State, es: seq<Event>, c: nat, i: nat, n: nat, op: Op, id: PollId,
                                      user: UserId, key: string, k: nat)
    requires CallRuns(s, es, c, i, n, op, id, user, key) && WritesKnown(s, es, c) && i < k <= n
    ensures c in Before(s, es, k).clients
    ensures Told(Before(s, es, k).clients[c], Heard(s, es, c, i, k, id), user)
    decreases k
  {
    BeforeStep(s, es, k - 1);
    if i + 1 < k {
      var t := Before(s, es, k - 1);
      CallIsTold(s, es, c, i, n, op, id, user, key, k - 1);
      CallStands(s, es, c, i, n, op, id, user, key, k - 1);
      if es[k - 1] == Advance(c) {
        ToldNext(t, c, Heard(s, es, c, i, k - 1, id), op, id, user, key);
      } else {
        OthersLeaveIt(t, es[k - 1], c);
      }
    }
  }

  /** The answer of a call that has ended is decided by what it read. */
  lemma AnsweredAsHeard(s: State, es: seq<Event>, c: nat, i: nat, n: nat, op: Op, id: PollId, user: UserId, key: string)
    requires Inv(s) && CallRuns(s, es, c, i, n, op, id, user, key) && i + 1 < n
    requires c in Before(s, es, n).clients && Before(s, es, n).clients[c].Done?
    ensures var (code, heard) := (Before(s, es, n).clients[c].result, Heard(s, es, c, i, n, id));
            && heard.Some?
            && (code == NotFound <==> heard.value.None?)
            && (code == Forbidden <==> heard.value.Some? && heard.value.value.Creator() != user)
            && (code == OK <==> heard.value.Some? && heard.value.value.Creator() == user)
  {
    InvKnowsWrites(s, es, c);
    CallIsTold(s, es, c, i, n, op, id, user, key, n);
  }

  /** The metadata a call has read names the creator the poll was made by, or nobody. */
  lemma {:induction false} HeardOfBirth(s: State, es: seq<Event>, c: nat, i: nat, k: nat, id: PollId)
    requires Inv(s) && ValidRun(s, es) && i < k <= |es|
    requires Heard(s, es, c, i, k, id).Some? && Heard(s, es, c, i, k, id).value.Some?
    ensures id in Before(s, es, k).born
    ensures Heard(s, es, c, i, k, id).value.value.Creator() in {Before(s, es, k).born[id].poll.createdBy, ""}
    decreases k
  {
    BeforeStep(s, es, k - 1);
    var t := Before(s, es, k - 1);
    if ReadsAt(t, es[k - 1], c) {
      ValidPrefix(s, es, k - 1);
      RunKeepsInv(s, es[..k - 1]);
      if Live(t.db, id) {
        assert Unchanging(t.db.meta[id], t.born[id].poll);
      }
    } else {
      HeardOfBirth(s, es, c, i, k - 1, id);
    }
    assert id in t.born && Step(t, es[k - 1]).born[id] == t.born[id];
  }

  /**
   Nobody but the creator: whoever else asks for a close or a delete, as somebody, is answered forbidden or not found,
   and at no position between has the call written.
   */
  lemma StrangersAreRefused(s: State, es: seq<Event>, c: nat, i: nat, n: nat, op: Op, id: PollId, user: UserId,
                            key: string)
    requires Inv(s) && CallRuns(s, es, c, i, n, op, id, user, key) && i + 1 < n
    requires c in Before(s, es, n).clients && Before(s, es, n).clients[c].Done?
    requires user != "" && (id in Before(s, es, n).born ==> Before(s, es, n).born[id].poll.createdBy != user)
    ensures Before(s, es, n).clients[c].result in {Forbidden, NotFound}
    ensures !Wrote(s, es, c, i, n)
  {
    AnsweredAsHeard(s, es, c, i, n, op, id, user, key);
    if Heard(s, es, c, i, n, id).value.Some? {
      HeardOfBirth(s, es, c, i, n, id);
    }
    InvKnowsWrites(s, es, c);
    CallStands(s, es, c, i, n, op, id, user, key, n);
  }

  /** With a key, a call that writes ends by writing its key. */
  lemma EndsByKey(s: State, c: nat, wrote: bool, op: Op, id: PollId, user: UserId, key: string)
    requires Busy(s, c) && Stands(s, c, wrote, op, id, user, key) && (wrote || s.clients[c].Write?)
    requires AdvanceStep(s, c).clients[c].Done? && key != ""
    ensures s.clients[c] == SetKey(user, key) && AdvanceStep(s, c).now == s.now
  {
  }

  /** A call that has written and ends has written its key last, so the key is in use from then on for 300 s. */
  lemma WriterLeavesKey(s: State, es: seq<Event>, c: nat, i: nat, n: nat, op: Op, id: PollId, user: UserId, key: string)
    requires Inv(s) && CallRuns(s, es, c, i, n, op, id, user, key) && i + 1 < n && key != ""
    requires es[n - 1] == Advance(c) && c in Before(s, es, n).clients && Before(s, es, n).clients[c] == Done(OK)
    requires Wrote(s, es, c, i, n)
    ensures KeyLife.WritesAt(s, es, n - 1, Keys.IdemKey(user, key)) && Before(s, es, n).now == Before(s, es, n - 1).now
  {
    var t := Before(s, es, n - 1);
    InvKnowsWrites(s, es, c);
    CallStands(s, es, c, i, n, op, id, user, key, n - 1);
    BeforeStep(s, es, n - 1);
    EndsByKey(t, c, Wrote(s, es, c, i, n - 1), op, id, user, key);
  }

  /** So within 300 s every script of the same user under that key is a no-op, whatever runs in between. */
  lemma ThenScriptsAreNoops(now: int, es: seq<Event>, c: nat, i: nat, n: nat, op: Op, id: PollId, user: UserId,
                            key: string, e: Event)
    requires CallRuns(Init(now), es, c, i, n, op, id, user, key) && i + 1 < n && key != ""
    requires var t := Before(Init(now), es, n);
             es[n - 1] == Advance(c) && c in t.clients && t.clients[c] == Done(OK)
    requires Wrote(Init(now), es, c, i, n)
    requires (e.Vote? || e.Undo?) && e.user == user && e.key == key
    requires Run(Init(now), es).now <= Before(Init(now), es, n).now + 300 * 1_000_000_000
    ensures Result(Run(Init(now), es), e) == Noop
  {
    assert Inv(Init(now)) by {
      InitInv(now);
    }
    WriterLeavesKey(Init(now), es, c, i, n, op, id, user, key);
    KeyLife.NoopAfterWrite(now, es, n - 1, e);
  }

  /** A delete repeated under its own key is told that there is no such poll; its key does not make it a success. */
  lemma RepeatedDeleteFindsNothing(db: Db, id: PollId, user: UserId, key: string, now: int, later: int)
    requires Calls.Call(Delete, db, id, user, key, now).0 == OK && !Repeated(db, user, key, now)
    ensures var d := Calls.Call(Delete, db, id, user, key, now).1;
            Calls.Call(Delete, d, id, user, key, later) == (NotFound, d)
  {
  }

  /** A close repeated is told that the poll is closed, and changes nothing. */
  lemma RepeatedCloseIsAnswered(db: Db, id: PollId, user: UserId, key: string, now: int, again: string, later: int)
    requires Live(db, id) && Calls.Call(Close, db, id, user, key, now).0 == OK
    requires !Repeated(db, user, key, now) && now <= later
    ensures var d := Calls.Call(Close, db, id, user, key, now).1;
            Calls.Call(Close, d, id, user, again, later) == (OK, d) && d.meta[id].ReadsClosed(later)
  {
  }
}
