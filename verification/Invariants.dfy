/** What every step of every interleaving keeps: the ledger agrees with itself and with its indexes. */
module Invariants {
  import opened Common
  import opened Ledger
  import opened Protocol
  import Keys

  /** Nothing mentions a poll id that was never created. */
  ghost predicate Known(s: State) {
    && (forall id :: id in s.db.meta ==> id in s.born)
    && (forall v :: v in s.db.history ==> v.0 in s.born)
    && s.db.index <= s.born.Keys && s.db.publicIndex <= s.born.Keys
    && (forall k :: k in s.db.created ==> k.1 in s.born)
    && (forall id :: id in s.born ==> s.born[id].poll.id == id && Keys.ColonFree(id))
  }

  /** A live poll still has the creator, visibility, times and options it was born with. */
  ghost predicate TrueToBirth(s: State) {
    && (forall id :: Live(s.db, id) && id in s.born ==>
          Unchanging(s.db.meta[id], s.born[id].poll))
    && (forall id :: id in s.db.options && id in s.born ==> s.db.options[id] == s.born[id].poll.options)
  }

  predicate Unchanging(m: Meta, p: Poll) {
    m.Full? ==>
      && m.question == p.question && m.createdBy == p.createdBy && m.isPublic == p.isPublic
      && m.createdAt == Unix(p.createdAt) && m.expiresAt == Unix(p.expiresAt)
  }

  /**
   What the program counters promise: a call past its first read works on a poll that exists or existed,
   and a delete past its ownership check is the creator's unless the poll is gone already.
   */
  ghost predicate ClientOk(s: State, pc: Pc) {
    match pc
    case Decide(_, id, _, _, seen) =>
      id in s.born && Unchanging(seen, s.born[id].poll) && (seen.Stub? ==> !Live(s.db, id))
    case CheckKey(op, id, user, _) => id in s.born && OwnerUnlessGone(s, id, user)
    case Write(op, id, user, _) => id in s.born && OwnerUnlessGone(s, id, user)
    case RemIndex(id, user, _) => id in s.born && !Live(s.db, id)
    case RemPublic(id, user, _) => id in s.born && !Live(s.db, id)
    case RemCreated(id, user, _) => id in s.born && !Live(s.db, id)
    case _ => true
  }

  ghost predicate OwnerUnlessGone(s: State, id: PollId, user: UserId)
    requires id in s.born
  {
    Live(s.db, id) ==> s.born[id].poll.createdBy == user
  }

  ghost predicate ClientsOk(s: State) {
    forall c :: c in s.clients ==> ClientOk(s, s.clients[c])
  }

  /** A delete that has dropped the poll but has not yet reached the given removal. */
  predicate Removing(pc: Pc, id: PollId, user: UserId, upTo: nat) {
    && (pc.RemIndex? || (upTo >= 2 && pc.RemPublic?) || (upTo >= 3 && pc.RemCreated?))
    && pc.id == id && pc.user == user
  }

  ghost predicate BeingRemoved(s: State, id: PollId, user: UserId, upTo: nat) {
    exists c :: c in s.clients && Removing(s.clients[c], id, user, upTo)
  }

  /** A live poll is in exactly the indexes it belongs in, under its creator and creation score. */
  ghost predicate Indexed(s: State) {
    forall id :: Live(s.db, id) && id in s.born ==>
      var b := s.born[id];
      && id in s.db.index
      && (id in s.db.publicIndex <==> b.poll.isPublic)
      && (b.poll.createdBy, id) in s.db.created
  }

  /** Creators' sets name only the creator's polls, with the score `createdScore` gives. */
  ghost predicate Scored(s: State) {
    forall k :: k in s.db.created && k.1 in s.born ==>
      && s.born[k.1].poll.createdBy == k.0
      && s.db.created[k] == CreatedScore(s.born[k.1].poll.createdAt, s.born[k.1].salt)
  }

  /** An index entry of a poll that is gone is about to be removed by a delete on its way. */
  ghost predicate NoStaleEntry(s: State) {
    && (forall id :: id in s.db.index && id in s.born && !Live(s.db, id) ==>
          BeingRemoved(s, id, s.born[id].poll.createdBy, 1))
    && (forall id :: id in s.db.publicIndex && id in s.born && !Live(s.db, id) ==>
          BeingRemoved(s, id, s.born[id].poll.createdBy, 2))
    && (forall k :: k in s.db.created && k.1 in s.born && !Live(s.db, k.1) ==>
          BeingRemoved(s, k.1, s.born[k.1].poll.createdBy, 3))
  }

  /** Everything but the ballots. */
  ghost predicate RecordsInv(s: State) {
    Known(s) && TrueToBirth(s) && ClientsOk(s) && Indexed(s) && Scored(s) && NoStaleEntry(s)
  }

  ghost predicate Inv(s: State) {
    LedgerInv(s.db) && RecordsInv(s)
  }

  lemma InitInv(now: int)
    ensures Inv(Init(now))
  {
  }

  // ---------- One part of the invariant at a time ----------

  /** Births only grow and no born poll comes back to life. */
  ghost predicate Ages(s: State, t: State) {
    && s.born.Keys <= t.born.Keys && (forall id :: id in s.born ==> t.born[id] == s.born[id])
    && (forall id :: id in s.born && Live(t.db, id) ==> Live(s.db, id))
  }

  lemma ClientsKept(s: State, t: State, moved: set<nat>)
    requires ClientsOk(s) && Ages(s, t)
    requires Elsewhere(s, t, moved)
    requires forall c :: c in t.clients && c in moved ==> ClientOk(t, t.clients[c])
    ensures ClientsOk(t)
  {
    forall d | d in t.clients
      ensures ClientOk(t, t.clients[d])
    {
      if d !in moved {
        assert ClientOk(s, s.clients[d]);
      }
    }
  }

  /** Clients outside a set stand where they stood. */
  ghost predicate Elsewhere(s: State, t: State, moved: set<nat>) {
    && (forall d :: d in s.clients && d !in moved ==> d in t.clients)
    && (forall d :: d in t.clients && d !in moved ==> d in s.clients && t.clients[d] == s.clients[d])
  }

  /** A removal in progress stays one, unless it is a moving client's and that client moves past it. */
  lemma RemovalKept(s: State, t: State, moved: set<nat>, id: PollId, user: UserId, upTo: nat)
    requires BeingRemoved(s, id, user, upTo)
    requires Elsewhere(s, t, moved)
    requires forall c :: c in moved && c in s.clients && Removing(s.clients[c], id, user, upTo) ==>
               c in t.clients && Removing(t.clients[c], id, user, upTo)
    ensures BeingRemoved(t, id, user, upTo)
  {
    var d :| d in s.clients && Removing(s.clients[d], id, user, upTo);
    assert d in t.clients && Removing(t.clients[d], id, user, upTo);
  }

  /** No index gains an entry for a poll born before. */
  ghost predicate IndexesShrink(s: State, t: State) {
    && (forall id :: id in s.born && id in t.db.index ==> id in s.db.index)
    && (forall id :: id in s.born && id in t.db.publicIndex ==> id in s.db.publicIndex)
    && (forall k :: k in t.db.created && k.1 in s.born ==> k in s.db.created)
  }

  predicate InRemoval(pc: Pc) {
    pc.RemIndex? || pc.RemPublic? || pc.RemCreated?
  }

  /** A step by clients that are not removing, in which no poll dies and polls are born alive. */
  lemma StaleKept(s: State, t: State, moved: set<nat>)
    requires NoStaleEntry(s) && Ages(s, t) && IndexesShrink(s, t) && Elsewhere(s, t, moved)
    requires forall id :: id in s.born && Live(s.db, id) ==> Live(t.db, id)
    requires forall id :: id in t.born && id !in s.born ==> Live(t.db, id)
    requires forall c :: c in moved && c in s.clients ==> !InRemoval(s.clients[c])
    ensures NoStaleEntry(t)
  {
    forall id | id in t.db.index && id in t.born && !Live(t.db, id)
      ensures BeingRemoved(t, id, t.born[id].poll.createdBy, 1)
    {
      RemovalKept(s, t, moved, id, s.born[id].poll.createdBy, 1);
    }
    forall id | id in t.db.publicIndex && id in t.born && !Live(t.db, id)
      ensures BeingRemoved(t, id, t.born[id].poll.createdBy, 2)
    {
      RemovalKept(s, t, moved, id, s.born[id].poll.createdBy, 2);
    }
    forall k | k in t.db.created && k.1 in t.born && !Live(t.db, k.1)
      ensures BeingRemoved(t, k.1, t.born[k.1].poll.createdBy, 3)
    {
      RemovalKept(s, t, moved, k.1, s.born[k.1].poll.createdBy, 3);
    }
  }

  /** A step that leaves metadata, indexes and births alone. */
  ghost predicate BallotStep(s: State, t: State) {
    && t.born == s.born && SameRecords(s.db, t.db)
    && (forall v :: v in t.db.history ==> v.0 in t.born)
  }

  /** Clients may move meanwhile, from places that are no removal to places the state allows. */
  lemma BallotStepKeepsRecords(s: State, t: State, moved: set<nat>)
    requires RecordsInv(s) && BallotStep(s, t) && Elsewhere(s, t, moved)
    requires forall c :: c in moved && c in s.clients ==> !InRemoval(s.clients[c])
    requires forall c :: c in moved && c in t.clients ==> ClientOk(t, t.clients[c])
    ensures RecordsInv(t)
  {
    assert forall id :: Live(t.db, id) <==> Live(s.db, id);
    ClientsKept(s, t, moved);
    StaleKept(s, t, moved);
  }

  /** No records change, and at most this user's choice on this poll is new. */
  ghost predicate NewChoiceAtMost(db: Db, d: Db, id: PollId, user: UserId) {
    && SameRecords(db, d)
    && (forall v :: v in d.history ==> v in db.history || (v == (id, user) && id in db.meta))
  }

  lemma VoteTouches(db: Db, id: PollId, user: UserId, option: string, key: string, now: int)
    ensures NewChoiceAtMost(db, VoteScript(db, id, user, option, key, now).1, id, user)
  {
    if VoteScript(db, id, user, option, key, now).0 == OK {
      assert NewChoiceAtMost(db, CastVote(db, id, user, option), id, user);
    }
  }

  lemma UndoTouches(db: Db, id: PollId, user: UserId, key: string, now: int)
    ensures NewChoiceAtMost(db, UndoScript(db, id, user, key, now).1, id, user)
  {
    if UndoScript(db, id, user, key, now).0 == OK {
      assert NewChoiceAtMost(db, RetractVote(db, id, user, db.history[(id, user)]), id, user);
    }
  }

  lemma ScriptKeepsRecords(s: State, e: Event)
    requires RecordsInv(s) && (e.Vote? || e.Undo?) && Allowed(s, e)
    ensures RecordsInv(Step(s, e))
  {
    var t := Step(s, e);
    if e.Vote? {
      VoteTouches(s.db, e.id, e.user, e.option, e.key, s.now);
    } else {
      UndoTouches(s.db, e.id, e.user, e.key, s.now);
    }
    assert NewChoiceAtMost(s.db, t.db, e.id, e.user);
    BallotStepKeepsRecords(s, t, {});
  }

  /** Metadata only ages and indexes only lose entries of polls that are gone. */
  ghost predicate Shrinks(s: State, t: State) {
    && t.born == s.born && t.db.history == s.db.history
    && (forall id :: id in t.db.meta ==> id in s.born)
    && (forall id :: Live(t.db, id) ==>
          && Live(s.db, id)
          && t.db.meta[id].(isClosed := true, updatedBy := "") == s.db.meta[id].(isClosed := true, updatedBy := ""))
    && (forall id :: id in t.db.options ==> id in s.db.options && t.db.options[id] == s.db.options[id])
    && t.db.index <= s.db.index && t.db.publicIndex <= s.db.publicIndex
    && (forall k :: k in t.db.created ==> k in s.db.created && t.db.created[k] == s.db.created[k])
    && (forall id :: Live(t.db, id) && id in s.db.index ==> id in t.db.index)
    && (forall id :: Live(t.db, id) && id in s.db.publicIndex ==> id in t.db.publicIndex)
    && (forall k :: k in s.db.created && Live(t.db, k.1) ==> k in t.db.created)
  }

  lemma KnownKept(s: State, t: State)
    requires Known(s) && Shrinks(s, t)
    ensures Known(t)
  {
  }

  lemma BirthKept(s: State, t: State)
    requires TrueToBirth(s) && Shrinks(s, t)
    ensures TrueToBirth(t)
  {
    forall id | Live(t.db, id) && id in t.born
      ensures Unchanging(t.db.meta[id], t.born[id].poll)
    {
      assert Unchanging(s.db.meta[id], s.born[id].poll);
    }
  }

  lemma IndexesKept(s: State, t: State)
    requires Indexed(s) && Scored(s) && Shrinks(s, t)
    ensures Indexed(t) && Scored(t)
  {
  }

  lemma CreateKeepsFacts(s: State, p: Poll, salt: nat)
    requires Known(s) && TrueToBirth(s) && Allowed(s, Create(p, salt))
    ensures Known(Step(s, Create(p, salt))) && TrueToBirth(Step(s, Create(p, salt)))
  {
    var t := Step(s, Create(p, salt));
    forall id | Live(t.db, id) && id in t.born
      ensures Unchanging(t.db.meta[id], t.born[id].poll)
    {
      if id != p.id {
        assert Live(s.db, id);
      }
    }
  }

  lemma CreateKeepsIndexes(s: State, p: Poll, salt: nat)
    requires Known(s) && Indexed(s) && Scored(s) && Allowed(s, Create(p, salt))
    ensures Indexed(Step(s, Create(p, salt))) && Scored(Step(s, Create(p, salt)))
  {
    var t := Step(s, Create(p, salt));
    forall id | Live(t.db, id) && id in t.born && id != p.id
      ensures id in t.db.index && (id in t.db.publicIndex <==> t.born[id].poll.isPublic)
      ensures (t.born[id].poll.createdBy, id) in t.db.created
    {
      assert Live(s.db, id) && id in s.born;
    }
  }

  lemma CreateAges(s: State, p: Poll, salt: nat)
    requires Known(s) && Allowed(s, Create(p, salt))
    ensures var t := Step(s, Create(p, salt));
            && Ages(s, t) && IndexesShrink(s, t) && Live(t.db, p.id)
            && (forall id :: id in s.born && Live(s.db, id) ==> Live(t.db, id))
  {
  }

  lemma CreateKeepsRecords(s: State, p: Poll, salt: nat)
    requires RecordsInv(s) && Allowed(s, Create(p, salt))
    ensures RecordsInv(Step(s, Create(p, salt)))
  {
    var t := Step(s, Create(p, salt));
    CreateKeepsFacts(s, p, salt);
    CreateKeepsIndexes(s, p, salt);
    CreateAges(s, p, salt);
    ClientsKept(s, t, {});
    StaleKept(s, t, {});
  }

  lemma ShrinkKeepsFacts(s: State, t: State)
    requires Known(s) && TrueToBirth(s) && Indexed(s) && Scored(s) && Shrinks(s, t)
    ensures Known(t) && TrueToBirth(t) && Indexed(t) && Scored(t)
  {
    KnownKept(s, t);
    BirthKept(s, t);
    IndexesKept(s, t);
  }

  lemma CloseShrinks(s: State, t: State, id: PollId, user: UserId)
    requires Known(s) && OptionsMatch(s.db) && id in s.born
    requires t.db == MarkClosed(s.db, id, user) && t.born == s.born
    ensures Shrinks(s, t) && Ages(s, t) && IndexesShrink(s, t)
    ensures forall i :: Live(t.db, i) <==> Live(s.db, i)
  {
  }

  lemma CloseKeepsClients(s: State, c: nat)
    requires ClientsOk(s) && c in s.clients && s.clients[c].Write? && s.clients[c].op.Close?
    requires Ages(s, AdvanceStep(s, c))
    ensures ClientsOk(AdvanceStep(s, c)) && Elsewhere(s, AdvanceStep(s, c), {c})
  {
    ClientsKept(s, AdvanceStep(s, c), {c});
  }

  lemma CloseKeepsRecords(s: State, c: nat)
    requires RecordsInv(s) && OptionsMatch(s.db)
    requires c in s.clients && s.clients[c].Write? && s.clients[c].op.Close?
    ensures RecordsInv(AdvanceStep(s, c))
  {
    var pc := s.clients[c];
    var t := AdvanceStep(s, c);
    assert ClientOk(s, pc);
    CloseShrinks(s, t, pc.id, pc.user);
    ShrinkKeepsFacts(s, t);
    CloseKeepsClients(s, c);
    StaleKept(s, t, {c});
  }

  lemma DropShrinks(s: State, t: State, id: PollId)
    requires Known(s) && OptionsMatch(s.db)
    requires t.db == DropPoll(s.db, id) && t.born == s.born
    ensures Shrinks(s, t) && Ages(s, t) && IndexesShrink(s, t)
    ensures forall i :: Live(t.db, i) <==> Live(s.db, i) && i != id
  {
  }

  /** The poll dies, and its deleter is now the one removing its index entries. */
  lemma DropHasWitness(s: State, t: State, c: nat, key: string, id: PollId, user: UserId)
    requires NoStaleEntry(s) && t.born == s.born && IndexesShrink(s, t)
    requires forall i :: Live(t.db, i) <==> Live(s.db, i) && i != id
    requires id in s.born && OwnerUnlessGone(s, id, user)
    requires c in s.clients && !InRemoval(s.clients[c])
    requires t.clients == s.clients[c := RemIndex(id, user, key)]
    ensures NoStaleEntry(t)
  {
    forall i, n: nat | 1 <= n <= 3 && i in t.born && !Live(t.db, i)
      ensures (Live(s.db, i) || BeingRemoved(s, i, s.born[i].poll.createdBy, n)) ==>
                BeingRemoved(t, i, t.born[i].poll.createdBy, n)
    {
      if Live(s.db, i) {
        assert Removing(t.clients[c], i, t.born[i].poll.createdBy, n);
      } else if BeingRemoved(s, i, s.born[i].poll.createdBy, n) {
        RemovalKept(s, t, {c}, i, s.born[i].poll.createdBy, n);
      }
    }
  }

  lemma DropKeepsRecords(s: State, c: nat)
    requires RecordsInv(s) && OptionsMatch(s.db)
    requires c in s.clients && s.clients[c].Write? && s.clients[c].op.Delete?
    ensures RecordsInv(AdvanceStep(s, c))
  {
    var pc := s.clients[c];
    var t := AdvanceStep(s, c);
    assert ClientOk(s, pc);
    DropShrinks(s, t, pc.id);
    ShrinkKeepsFacts(s, t);
    ClientsKept(s, t, {c});
    DropHasWitness(s, t, c, pc.key, pc.id, pc.user);
  }

  lemma LedgerIgnoresIndexes(db: Db, d: Db)
    requires LedgerInv(db)
    requires d == db.(index := d.index, publicIndex := d.publicIndex, created := d.created)
    ensures LedgerInv(d)
  {
    assert forall i, o :: Supporters(d, i, o) == Supporters(db, i, o);
    assert forall i :: Live(d, i) <==> Live(db, i);
  }

  lemma RemoveShrinks(s: State, c: nat)
    requires Known(s) && OptionsMatch(s.db) && c in s.clients && InRemoval(s.clients[c])
    requires !Live(s.db, s.clients[c].id)
    ensures Shrinks(s, AdvanceStep(s, c)) && IndexesShrink(s, AdvanceStep(s, c))
  {
  }

  /** Each removal step takes out the very entry it was the witness for. */
  lemma RemoveKeepsNoStale(s: State, c: nat)
    requires NoStaleEntry(s) && Scored(s) && c in s.clients && InRemoval(s.clients[c])
    requires IndexesShrink(s, AdvanceStep(s, c))
    ensures NoStaleEntry(AdvanceStep(s, c))
  {
    var t := AdvanceStep(s, c);
    forall id | id in t.db.index && id in t.born && !Live(t.db, id)
      ensures BeingRemoved(t, id, t.born[id].poll.createdBy, 1)
    {
      RemovalKept(s, t, {c}, id, s.born[id].poll.createdBy, 1);
    }
    forall id | id in t.db.publicIndex && id in t.born && !Live(t.db, id)
      ensures BeingRemoved(t, id, t.born[id].poll.createdBy, 2)
    {
      RemovalKept(s, t, {c}, id, s.born[id].poll.createdBy, 2);
    }
    forall k | k in t.db.created && k.1 in t.born && !Live(t.db, k.1)
      ensures BeingRemoved(t, k.1, t.born[k.1].poll.createdBy, 3)
    {
      assert k == (k.0, k.1);
      RemovalKept(s, t, {c}, k.1, s.born[k.1].poll.createdBy, 3);
    }
  }

  lemma RemoveKeepsClients(s: State, c: nat)
    requires ClientsOk(s) && c in s.clients && InRemoval(s.clients[c])
    ensures ClientsOk(AdvanceStep(s, c)) && !Live(s.db, s.clients[c].id)
  {
    assert ClientOk(s, s.clients[c]);
    ClientsKept(s, AdvanceStep(s, c), {c});
  }

  lemma RemoveKeepsRecords(s: State, c: nat)
    requires RecordsInv(s) && OptionsMatch(s.db) && c in s.clients && InRemoval(s.clients[c])
    ensures RecordsInv(AdvanceStep(s, c))
  {
    RemoveKeepsClients(s, c);
    RemoveShrinks(s, c);
    ShrinkKeepsFacts(s, AdvanceStep(s, c));
    RemoveKeepsNoStale(s, c);
  }

  /** A decision leads where the state allows. */
  lemma DecideStep(s: State, c: nat)
    requires Known(s) && TrueToBirth(s) && c in s.clients && s.clients[c].Decide? && ClientOk(s, s.clients[c])
    ensures ClientOk(AdvanceStep(s, c), AdvanceStep(s, c).clients[c])
  {
    var pc := s.clients[c];
    if Live(s.db, pc.id) {
      assert Unchanging(s.db.meta[pc.id], s.born[pc.id].poll);
    }
  }

  /** Reads, decisions and idempotency writes change no poll and lead where the state allows. */
  lemma QuietStep(s: State, c: nat)
    requires ClientsOk(s) && Known(s) && TrueToBirth(s) && c in s.clients && !s.clients[c].Done?
    requires !s.clients[c].Write? && !InRemoval(s.clients[c])
    ensures var t := AdvanceStep(s, c);
            BallotStep(s, t) && Elsewhere(s, t, {c}) && c in t.clients && ClientOk(t, t.clients[c])
  {
    assert ClientOk(s, s.clients[c]);
    if s.clients[c].Decide? {
      DecideStep(s, c);
    }
  }

  lemma QuietKeepsRecords(s: State, c: nat)
    requires RecordsInv(s) && c in s.clients && !s.clients[c].Done?
    requires !s.clients[c].Write? && !InRemoval(s.clients[c])
    ensures RecordsInv(AdvanceStep(s, c))
  {
    QuietStep(s, c);
    BallotStepKeepsRecords(s, AdvanceStep(s, c), {c});
  }

  lemma AdvanceKeepsRecords(s: State, c: nat)
    requires RecordsInv(s) && OptionsMatch(s.db) && c in s.clients && !s.clients[c].Done?
    ensures RecordsInv(AdvanceStep(s, c))
  {
    var pc := s.clients[c];
    if pc.Write? && pc.op.Close? {
      CloseKeepsRecords(s, c);
    } else if pc.Write? {
      DropKeepsRecords(s, c);
    } else if InRemoval(pc) {
      RemoveKeepsRecords(s, c);
    } else {
      QuietKeepsRecords(s, c);
    }
  }

  lemma AdvanceKeepsLedger(s: State, c: nat)
    requires LedgerInv(s.db) && c in s.clients && !s.clients[c].Done?
    ensures LedgerInv(AdvanceStep(s, c).db)
  {
    if InRemoval(s.clients[c]) {
      LedgerIgnoresIndexes(s.db, AdvanceStep(s, c).db);
    } else {
      match s.clients[c]
      case Write(op, id, user, key) =>
        CloseKeepsLedger(s.db, id, user);
        DropKeepsLedger(s.db, id);
      case SetKey(user, key) => IdemIsApart(s.db, user, key, s.now);
      case _ =>
    }
  }

  lemma StepKeepsLedger(s: State, e: Event)
    requires LedgerInv(s.db) && Known(s) && Allowed(s, e)
    ensures LedgerInv(Step(s, e).db)
  {
    match e
    case Create(p, salt) => CreateKeepsLedger(s.db, p, salt);
    case Vote(id, user, option, key) => ScriptsKeepLedger(s.db, id, user, option, key, s.now);
    case Undo(id, user, key) => ScriptsKeepLedger(s.db, id, user, "", key, s.now);
    case Advance(c) => AdvanceKeepsLedger(s, c);
    case _ =>
  }

  lemma StartKeepsRecords(s: State, e: Event)
    requires RecordsInv(s) && e.Start? && Allowed(s, e)
    ensures RecordsInv(Step(s, e))
  {
    BallotStepKeepsRecords(s, Step(s, e), {e.client});
  }

  lemma StepKeepsRecords(s: State, e: Event)
    requires RecordsInv(s) && OptionsMatch(s.db) && Allowed(s, e)
    ensures RecordsInv(Step(s, e))
  {
    match e
    case Tick(_) => BallotStepKeepsRecords(s, Step(s, e), {});
    case Create(p, salt) => CreateKeepsRecords(s, p, salt);
    case Vote(_, _, _, _) => ScriptKeepsRecords(s, e);
    case Undo(_, _, _) => ScriptKeepsRecords(s, e);
    case Start(_, _, _, _, _) => StartKeepsRecords(s, e);
    case Advance(c) => AdvanceKeepsRecords(s, c);
  }

  /** One step of anyone keeps the whole invariant. */
  lemma StepKeepsInv(s: State, e: Event)
    requires Inv(s) && Allowed(s, e)
    ensures Inv(Step(s, e))
  {
    StepKeepsLedger(s, e);
    StepKeepsRecords(s, e);
  }

  /** So does every run. */
  lemma {:induction false} RunKeepsInv(s: State, es: seq<Event>)
    requires Inv(s) && ValidRun(s, es)
    ensures Inv(Run(s, es))
    decreases |es|
  {
    if es != [] {
      StepKeepsInv(s, es[0]);
      RunKeepsInv(Step(s, es[0]), es[1..]);
    }
  }
}
