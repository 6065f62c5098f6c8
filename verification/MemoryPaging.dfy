/**
 Paging through a creator's polls on the memory store while anybody creates, closes, deletes and votes between the
 pages (internal/store/memory/memory.go:307-361). Every call filters and sorts anew, so the order among equal scores
 may differ from call to call.
 */
module MemoryPaging {
  import opened Common
  import opened Paging
  import Ballot
  import M = MemoryStore
  import Equivalence

  type Timed = Equivalence.Timed

  function At(ops: seq<Timed>, i: nat): M.Mem
    requires i <= |ops|
  {
    Equivalence.MemoryAfter(M.EMPTY_MEM, ops[..i])
  }

  predicate Creates(t: Timed, id: PollId) {
    t.op.Create? && t.op.poll.id == id
  }

  /** Poll ids are never reused. */
  ghost predicate FreshIds(ops: seq<Timed>) {
    forall i, j, id :: 0 <= i < j < |ops| && Creates(ops[i], id) ==> !Creates(ops[j], id)
  }

  lemma {:induction false} AfterOneMore(m: M.Mem, ops: seq<Timed>, t: Timed)
    ensures Equivalence.MemoryAfter(m, ops + [t]) == Ballot.OnMemory(Equivalence.MemoryAfter(m, ops), t.op, t.at).1
    decreases |ops|
  {
    if ops == [] {
      assert ops + [t] == [t];
      assert Equivalence.MemoryAfter(Ballot.OnMemory(m, t.op, t.at).1, [t][1..]) == Ballot.OnMemory(m, t.op, t.at).1;
    } else {
      assert (ops + [t])[1..] == ops[1..] + [t];
      AfterOneMore(Ballot.OnMemory(m, ops[0].op, ops[0].at).1, ops[1..], t);
    }
  }

  lemma AtNext(ops: seq<Timed>, i: nat)
    requires i < |ops|
    ensures At(ops, i + 1) == Ballot.OnMemory(At(ops, i), ops[i].op, ops[i].at).1
  {
    assert ops[..i + 1] == ops[..i] + [ops[i]];
    AfterOneMore(M.EMPTY_MEM, ops[..i], ops[i]);
  }

  /** The poll an operation made: creator and creation time never change. */
  predicate Makes(t: Timed, p: Poll) {
    Creates(t, p.id) && t.op.poll.createdBy == p.createdBy && t.op.poll.createdAt == p.createdAt
  }

  /** Every stored poll stands under its id and its creator's list, and is as it was made. */
  ghost predicate Kept(m: M.Mem, id: PollId) {
    id in m.polls ==> m.polls[id].id == id && id in M.CreatedBy(m, m.polls[id].createdBy)
  }

  lemma PollKept(m: M.Mem, t: Timed, id: PollId)
    requires Kept(m, id)
    ensures var n := Ballot.OnMemory(m, t.op, t.at).1;
            && Kept(n, id)
            && (id in n.polls ==>
                  Makes(t, n.polls[id])
                  || (id in m.polls && n.polls[id].createdBy == m.polls[id].createdBy
                      && n.polls[id].createdAt == m.polls[id].createdAt))
            && (id !in m.polls && !Creates(t, id) ==> id !in n.polls)
  {
  }

  /** No operation opens a closed poll again. */
  lemma ClosedKept(m: M.Mem, t: Timed, id: PollId)
    requires Kept(m, id) && id in m.polls && m.polls[id].isClosed && !Creates(t, id)
    ensures var n := Ballot.OnMemory(m, t.op, t.at).1;
            id in n.polls ==> n.polls[id].isClosed
  {
  }

  /** Whatever is stored was made by an earlier operation. */
  lemma {:induction false} WasMade(ops: seq<Timed>, i: nat, id: PollId)
    requires i <= |ops|
    ensures Kept(At(ops, i), id)
    ensures id in At(ops, i).polls ==> exists k :: 0 <= k < i && Makes(ops[k], At(ops, i).polls[id])
    decreases i
  {
    if i > 0 {
      WasMade(ops, i - 1, id);
      AtNext(ops, i - 1);
      PollKept(At(ops, i - 1), ops[i - 1], id);
      if id in At(ops, i).polls && !Makes(ops[i - 1], At(ops, i).polls[id]) {
        var k :| 0 <= k < i - 1 && Makes(ops[k], At(ops, i - 1).polls[id]);
        assert Makes(ops[k], At(ops, i).polls[id]);
      }
    }
  }

  /** At any two moments a poll has the same creator and the same score. */
  lemma SameCore(ops: seq<Timed>, i: nat, j: nat, id: PollId)
    requires FreshIds(ops) && i <= |ops| && j <= |ops| && id in At(ops, i).polls && id in At(ops, j).polls
    ensures At(ops, i).polls[id].createdBy == At(ops, j).polls[id].createdBy
    ensures At(ops, i).polls[id].createdAt == At(ops, j).polls[id].createdAt
  {
    WasMade(ops, i, id);
    WasMade(ops, j, id);
    var k :| 0 <= k < i && Makes(ops[k], At(ops, i).polls[id]);
    var n :| 0 <= n < j && Makes(ops[n], At(ops, j).polls[id]);
    assert Creates(ops[k], id) && Creates(ops[n], id);
  }

  /** A deleted poll stays away. */
  lemma {:induction false} StaysAway(ops: seq<Timed>, k: nat, i: nat, j: nat, id: PollId)
    requires FreshIds(ops) && k < i <= j <= |ops| && Creates(ops[k], id) && id !in At(ops, i).polls
    ensures id !in At(ops, j).polls
    decreases j
  {
    if i < j {
      StaysAway(ops, k, i, j - 1, id);
      AtNext(ops, j - 1);
      PollKept(At(ops, j - 1), ops[j - 1], id);
    }
  }

  /** A poll there at two moments is there at all moments between. */
  lemma ThereBetween(ops: seq<Timed>, i: nat, j: nat, n: nat, id: PollId)
    requires FreshIds(ops) && i <= j <= n <= |ops| && id in At(ops, i).polls && id in At(ops, n).polls
    ensures id in At(ops, j).polls
  {
    WasMade(ops, i, id);
    var k :| 0 <= k < i && Makes(ops[k], At(ops, i).polls[id]);
    assert Creates(ops[k], id);
    if id !in At(ops, j).polls {
      StaysAway(ops, k, j, n, id);
    }
  }

  lemma {:induction false} ClosedStays(ops: seq<Timed>, k: nat, i: nat, j: nat, id: PollId)
    requires FreshIds(ops) && k < i <= j <= |ops| && Creates(ops[k], id)
    requires id in At(ops, i).polls && At(ops, i).polls[id].isClosed && id in At(ops, j).polls
    ensures At(ops, j).polls[id].isClosed
    decreases j
  {
    if i < j {
      ThereBetween(ops, i, j - 1, j, id);
      ClosedStays(ops, k, i, j - 1, id);
      WasMade(ops, j - 1, id);
      AtNext(ops, j - 1);
      ClosedKept(At(ops, j - 1), ops[j - 1], id);
    }
  }

  /** A poll open at a later moment was open before. */
  lemma OpenBefore(ops: seq<Timed>, i: nat, j: nat, id: PollId)
    requires FreshIds(ops) && i <= j <= |ops| && id in At(ops, i).polls
    requires id in At(ops, j).polls && !At(ops, j).polls[id].isClosed
    ensures !At(ops, i).polls[id].isClosed
  {
    WasMade(ops, i, id);
    var k :| 0 <= k < i && Makes(ops[k], At(ops, i).polls[id]);
    assert Creates(ops[k], id);
    if At(ops, i).polls[id].isClosed {
      ClosedStays(ops, k, i, j, id);
    }
  }

  // ---------- Pages ----------

  /** What a call sees at one moment: the listable polls, sorted in some descending order; all of them are shown. */
  ghost predicate Lists(v: Visit, m: M.Mem, user: UserId, includeClosed: bool, salt: PollId -> nat) {
    && (exists sorted ::
          M.SortedListing(m, user, includeClosed, salt, sorted) && v.rows == M.RowsOf(sorted, salt))
    && (forall r :: r in v.rows ==> r.id in v.shown)
  }

  /** Page calls made one after the other during a run. */
  ghost predicate DuringRun(visits: seq<Visit>, ops: seq<Timed>, at: seq<nat>, user: UserId, includeClosed: bool,
                            salt: PollId -> nat) {
    && |at| == |visits| && (forall i :: 0 <= i < |at| ==> at[i] <= |ops|)
    && (forall i, j :: 0 <= i < j < |at| ==> at[i] <= at[j])
    && (forall i :: 0 <= i < |at| ==> Lists(visits[i], At(ops, at[i]), user, includeClosed, salt))
  }

  /** A listing is descending, names each poll once, and has exactly the listable polls with their scores. */
  lemma Listing(v: Visit, m: M.Mem, user: UserId, includeClosed: bool, salt: PollId -> nat)
    requires Lists(v, m, user, includeClosed, salt)
    ensures Descending(v.rows) && DistinctIds(v.rows)
    ensures forall r :: r in v.rows ==> r.id in m.polls && r.score == CreatedScore(m.polls[r.id].createdAt, salt(r.id))
    ensures forall id :: M.Listable(m, user, includeClosed, id) && m.polls[id].id == id ==>
              M.RowOf(m.polls[id], salt) in v.rows
  {
    var sorted :| M.SortedListing(m, user, includeClosed, salt, sorted) && v.rows == M.RowsOf(sorted, salt);
    M.RowsAt(sorted, salt);
    M.RowsOrdered(sorted, salt);
    forall r | r in v.rows
      ensures r.id in m.polls && r.score == CreatedScore(m.polls[r.id].createdAt, salt(r.id))
    {
      var i :| 0 <= i < |sorted| && r == M.RowOf(sorted[i], salt);
      assert sorted[i] in sorted;
    }
    forall id | M.Listable(m, user, includeClosed, id) && m.polls[id].id == id
      ensures M.RowOf(m.polls[id], salt) in v.rows
    {
      assert m.polls[id] in sorted;
      var i :| 0 <= i < |sorted| && sorted[i] == m.polls[id];
      assert v.rows[i] == M.RowOf(m.polls[id], salt);
    }
  }

  lemma ListingsAgree(visits: seq<Visit>, ops: seq<Timed>, at: seq<nat>, user: UserId, includeClosed: bool,
                      salt: PollId -> nat, i: nat, j: nat)
    requires FreshIds(ops) && DuringRun(visits, ops, at, user, includeClosed, salt) && i < |visits| && j < |visits|
    ensures SameScores(visits[i].rows, visits[j].rows)
  {
    Listing(visits[i], At(ops, at[i]), user, includeClosed, salt);
    Listing(visits[j], At(ops, at[j]), user, includeClosed, salt);
    forall r, q | r in visits[i].rows && q in visits[j].rows && r.id == q.id
      ensures r.score == q.score
    {
      SameCore(ops, at[i], at[j], r.id);
    }
  }

  lemma RunsAreWellListed(visits: seq<Visit>, ops: seq<Timed>, at: seq<nat>, user: UserId, includeClosed: bool,
                          salt: PollId -> nat)
    requires FreshIds(ops) && DuringRun(visits, ops, at, user, includeClosed, salt)
    ensures WellListed(visits)
  {
    forall i | 0 <= i < |visits|
      ensures Descending(visits[i].rows) && DistinctIds(visits[i].rows)
    {
      Listing(visits[i], At(ops, at[i]), user, includeClosed, salt);
    }
    forall i, j | 0 <= i < |visits| && 0 <= j < |visits|
      ensures SameScores(visits[i].rows, visits[j].rows)
    {
      ListingsAgree(visits, ops, at, user, includeClosed, salt, i, j);
    }
  }

  /** Walking the pages of a creator's polls during any run of the memory store: no poll is ever served twice. */
  lemma NoPollTwiceInMemoryRun(visits: seq<Visit>, cursors: seq<Option<int>>, size: nat, ops: seq<Timed>, at: seq<nat>,
                               user: UserId, includeClosed: bool, salt: PollId -> nat, i: nat, j: nat, r: Row, q: Row)
    requires FreshIds(ops) && DuringRun(visits, ops, at, user, includeClosed, salt)
    requires size >= 1 && Chained(visits, cursors, size) && i <= j < |visits|
    requires r in Served(visits[i], cursors[i], size) && q in Served(visits[j], cursors[j], size)
    ensures r.id == q.id ==> i == j && r == q
  {
    RunsAreWellListed(visits, ops, at, user, includeClosed, salt);
    if i < j {
      NoPollTwice(visits, cursors, i, j, size, r, q);
    } else {
      ServedBounds(visits[i], cursors[i], size, r);
      ServedBounds(visits[j], cursors[j], size, q);
      assert SameScores(visits[i].rows, visits[j].rows);
    }
  }

  /** A poll listable at the last page and there at the first is listable at every page between. */
  lemma ListableThroughout(ops: seq<Timed>, i: nat, j: nat, n: nat, user: UserId, includeClosed: bool, id: PollId)
    requires FreshIds(ops) && i <= j <= n <= |ops| && id in At(ops, i).polls && id in At(ops, n).polls
    requires At(ops, i).polls[id].createdBy == user && (includeClosed || !At(ops, n).polls[id].isClosed)
    ensures id in At(ops, j).polls && At(ops, j).polls[id].id == id
    ensures At(ops, j).polls[id].createdAt == At(ops, i).polls[id].createdAt
    ensures M.Listable(At(ops, j), user, includeClosed, id)
  {
    ThereBetween(ops, i, j, n, id);
    SameCore(ops, i, j, id);
    WasMade(ops, j, id);
    if !includeClosed {
      OpenBefore(ops, j, n, id);
    }
  }

  /** So it is listed and shown at every page. */
  lemma LastingPollIsPresent(visits: seq<Visit>, ops: seq<Timed>, at: seq<nat>, user: UserId, includeClosed: bool,
                             salt: PollId -> nat, id: PollId)
    requires FreshIds(ops) && DuringRun(visits, ops, at, user, includeClosed, salt) && visits != []
    requires id in At(ops, at[0]).polls && At(ops, at[0]).polls[id].createdBy == user
    requires id in At(ops, at[|at| - 1]).polls && (includeClosed || !At(ops, at[|at| - 1]).polls[id].isClosed)
    ensures Present(visits, Row(id, CreatedScore(At(ops, at[0]).polls[id].createdAt, salt(id))))
  {
    var row := Row(id, CreatedScore(At(ops, at[0]).polls[id].createdAt, salt(id)));
    forall i | 0 <= i < |visits|
      ensures row in visits[i].rows && row.id in visits[i].shown
    {
      ListableThroughout(ops, at[0], at[i], at[|at| - 1], user, includeClosed, id);
      Listing(visits[i], At(ops, at[i]), user, includeClosed, salt);
    }
  }

  /**
   In a finished walk a poll of the creator that is there from the first page to the last and, if closed polls are
   left out, still unflagged then, is served, unless a page ended at its very score; and it is served in any case
   where no other listed poll has that score.
   */
  lemma LastingPollServedInMemoryRun(visits: seq<Visit>, cursors: seq<Option<int>>, size: nat, ops: seq<Timed>,
                                     at: seq<nat>, user: UserId, includeClosed: bool, salt: PollId -> nat, id: PollId)
    requires FreshIds(ops) && DuringRun(visits, ops, at, user, includeClosed, salt) && visits != []
    requires size >= 1 && Chained(visits, cursors, size) && cursors[|visits|] == None
    requires id in At(ops, at[0]).polls && At(ops, at[0]).polls[id].createdBy == user
    requires id in At(ops, at[|at| - 1]).polls && (includeClosed || !At(ops, at[|at| - 1]).polls[id].isClosed)
    ensures var row := Row(id, CreatedScore(At(ops, at[0]).polls[id].createdAt, salt(id)));
            && (ServedBy(visits, cursors, size, row) || exists j :: 0 < j < |visits| && cursors[j] == Some(row.score))
            && (Untied(visits, row) ==> ServedBy(visits, cursors, size, row))
  {
    var row := Row(id, CreatedScore(At(ops, at[0]).polls[id].createdAt, salt(id)));
    RunsAreWellListed(visits, ops, at, user, includeClosed, salt);
    LastingPollIsPresent(visits, ops, at, user, includeClosed, salt, id);
    MissedOnlyAtPageEnd(visits, cursors, size, row);
    if Untied(visits, row) {
      LastingPollIsServed(visits, cursors, size, row);
    }
  }

  // ---------- A store that stands still ----------

  /** Page calls on one and the same content. */
  ghost predicate OnOne(visits: seq<Visit>, m: M.Mem, user: UserId, includeClosed: bool, salt: PollId -> nat) {
    forall i :: 0 <= i < |visits| ==> Lists(visits[i], m, user, includeClosed, salt)
  }

  ghost predicate IdsInPlace(m: M.Mem) {
    forall id :: id in m.polls ==> m.polls[id].id == id
  }

  /** The listable polls' rows. */
  ghost function Listed(m: M.Mem, user: UserId, includeClosed: bool, salt: PollId -> nat): set<Row> {
    set id | id in m.polls && M.Listable(m, user, includeClosed, id) ::
      Row(id, CreatedScore(m.polls[id].createdAt, salt(id)))
  }

  lemma ListingIsListed(v: Visit, m: M.Mem, user: UserId, includeClosed: bool, salt: PollId -> nat, r: Row)
    requires Lists(v, m, user, includeClosed, salt) && IdsInPlace(m)
    ensures r in v.rows <==> r in Listed(m, user, includeClosed, salt)
    ensures r in v.rows ==> r.id in v.shown
  {
    Listing(v, m, user, includeClosed, salt);
    ListedRow(v, m, user, includeClosed, salt, r);
    if r in Listed(m, user, includeClosed, salt) {
      assert M.RowOf(m.polls[r.id], salt) == r;
    }
  }

  lemma ListedRow(v: Visit, m: M.Mem, user: UserId, includeClosed: bool, salt: PollId -> nat, r: Row)
    requires Lists(v, m, user, includeClosed, salt)
    ensures r in v.rows ==> r in Listed(m, user, includeClosed, salt)
  {
    if r in v.rows {
      var sorted :| M.SortedListing(m, user, includeClosed, salt, sorted) && v.rows == M.RowsOf(sorted, salt);
      M.RowsAt(sorted, salt);
      var i :| 0 <= i < |sorted| && r == M.RowOf(sorted[i], salt);
      assert sorted[i] in sorted;
    }
  }

  /**
   A full walk over a memory store that stands still, ties ordered anew at every call: it serves listable polls only,
   and all of them if and only if no page splits a tie; what it misses shares the score of some page's end.
   */
  lemma MemoryMissesOnlyTies(visits: seq<Visit>, cursors: seq<Option<int>>, size: nat, m: M.Mem, user: UserId,
                             includeClosed: bool, salt: PollId -> nat)
    requires OnOne(visits, m, user, includeClosed, salt) && IdsInPlace(m) && visits != []
    requires size >= 1 && Chained(visits, cursors, size) && cursors[|visits|] == None
    ensures var all := Listed(m, user, includeClosed, salt);
            && (forall r :: ServedBy(visits, cursors, size, r) ==> r in all)
            && ((forall r :: r in all ==> ServedBy(visits, cursors, size, r)) <==>
                  (forall i :: 0 <= i < |visits| ==> !SplitsTie(visits[i].rows, cursors[i], size)))
            && (forall r :: r in all ==>
                  ServedBy(visits, cursors, size, r) || exists j :: 0 < j < |visits| && cursors[j] == Some(r.score))
  {
    var all := Listed(m, user, includeClosed, salt);
    OnOneWellListed(visits, m, user, includeClosed, salt);
    forall i, r | 0 <= i < |visits|
      ensures (r in visits[i].rows <==> r in all) && (r in all ==> r.id in visits[i].shown)
    {
      ListingIsListed(visits[i], m, user, includeClosed, salt, r);
    }
    ServesAllIff(visits, cursors, size, all);
    forall r | r in all
      ensures ServedBy(visits, cursors, size, r) || exists j :: 0 < j < |visits| && cursors[j] == Some(r.score)
    {
      MissedOnlyAtPageEnd(visits, cursors, size, r);
    }
    forall r | ServedBy(visits, cursors, size, r)
      ensures r in all
    {
      var i :| 0 <= i < |visits| && r in Served(visits[i], cursors[i], size);
      ServedBounds(visits[i], cursors[i], size, r);
    }
  }

  lemma OnOneWellListed(visits: seq<Visit>, m: M.Mem, user: UserId, includeClosed: bool, salt: PollId -> nat)
    requires OnOne(visits, m, user, includeClosed, salt)
    ensures WellListed(visits)
  {
    forall i | 0 <= i < |visits|
      ensures Descending(visits[i].rows) && DistinctIds(visits[i].rows)
    {
      Listing(visits[i], m, user, includeClosed, salt);
    }
    forall i, j | 0 <= i < |visits| && 0 <= j < |visits|
      ensures SameScores(visits[i].rows, visits[j].rows)
    {
      Listing(visits[i], m, user, includeClosed, salt);
      Listing(visits[j], m, user, includeClosed, salt);
    }
  }
}
