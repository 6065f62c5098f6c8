/**
 Paging through a creator's polls on the live ledger: each page reads the sorted set at one moment of a run and the
 polls themselves at later moments (internal/store/redis/store.go:384-419), while anyone creates and deletes polls.
 */
module PagingRuns {
  import opened Common
  import opened Ledger
  import opened Protocol
  import opened Invariants
  import opened Paging
  import Safety

  /** What ZREVRANGEBYSCORE can return for a creator's sorted set: its entries in descending score order. */
  ghost predicate Lists(rows: seq<Row>, db: Db, user: UserId) {
    && Descending(rows) && DistinctIds(rows)
    && forall r :: r in rows <==> (user, r.id) in db.created && r.score == db.created[(user, r.id)]
  }

  /** Page calls made during a run: each lists the creator's sorted set at some position, whatever it then shows. */
  ghost predicate DuringRun(visits: seq<Visit>, s: State, es: seq<Event>, user: UserId, listedAt: seq<nat>)
    requires ValidRun(s, es)
  {
    && |listedAt| == |visits|
    && (forall i {:trigger visits[i]} :: 0 <= i < |visits| ==>
          listedAt[i] <= |es| && Lists(visits[i].rows, Before(s, es, listedAt[i]).db, user))
  }

  /** The polls a page shows: found by getPoll, the creator's, and open unless closed ones were asked for. */
  ghost predicate Finds(v: Visit, i: nat, s: State, es: seq<Event>, user: UserId, includeClosed: bool,
                        readAt: (nat, PollId) -> nat)
    requires ValidRun(s, es)
  {
    forall r :: r in v.rows && readAt(i, r.id) <= |es| ==>
      (r.id in v.shown <==> Shows(Before(s, es, readAt(i, r.id)), user, includeClosed, r.id))
  }

  predicate Shows(s: State, user: UserId, includeClosed: bool, id: PollId) {
    && id in s.db.meta && s.db.meta[id].Creator() == user
    && (includeClosed || !s.db.meta[id].ReadsClosed(s.now))
  }

  /** Every page reads its polls one by one, each at a position of its own after the listing. */
  ghost predicate ReadDuringRun(visits: seq<Visit>, s: State, es: seq<Event>, user: UserId, includeClosed: bool,
                                listedAt: seq<nat>, readAt: (nat, PollId) -> nat)
    requires ValidRun(s, es) && |listedAt| == |visits|
  {
    && (forall i {:trigger visits[i]} :: 0 <= i < |visits| ==> Finds(visits[i], i, s, es, user, includeClosed, readAt))
    && (forall i: nat, id :: i < |visits| ==> listedAt[i] <= readAt(i, id) <= |es|)
  }

  lemma {:induction false} BornForGood(s: State, es: seq<Event>, id: PollId)
    requires ValidRun(s, es) && id in s.born
    ensures id in Run(s, es).born && Run(s, es).born[id] == s.born[id]
    decreases |es|
  {
    if es != [] {
      assert id in Step(s, es[0]).born && Step(s, es[0]).born[id] == s.born[id];
      BornForGood(Step(s, es[0]), es[1..], id);
    }
  }

  /** At every position of a run from the start the invariant holds. */
  lemma InvAt(now: int, es: seq<Event>, i: nat)
    requires ValidRun(Init(now), es) && i <= |es|
    ensures Inv(Before(Init(now), es, i))
  {
    InitInv(now);
    ValidPrefix(Init(now), es, i);
    RunKeepsInv(Init(now), es[..i]);
  }

  lemma BornAt(s: State, es: seq<Event>, i: nat, j: nat, id: PollId)
    requires ValidRun(s, es) && i <= j <= |es| && id in Before(s, es, i).born
    ensures id in Before(s, es, j).born && Before(s, es, j).born[id] == Before(s, es, i).born[id]
    ensures Live(Before(s, es, j).db, id) ==> Live(Before(s, es, i).db, id)
  {
    BeforeLater(s, es, i, j);
    BornForGood(Before(s, es, i), es[i..j], id);
    if !Live(Before(s, es, i).db, id) {
      Safety.StaysDead(Before(s, es, i), es[i..j], id);
    }
  }

  /** A listed score is the birth's, so two listings of a poll, whenever taken, agree. */
  lemma SameScoreWhenever(now: int, es: seq<Event>, i: nat, j: nat, user: UserId, id: PollId)
    requires ValidRun(Init(now), es) && i <= j <= |es|
    requires (user, id) in Before(Init(now), es, i).db.created && (user, id) in Before(Init(now), es, j).db.created
    ensures Before(Init(now), es, i).db.created[(user, id)] == Before(Init(now), es, j).db.created[(user, id)]
  {
    InvAt(now, es, i);
    InvAt(now, es, j);
    var a, b := Before(Init(now), es, i), Before(Init(now), es, j);
    assert (user, id).1 in a.born;
    BornAt(Init(now), es, i, j, id);
    ScoreOf(a, user, id);
    ScoreOf(b, user, id);
  }

  lemma ScoreOf(s: State, user: UserId, id: PollId)
    requires Known(s) && Scored(s) && (user, id) in s.db.created
    ensures id in s.born && s.born[id].poll.createdBy == user
    ensures s.db.created[(user, id)] == CreatedScore(s.born[id].poll.createdAt, s.born[id].salt)
  {
    assert (user, id).1 in s.born;
  }

  lemma ListingsAgree(now: int, es: seq<Event>, i: nat, j: nat, user: UserId, a: seq<Row>, b: seq<Row>)
    requires ValidRun(Init(now), es) && i <= |es| && j <= |es|
    requires Lists(a, Before(Init(now), es, i).db, user) && Lists(b, Before(Init(now), es, j).db, user)
    ensures SameScores(a, b)
  {
    forall r, q | r in a && q in b && r.id == q.id
      ensures r.score == q.score
    {
      if i <= j {
        SameScoreWhenever(now, es, i, j, user, r.id);
      } else {
        SameScoreWhenever(now, es, j, i, user, r.id);
      }
    }
  }

  lemma RunsAreWellListed(now: int, es: seq<Event>, visits: seq<Visit>, user: UserId, listedAt: seq<nat>)
    requires ValidRun(Init(now), es) && DuringRun(visits, Init(now), es, user, listedAt)
    ensures WellListed(visits)
  {
    forall i, j | 0 <= i < |visits| && 0 <= j < |visits|
      ensures SameScores(visits[i].rows, visits[j].rows)
    {
      ListingsAgree(now, es, listedAt[i], listedAt[j], user, visits[i].rows, visits[j].rows);
    }
  }

  /**
   Walking the pages of a creator's polls during any run of the ledger, with closed polls or without: no poll is ever
   served twice.
   */
  lemma NoPollTwiceInRun(now: int, es: seq<Event>, visits: seq<Visit>, cursors: seq<Option<int>>, size: nat,
                         user: UserId, listedAt: seq<nat>, i: nat, j: nat, r: Row, q: Row)
    requires ValidRun(Init(now), es) && DuringRun(visits, Init(now), es, user, listedAt)
    requires size >= 1 && Chained(visits, cursors, size) && i <= j < |visits|
    requires r in Served(visits[i], cursors[i], size) && q in Served(visits[j], cursors[j], size)
    ensures r.id == q.id ==> i == j && r == q
  {
    RunsAreWellListed(now, es, visits, user, listedAt);
    if i < j {
      Paging.NoPollTwice(visits, cursors, i, j, size, r, q);
    } else {
      ServedBounds(visits[i], cursors[i], size, r);
      ServedBounds(visits[j], cursors[j], size, q);
      assert SameScores(visits[i].rows, visits[i].rows);
    }
  }

  lemma {:induction false} TimePasses(s: State, es: seq<Event>)
    requires ValidRun(s, es)
    ensures Run(s, es).now >= s.now
    decreases |es|
  {
    if es != [] {
      TimePasses(Step(s, es[0]), es[1..]);
    }
  }

  /** A poll that reads as open at the end of a run read as open when it began. */
  lemma OpenBefore(s: State, es: seq<Event>, id: PollId)
    requires ValidRun(s, es) && id in s.born && Live(s.db, id) && Live(Run(s, es).db, id)
    requires s.db.meta[id].expiresAt == Run(s, es).db.meta[id].expiresAt
    requires !Run(s, es).db.meta[id].ReadsClosed(Run(s, es).now)
    ensures !s.db.meta[id].ReadsClosed(s.now)
  {
    TimePasses(s, es);
    if s.db.meta[id].isClosed {
      Safety.Finality(s, es, id);
    }
  }

  lemma SameDeadline(now: int, es: seq<Event>, i: nat, id: PollId)
    requires ValidRun(Init(now), es) && i <= |es| && id in Before(Init(now), es, i).born
    requires Live(Before(Init(now), es, i).db, id) && Live(Before(Init(now), es, |es|).db, id)
    ensures var a, t := Before(Init(now), es, i).db.meta[id], Before(Init(now), es, |es|).db.meta[id];
            a.expiresAt == t.expiresAt && a.createdBy == t.createdBy
  {
    InvAt(now, es, i);
    InvAt(now, es, |es|);
    BornAt(Init(now), es, i, |es|, id);
    var a, t := Before(Init(now), es, i), Before(Init(now), es, |es|);
    assert Unchanging(t.db.meta[id], t.born[id].poll) && Unchanging(a.db.meta[id], a.born[id].poll);
  }

  /** A poll alive at the end of the run was listed and found by every call made since its creation. */
  lemma LastingPollIsListed(now: int, es: seq<Event>, v: Visit, at: nat, user: UserId, id: PollId)
    requires ValidRun(Init(now), es) && at <= |es| && Lists(v.rows, Before(Init(now), es, at).db, user)
    requires id in Before(Init(now), es, at).born && Live(Run(Init(now), es).db, id)
    requires Run(Init(now), es).db.meta[id].createdBy == user
    ensures Live(Before(Init(now), es, at).db, id) && Before(Init(now), es, at).db.meta[id].createdBy == user
    ensures var b := Run(Init(now), es).born;
            id in b && Row(id, CreatedScore(b[id].poll.createdAt, b[id].salt)) in v.rows
  {
    var s := Init(now);
    var a, t := Before(s, es, at), Before(s, es, |es|);
    BeforeEnd(s, es);
    BornAt(s, es, at, |es|, id);
    InvAt(now, es, at);
    InvAt(now, es, |es|);
    assert Unchanging(t.db.meta[id], t.born[id].poll) && Unchanging(a.db.meta[id], a.born[id].poll);
    assert (user, id) in a.db.created;
    ScoreOf(a, user, id);
    assert Row(id, a.db.created[(user, id)]) in v.rows;
  }

  lemma LastingPollIsShown(now: int, es: seq<Event>, at: nat, user: UserId, includeClosed: bool, id: PollId)
    requires ValidRun(Init(now), es) && at <= |es|
    requires id in Before(Init(now), es, at).born && Shows(Run(Init(now), es), user, includeClosed, id)
    requires Live(Run(Init(now), es).db, id)
    ensures Shows(Before(Init(now), es, at), user, includeClosed, id)
  {
    BeforeEnd(Init(now), es);
    BornAt(Init(now), es, at, |es|, id);
    SameDeadline(now, es, at, id);
    if !includeClosed {
      BeforeLater(Init(now), es, at, |es|);
      OpenBefore(Before(Init(now), es, at), es[at..|es|], id);
    }
  }

  /**
   And every poll of the creator that was born before the first call, is alive when the run ends and, if closed polls
   are left out, still open then, is served, unless a page ended at its very score; and it is served in any case where
   no other listed poll has that score.
   */
  lemma LastingPollServedInRun(now: int, es: seq<Event>, visits: seq<Visit>, cursors: seq<Option<int>>, size: nat,
                               user: UserId, includeClosed: bool, listedAt: seq<nat>, readAt: (nat, PollId) -> nat,
                               id: PollId)
    requires ValidRun(Init(now), es) && DuringRun(visits, Init(now), es, user, listedAt)
    requires ReadDuringRun(visits, Init(now), es, user, includeClosed, listedAt, readAt)
    requires size >= 1 && Chained(visits, cursors, size) && visits != [] && cursors[|visits|] == None
    requires forall i :: 0 <= i < |listedAt| ==> listedAt[i] <= |es| && id in Before(Init(now), es, listedAt[i]).born
    requires Live(Run(Init(now), es).db, id) && Shows(Run(Init(now), es), user, includeClosed, id)
    requires id in Run(Init(now), es).born
    ensures var b := Run(Init(now), es).born[id];
            var row := Row(id, CreatedScore(b.poll.createdAt, b.salt));
            && (ServedBy(visits, cursors, size, row) || exists j :: 0 < j < |visits| && cursors[j] == Some(row.score))
            && (Untied(visits, row) ==> ServedBy(visits, cursors, size, row))
  {
    var b := Run(Init(now), es).born[id];
    var row := Row(id, CreatedScore(b.poll.createdAt, b.salt));
    RunsAreWellListed(now, es, visits, user, listedAt);
    forall i | 0 <= i < |visits|
      ensures row in visits[i].rows && row.id in visits[i].shown
    {
      LastingPollIsListed(now, es, visits[i], listedAt[i], user, id);
      BornAt(Init(now), es, listedAt[i], readAt(i, id), id);
      LastingPollIsShown(now, es, readAt(i, id), user, includeClosed, id);
      assert Finds(visits[i], i, Init(now), es, user, includeClosed, readAt);
    }
    MissedOnlyAtPageEnd(visits, cursors, size, row);
    if Untied(visits, row) {
      LastingPollIsServed(visits, cursors, size, row);
    }
  }
}
