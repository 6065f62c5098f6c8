/**
 What a page of a creator's polls shows, said of the polls as they were created: latest second first, and within a
 second by the id's remainder (internal/store/redis/store.go:371-421, 518-522). The memory store's listing says so of
 itself (module MemoryStore); here it is the Redis listing, on any state a run reaches, and the double behind both.
 */
module ListingOrder {
  import opened Common
  import opened Ledger
  import opened Protocol
  import opened Paging
  import opened RedisServer
  import opened RedisLists
  import DoublePaging
  import Equivalence
  import Invariants
  import M = MemoryStore
  import PagingRuns
  import Score

  /** The double a creation computes is the one nearest to its score, and six decimals of it show the score. */
  lemma ScoreIsComputed(c: Score.Sum, t: int, m: nat)
    requires Score.InRange(Unix(t), m) && Score.Computes(c, Unix(t), m)
    ensures c.units == DoublePaging.Units(CreatedScore(t, m)) && DoublePaging.Shown(c.units) == CreatedScore(t, m)
  {
    DoublePaging.ComputedIsNearest(c, Unix(t), m);
    DoublePaging.ShownIsExact(CreatedScore(t, m));
  }

  /** CRC-32 modulo one million. */
  ghost predicate Remainders(s: State) {
    forall id :: id in s.born ==> s.born[id].salt < 1_000_000
  }

  /** Second of creation and remainder, in millionths. */
  function Moment(b: Birth): int {
    Unix(b.poll.createdAt) * 1_000_000 + b.salt
  }

  /** The entries of a creator's sorted set that a page after a cursor is taken from. */
  ghost function Older(s: State, user: UserId, cursor: Option<int>): set<PollId> {
    set k | k in s.db.created && k.0 == user && k.1 in s.born && Under(Moment(s.born[k.1]), cursor) :: k.1
  }

  lemma ReachedInv(now: int, es: seq<Event>)
    requires ValidRun(Init(now), es)
    ensures Invariants.Inv(Run(Init(now), es))
  {
    Invariants.InitInv(now);
    Invariants.RunKeepsInv(Init(now), es);
  }

  /** A listed row stands for a poll this user created, at its moment of creation. */
  lemma RowIsBirth(s: State, user: UserId, rows: seq<Row>, r: Row)
    requires Invariants.Inv(s) && PagingRuns.Lists(rows, s.db, user)
    ensures r in rows <==> (user, r.id) in s.db.created && r.id in s.born && r.score == Moment(s.born[r.id])
    ensures r in rows ==> s.born[r.id].poll.createdBy == user
  {
    if (user, r.id) in s.db.created {
      PagingRuns.ScoreOf(s, user, r.id);
    }
  }

  /** The rows under a cursor are those entries, each once. */
  lemma BelowIsOlder(s: State, user: UserId, rows: seq<Row>, cursor: Option<int>)
    requires Invariants.Inv(s) && PagingRuns.Lists(rows, s.db, user)
    ensures (set r | r in Below(rows, cursor) :: r.id) == Older(s, user, cursor)
    ensures |Below(rows, cursor)| == |Older(s, user, cursor)|
  {
    var below := Below(rows, cursor);
    forall id
      ensures id in Older(s, user, cursor) <==> id in set r | r in below :: r.id
    {
      if id in Older(s, user, cursor) {
        var r := Row(id, Moment(s.born[id]));
        RowIsBirth(s, user, rows, r);
        BelowMembers(rows, cursor, r);
      }
      forall r | r in below && r.id == id
        ensures id in Older(s, user, cursor)
      {
        BelowMembers(rows, cursor, r);
        RowIsBirth(s, user, rows, r);
        assert (user, id) in s.db.created;
      }
    }
    DistinctBelow(rows, cursor);
    AsManyIds(below);
  }

  /** A poll that is read and shown to a user who is somebody is live, so it is the poll that was created. */
  lemma ShownIsBirth(s: State, user: UserId, includeClosed: bool, id: PollId)
    requires Invariants.Inv(s) && user != "" && id in Equivalence.Shown(s.db, user, includeClosed, s.now)
    ensures id in s.born && Live(s.db, id)
    ensures var p := ReadPoll(s.db, id, s.now);
            p.Some? && p.value.id == id && p.value.createdAt == Truncated(s.born[id].poll.createdAt)
  {
    assert Invariants.Unchanging(s.db.meta[id], s.born[id].poll);
  }

  /** Of two items the earlier in the list was not created before the other. */
  lemma ItemsNewestFirst(s: State, user: UserId, includeClosed: bool, rows: seq<Row>, kept: seq<Row>,
                         items: seq<Poll>, i: nat, j: nat)
    requires Invariants.Inv(s) && Remainders(s) && user != "" && PagingRuns.Lists(rows, s.db, user)
    requires Descending(kept) && forall r :: r in kept ==> r in rows
    requires forall r :: r in kept ==> r.id in Equivalence.Shown(s.db, user, includeClosed, s.now)
    requires ReadFor(items, kept, s.db, s.now) && i < j < |items|
    ensures items[i].id in s.born && items[j].id in s.born
    ensures var (a, b) := (s.born[items[i].id], s.born[items[j].id]);
            && items[i].createdAt == Truncated(a.poll.createdAt)
            && NoOlder(items[i].createdAt, a.salt, items[j].createdAt, b.salt)
  {
    assert kept[i] in kept && kept[j] in kept;
    ShownIsBirth(s, user, includeClosed, kept[i].id);
    ShownIsBirth(s, user, includeClosed, kept[j].id);
    RowIsBirth(s, user, rows, kept[i]);
    RowIsBirth(s, user, rows, kept[j]);
    assert kept[i].score >= kept[j].score;
    var a, b := s.born[kept[i].id], s.born[kept[j].id];
    ScoreOrders(a.poll.createdAt, a.salt, b.poll.createdAt, b.salt);
  }

  /**
   A page on Redis in any reachable state: it looks at as many of the older entries as the limit says, fifty unless it
   is from one to a hundred, and hands out a cursor exactly when some are left over.
   */
  lemma PageLooksAt(now: int, es: seq<Event>, user: UserId, cursor: Option<int>, limit: int, rows: seq<Row>)
    requires ValidRun(Init(now), es) && PagingRuns.Lists(rows, Run(Init(now), es).db, user)
    ensures var s := Run(Init(now), es);
            var (page, next) := Page(rows, cursor, PageSize(limit));
            var older := Older(s, user, cursor);
            && M.Cut(|page|, |older|, limit) && (next.Some? <==> |page| < |older|)
            && (forall r :: r in page ==> r.id in older)
            && (next.Some? ==> page != [] && page[|page| - 1].id in s.born
                               && next.value == Moment(s.born[page[|page| - 1].id]))
  {
    ReachedInv(now, es);
    var s := Run(Init(now), es);
    var page := Page(rows, cursor, PageSize(limit)).0;
    BelowIsOlder(s, user, rows, cursor);
    PageOrdered(rows, cursor, PageSize(limit));
    forall r | r in page
      ensures r.id in Older(s, user, cursor) && r.id in s.born && r.score == Moment(s.born[r.id])
    {
      BelowMembers(rows, cursor, r);
      RowIsBirth(s, user, rows, r);
    }
  }

  /**
   What the page shows: polls of the user with the times they were created at, latest first, on the older side of the
   cursor; and every older entry that is shown and was not created before the next cursor is among them.
   */
  lemma PageShows(now: int, es: seq<Event>, user: UserId, includeClosed: bool, cursor: Option<int>, size: nat,
                  rows: seq<Row>, items: seq<Poll>)
    requires ValidRun(Init(now), es) && user != "" && size >= 1
    requires var s := Run(Init(now), es);
             && Remainders(s) && PagingRuns.Lists(rows, s.db, user)
             && ReadFor(items, Keep(Page(rows, cursor, size).0, Equivalence.Shown(s.db, user, includeClosed, s.now)),
                        s.db, s.now)
    ensures var s := Run(Init(now), es);
            && (forall p :: p in items ==>
                  p.id in Older(s, user, cursor) && p.createdAt == Truncated(s.born[p.id].poll.createdAt))
            && (forall i, j :: 0 <= i < j < |items| ==>
                  && items[i].id in s.born && items[j].id in s.born
                  && NoOlder(items[i].createdAt, s.born[items[i].id].salt,
                             items[j].createdAt, s.born[items[j].id].salt))
            && (forall id :: id in Older(s, user, cursor) && id in Equivalence.Shown(s.db, user, includeClosed, s.now)
                             && id in s.born && Follows(Moment(s.born[id]), Page(rows, cursor, size).1) ==>
                  exists p :: p in items && p.id == id)
  {
    ReachedInv(now, es);
    var s := Run(Init(now), es);
    var (page, next) := Page(rows, cursor, size);
    var shown := Equivalence.Shown(s.db, user, includeClosed, s.now);
    var kept := Keep(page, shown);
    PageOrdered(rows, cursor, size);
    KeepStaysOrdered(page, shown);
    forall r
      ensures r in kept <==> r in page && r.id in shown
    {
      KeepMembers(page, shown, r);
    }
    forall i | 0 <= i < |items|
      ensures items[i].id in Older(s, user, cursor)
      ensures items[i].createdAt == Truncated(s.born[items[i].id].poll.createdAt)
    {
      assert kept[i] in kept;
      ShownIsBirth(s, user, includeClosed, kept[i].id);
      RowIsBirth(s, user, rows, kept[i]);
      assert (user, kept[i].id) in s.db.created;
    }
    forall i, j | 0 <= i < j < |items|
      ensures items[i].id in s.born && items[j].id in s.born
      ensures NoOlder(items[i].createdAt, s.born[items[i].id].salt, items[j].createdAt, s.born[items[j].id].salt)
    {
      ItemsNewestFirst(s, user, includeClosed, rows, kept, items, i, j);
    }
    forall id | id in Older(s, user, cursor) && id in shown && id in s.born && Follows(Moment(s.born[id]), next)
      ensures exists p :: p in items && p.id == id
    {
      OlderIsServed(s, user, includeClosed, cursor, size, rows, items, id);
    }
  }

  /** Strictly after the next cursor, if there is one. */
  predicate Follows(moment: int, next: Option<int>) {
    next.Some? ==> moment > next.value
  }

  lemma OlderIsServed(s: State, user: UserId, includeClosed: bool, cursor: Option<int>, size: nat, rows: seq<Row>,
                      items: seq<Poll>, id: PollId)
    requires Invariants.Inv(s) && user != "" && size >= 1 && PagingRuns.Lists(rows, s.db, user)
    requires var shown := Equivalence.Shown(s.db, user, includeClosed, s.now);
             ReadFor(items, Keep(Page(rows, cursor, size).0, shown), s.db, s.now) && id in shown
    requires id in Older(s, user, cursor) && id in s.born && Follows(Moment(s.born[id]), Page(rows, cursor, size).1)
    ensures exists p :: p in items && p.id == id
  {
    var page := Page(rows, cursor, size).0;
    var shown := Equivalence.Shown(s.db, user, includeClosed, s.now);
    var r := Row(id, Moment(s.born[id]));
    RowIsBirth(s, user, rows, r);
    if r !in page {
      var last := PageLeaves(rows, cursor, size, r);
    }
    KeepMembers(page, shown, r);
    var kept := Keep(page, shown);
    var i :| 0 <= i < |kept| && kept[i] == r;
    ShownIsBirth(s, user, includeClosed, id);
    assert items[i].id == id;
  }
}
