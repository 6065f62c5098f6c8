/**
 The listings a user asks Redis for: own votes and own created polls (internal/store/redis/store.go:341-421). They
 only read; each is proved to report exactly what the typed ledger holds.
 */
module RedisLists {
  import opened Common
  import opened Ledger
  import opened Encoding
  import opened RedisServer
  import opened Paging
  import Keys
  import DoublePaging
  import M = MemoryStore
  import PagingRuns
  import Equivalence
  import Score

  /** Ids are UUIDs, so they hold no colon. */
  predicate PlainIds(db: Db) {
    && (forall k :: k in db.created ==> Keys.ColonFree(k.1))
    && (forall v :: v in db.history ==> Keys.ColonFree(v.0))
  }

  /**
   ZREVRANGEBYSCORE below the cursor, at most `count` rows; `all` is the whole set in the order it is served, which
   is left open among equal scores.
   */
  method RangeBelow(server: Redis, user: UserId, cursor: Option<int>, count: nat, ghost db: Db)
    returns (rows: seq<Row>, ghost all: seq<Row>)
    requires Holds(server.keys, db)
    ensures PagingRuns.Lists(all, db, user)
    ensures var below := Below(all, cursor);
            rows == if |below| > count then below[..count] else below
    ensures forall r :: r in rows ==>
              (user, r.id) in db.created && r.score == db.created[(user, r.id)] && Under(r.score, cursor)
    ensures Descending(rows) && |rows| <= count
  {
    CreatedLayout(server.keys, db, user);
    var scores := ScoresAt(server.keys, Keys.Name(Keys.UserCreated(user)));
    var found: seq<Row> := [];
    var left := scores.Keys;
    while left != {}
      invariant left <= scores.Keys
      invariant forall r :: r in found <==> r.id in scores && r.id !in left && r.score == scores[r.id]
      invariant |found| == |set r | r in found|
      decreases left
    {
      var id :| id in left;
      left := left - {id};
      M.AppendNew(found, Row(id, scores[id]));
      found := found + [Row(id, scores[id])];
    }
    var sorted := M.SortDescending(found, (r: Row) => r.score);
    M.SameElements(found, sorted);
    all := sorted;
    AllListed(db, user, sorted);
    rows := BelowCursor(sorted, cursor);
    BelowSorted(sorted, cursor);
    if |rows| > count {
      rows := rows[..count];
    }
  }

  method BelowCursor(rows: seq<Row>, cursor: Option<int>) returns (below: seq<Row>)
    ensures below == Below(rows, cursor)
  {
    below := [];
    var i := |rows|;
    while i > 0
      invariant 0 <= i <= |rows|
      invariant below == Below(rows[i..], cursor)
    {
      i := i - 1;
      assert rows[i..][1..] == rows[i + 1..];
      if Under(rows[i].score, cursor) {
        below := [rows[i]] + below;
      }
    }
    assert rows[0..] == rows;
  }

  lemma AllListed(db: Db, user: UserId, rows: seq<Row>)
    requires M.SortedDown(rows, (r: Row) => r.score)
    requires |rows| == |set r | r in rows|
    requires var scores := CreatedScores(db.created, user);
             forall r :: r in rows <==> r.id in scores && r.score == scores[r.id]
    ensures PagingRuns.Lists(rows, db, user)
  {
    forall i, j | 0 <= i < j < |rows| ensures rows[i].id != rows[j].id {
      M.NoRepeats(rows, i, j);
      assert rows[i] in rows && rows[j] in rows;
    }
    forall i, j | 0 <= i < j < |rows| ensures rows[i].score >= rows[j].score {
      var key := (r: Row) => r.score;
      assert key(rows[i]) >= key(rows[j]);
    }
    forall r: Row ensures r in rows <==> (user, r.id) in db.created && r.score == db.created[(user, r.id)] {
      CreatedField(db.created, user, r.id);
    }
  }

  /** Polls read for rows, one by one. */
  ghost predicate ReadFor(items: seq<Poll>, rows: seq<Row>, db: Db, now: int) {
    |items| == |rows| && forall i :: 0 <= i < |rows| ==> ReadPoll(db, rows[i].id, now) == Some(items[i])
  }

  /** A row is shown exactly when getPoll finds its poll open enough and owned by the user. */
  lemma ShownIff(db: Db, user: UserId, includeClosed: bool, now: int, id: PollId)
    ensures id in Equivalence.Shown(db, user, includeClosed, now) <==>
              (var p := ReadPoll(db, id, now);
               p.Some? && (includeClosed || !p.value.isClosed) && p.value.createdBy == user)
  {
  }

  /**
   One page of a creator's polls. The page is cut first, from all rows below the cursor, and the polls not shown are
   left out afterwards.
   */
  method CreatedPage(server: Redis, user: UserId, includeClosed: bool, limit: int, cursor: Option<int>, ghost db: Db)
    returns (items: seq<Poll>, next: Option<int>, ghost all: seq<Row>)
    requires Holds(server.keys, db) && PlainIds(db)
    ensures PagingRuns.Lists(all, db, user)
    ensures var page := Page(all, cursor, PageSize(limit));
            && next == page.1
            && ReadFor(items, Keep(page.0, Equivalence.Shown(db, user, includeClosed, server.now)), db, server.now)
    ensures |items| <= PageSize(limit)
    ensures forall p :: p in items ==> p.createdBy == user && (includeClosed || !p.isClosed)
  {
    var size := PageSize(limit);
    var rows: seq<Row>;
    rows, all := RangeBelow(server, user, cursor, size + 1, db);
    next := None;
    if |rows| > size {
      assert rows[..size] == Below(all, cursor)[..size];
      next := Some(rows[size - 1].score);
      rows := rows[..size];
    }
    assert (rows, next) == Page(all, cursor, size);
    PlainRows(all, cursor, rows, db, user);
    items := ReadShown(server, rows, user, includeClosed, db);
    ItemsAreShown(items, rows, db, user, includeClosed, server.now);
  }

  /**
   The listing with cursors as text: no text, and text that is no number, mean the first page; the text handed out is
   the last score with six decimals. `parse` says at which millionth a text cuts; module DoublePaging justifies it.
   */
  method ListMyCreatedPollStats(server: Redis, user: UserId, includeClosed: bool, limit: int, cursor: string,
                                parse: string -> Option<int>, ghost db: Db)
    returns (items: seq<Poll>, next: string, ghost all: seq<Row>)
    requires Holds(server.keys, db) && PlainIds(db)
    ensures PagingRuns.Lists(all, db, user)
    ensures var (page, after) := Page(all, DoublePaging.ReadBack(cursor, parse), PageSize(limit));
            && next == DoublePaging.TextOf(after)
            && ReadFor(items, Keep(page, Equivalence.Shown(db, user, includeClosed, server.now)), db, server.now)
    ensures |items| <= PageSize(limit)
    ensures forall p :: p in items ==> p.createdBy == user && (includeClosed || !p.isClosed)
  {
    var cut: Option<int> := None;
    if cursor != "" {
      cut := parse(cursor);
    }
    var after: Option<int>;
    items, after, all := CreatedPage(server, user, includeClosed, limit, cut, db);
    next := "";
    if after.Some? {
      next := Score.SignedText(after.value);
    }
  }

  /** The loop that reads a page's polls one by one and leaves out those not shown. */
  method ReadShown(server: Redis, rows: seq<Row>, user: UserId, includeClosed: bool, ghost db: Db)
    returns (items: seq<Poll>)
    requires Holds(server.keys, db) && forall r :: r in rows ==> Keys.ColonFree(r.id)
    ensures ReadFor(items, Keep(rows, Equivalence.Shown(db, user, includeClosed, server.now)), db, server.now)
  {
    ghost var shown := Equivalence.Shown(db, user, includeClosed, server.now);
    items := [];
    var n := 0;
    while n < |rows|
      invariant 0 <= n <= |rows|
      invariant ReadFor(items, Keep(rows[..n], shown), db, server.now)
    {
      var id := rows[n].id;
      var p := server.GetPoll(id, db);
      ShownIff(db, user, includeClosed, server.now, id);
      KeepOneMore(rows, n, shown);
      if p.Some? && (includeClosed || !p.value.isClosed) && p.value.createdBy == user {
        items := items + [p.value];
      }
      n := n + 1;
    }
    assert rows[..n] == rows;
  }

  /** The items of a page are the user's own, closed ones only on request, and no more than its rows. */
  lemma ItemsAreShown(items: seq<Poll>, rows: seq<Row>, db: Db, user: UserId, includeClosed: bool, now: int)
    requires ReadFor(items, Keep(rows, Equivalence.Shown(db, user, includeClosed, now)), db, now)
    ensures |items| <= |rows|
    ensures forall p :: p in items ==> p.createdBy == user && (includeClosed || !p.isClosed)
  {
    var shown := Equivalence.Shown(db, user, includeClosed, now);
    var kept := Keep(rows, shown);
    KeepNoMore(rows, shown);
    forall i | 0 <= i < |items|
      ensures items[i].createdBy == user && (includeClosed || !items[i].isClosed)
    {
      KeepMembers(rows, shown, kept[i]);
      ShownIff(db, user, includeClosed, now, kept[i].id);
    }
  }

  lemma {:induction false} KeepNoMore(rows: seq<Row>, shown: set<PollId>)
    ensures |Keep(rows, shown)| <= |rows|
  {
    if rows != [] {
      KeepNoMore(rows[1..], shown);
    }
  }

  lemma PlainRows(all: seq<Row>, cursor: Option<int>, rows: seq<Row>, db: Db, user: UserId)
    requires PagingRuns.Lists(all, db, user) && PlainIds(db)
    requires rows <= Below(all, cursor)
    ensures forall r :: r in rows ==> Keys.ColonFree(r.id)
  {
    forall r | r in rows ensures Keys.ColonFree(r.id) {
      assert r in Below(all, cursor);
      BelowMembers(all, cursor, r);
      assert (user, r.id) in db.created;
    }
  }

  lemma KeepOneMore(rows: seq<Row>, n: nat, shown: set<PollId>)
    requires n < |rows|
    ensures Keep(rows[..n + 1], shown) == Keep(rows[..n], shown) + if rows[n].id in shown then [rows[n]] else []
  {
    assert rows[..n + 1] == rows[..n] + [rows[n]];
    KeepConcat(rows[..n], [rows[n]], shown);
  }

  ghost function PairsOf(s: seq<M.MyVote>): set<(PollId, string)> {
    set v | v in s :: (v.pollId, v.option)
  }

  lemma AppendPair(s: seq<M.MyVote>, v: M.MyVote)
    ensures PairsOf(s + [v]) == PairsOf(s) + {(v.pollId, v.option)}
  {
  }

  /** Pairs taken from a user's history, of the ids already visited. */
  ghost predicate Reported(pairs: set<(PollId, string)>, h: map<string, string>, left: set<string>, db: Db) {
    forall q :: q in pairs <==> q.0 in h && q.0 !in left && q.1 == h[q.0] && q.0 in db.meta
  }

  lemma ReportOne(pairs: set<(PollId, string)>, h: map<string, string>, left: set<string>, db: Db, id: string)
    requires Reported(pairs, h, left, db) && id in left && id in h
    ensures (id, h[id]) !in pairs
    ensures Reported(if id in db.meta then pairs + {(id, h[id])} else pairs, h, left - {id}, db)
  {
  }

  /**
   The user's votes on polls whose metadata can be read, in no particular order, cut to the limit: `all` is the list
   before the cut.
   */
  method GetMyVotes(server: Redis, user: UserId, limit: int, ghost db: Db)
    returns (out: seq<M.MyVote>, ghost all: seq<M.MyVote>)
    requires Holds(server.keys, db) && PlainIds(db)
    ensures PairsOf(all) == Equivalence.RedisMyVotes(db, user)
    ensures |all| == |Equivalence.RedisMyVotes(db, user)|
    ensures forall v :: v in all ==> Some(v.poll) == ReadPoll(db, v.pollId, server.now)
    ensures out == if |all| > PageSize(limit) then all[..PageSize(limit)] else all
    ensures M.Cut(|out|, |Equivalence.RedisMyVotes(db, user)|, limit)
    ensures PairsOf(out) <= Equivalence.RedisMyVotes(db, user)
    ensures forall v :: v in out ==> Some(v.poll) == ReadPoll(db, v.pollId, server.now)
  {
    out := CollectVotes(server, user, db);
    all := out;
    if |out| > PageSize(limit) {
      out := out[..PageSize(limit)];
    }
  }

  /** The loop over the user's history: polls that cannot be read are left out. */
  method CollectVotes(server: Redis, user: UserId, ghost db: Db) returns (out: seq<M.MyVote>)
    requires Holds(server.keys, db) && PlainIds(db)
    ensures PairsOf(out) == Equivalence.RedisMyVotes(db, user) && |out| == |PairsOf(out)|
    ensures forall v :: v in out ==> Some(v.poll) == ReadPoll(db, v.pollId, server.now)
  {
    HistoryLayout(server.keys, db, user);
    var h := server.HGetAll(Keys.Name(Keys.UserVotes(user)));
    out := [];
    var left := h.Keys;
    while left != {}
      invariant left <= h.Keys
      invariant forall v :: v in out ==> Some(v.poll) == ReadPoll(db, v.pollId, server.now)
      invariant |out| == |PairsOf(out)| && Reported(PairsOf(out), h, left, db)
      decreases left
    {
      var id :| id in left;
      ReportOne(PairsOf(out), h, left, db, id);
      left := left - {id};
      HistoryField(db.history, user, id);
      PlainVote(db, id, user);
      var p := server.GetPoll(id, db);
      if p.Some? {
        AppendPair(out, M.MyVote(id, h[id], p.value));
        out := out + [M.MyVote(id, h[id], p.value)];
      }
    }
    VotesReported(db, user, PairsOf(out));
  }

  lemma PlainVote(db: Db, id: PollId, user: UserId)
    requires PlainIds(db) && (id, user) in db.history
    ensures Keys.ColonFree(id)
  {
    assert Keys.ColonFree((id, user).0);
  }

  lemma VotesReported(db: Db, user: UserId, pairs: set<(PollId, string)>)
    requires Reported(pairs, HistoryHash(db.history, user), {}, db)
    ensures pairs == Equivalence.RedisMyVotes(db, user)
  {
    forall q ensures q in pairs <==> q in Equivalence.RedisMyVotes(db, user) {
      HistoryField(db.history, user, q.0);
      if q in pairs {
        var v := (q.0, user);
        assert q == (v.0, db.history[v]);
      }
    }
  }
}
