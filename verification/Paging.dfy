/**
 Keyset paging over created polls: rows in descending score order, a page size, and as cursor the score of the
 last row of a full page (internal/store/redis/store.go:371-421, internal/store/memory/memory.go:307-361).
 Redis filters a page after cutting it, the memory store filters before cutting. Scores are in millionths of a
 second; module Score shows that the printed double loses nothing of them.
 */
module Paging {
  import opened Common

  datatype Row = Row(id: PollId, score: int)

  predicate Descending(rows: seq<Row>) {
    forall i, j :: 0 <= i < j < |rows| ==> rows[i].score >= rows[j].score
  }

  predicate DistinctScores(rows: seq<Row>) {
    forall i, j :: 0 <= i < j < |rows| ==> rows[i].score != rows[j].score
  }

  predicate DistinctIds(rows: seq<Row>) {
    forall i, j :: 0 <= i < j < |rows| ==> rows[i].id != rows[j].id
  }

  /** The page size: fifty unless one to a hundred was asked for. */
  function PageSize(limit: int): (n: nat)
    ensures 1 <= n <= 100
  {
    if limit <= 0 || limit > 100 then 50 else limit
  }

  /** Strictly below the cursor, if there is one. */
  predicate Under(score: int, cursor: Option<int>) {
    cursor.Some? ==> score < cursor.value
  }

  function Below(rows: seq<Row>, cursor: Option<int>): seq<Row> {
    if rows == [] then []
    else if Under(rows[0].score, cursor) then [rows[0]] + Below(rows[1..], cursor)
    else Below(rows[1..], cursor)
  }

  /** One page and the cursor of the next, absent when the rows did not exceed the page. */
  function Page(rows: seq<Row>, cursor: Option<int>, size: nat): (seq<Row>, Option<int>)
    requires size >= 1
  {
    var below := Below(rows, cursor);
    if |below| > size then (below[..size], Some(below[size - 1].score)) else (below, None)
  }

  /** The rows whose polls are shown. */
  function Keep(rows: seq<Row>, shown: set<PollId>): seq<Row> {
    if rows == [] then []
    else if rows[0].id in shown then [rows[0]] + Keep(rows[1..], shown)
    else Keep(rows[1..], shown)
  }

  // ---------- Cutting ----------

  lemma {:induction false} BelowMembers(rows: seq<Row>, cursor: Option<int>, r: Row)
    ensures r in Below(rows, cursor) <==> r in rows && Under(r.score, cursor)
  {
    if rows != [] {
      BelowMembers(rows[1..], cursor, r);
      assert rows == [rows[0]] + rows[1..];
    }
  }

  lemma TailDescends(rows: seq<Row>)
    requires Descending(rows) && rows != []
    ensures Descending(rows[1..])
  {
    var rest := rows[1..];
    assert forall i :: 0 <= i < |rest| ==> rest[i] == rows[i + 1];
  }

  lemma {:induction false} AllBelow(rows: seq<Row>, cursor: Option<int>)
    requires forall r :: r in rows ==> Under(r.score, cursor)
    ensures Below(rows, cursor) == rows
  {
    if rows != [] {
      AllBelow(rows[1..], cursor);
      assert rows == [rows[0]] + rows[1..];
    }
  }

  /** On descending rows the cut is a suffix. */
  lemma {:induction false} BelowIsSuffix(rows: seq<Row>, cursor: Option<int>) returns (k: nat)
    requires Descending(rows)
    ensures k <= |rows| && Below(rows, cursor) == rows[k..]
    ensures forall i :: 0 <= i < |rows| ==> (i >= k <==> Under(rows[i].score, cursor))
  {
    if rows == [] || Under(rows[0].score, cursor) {
      k := 0;
      AllBelow(rows, cursor);
      assert rows[0..] == rows;
    } else {
      TailDescends(rows);
      var rest := rows[1..];
      var j := BelowIsSuffix(rest, cursor);
      k := j + 1;
      assert rest[j..] == rows[k..];
      assert forall i :: 1 <= i < |rows| ==> rows[i] == rest[i - 1];
    }
  }

  lemma BelowSorted(rows: seq<Row>, cursor: Option<int>)
    requires Descending(rows)
    ensures Descending(Below(rows, cursor))
    ensures forall r :: r in Below(rows, cursor) ==> r in rows && Under(r.score, cursor)
  {
    var k := BelowIsSuffix(rows, cursor);
    forall r | r in Below(rows, cursor)
      ensures r in rows && Under(r.score, cursor)
    {
      BelowMembers(rows, cursor, r);
    }
  }

  lemma DistinctBelow(rows: seq<Row>, cursor: Option<int>)
    requires Descending(rows) && DistinctIds(rows)
    ensures DistinctIds(Below(rows, cursor))
  {
    var k := BelowIsSuffix(rows, cursor);
  }

  lemma {:induction false} AsManyIds(rows: seq<Row>)
    requires DistinctIds(rows)
    ensures |set r | r in rows :: r.id| == |rows|
  {
    var ids := set r | r in rows :: r.id;
    if rows == [] {
      assert ids == {};
    } else {
      AsManyIds(rows[1..]);
      assert rows == [rows[0]] + rows[1..];
      assert ids == {rows[0].id} + set r | r in rows[1..] :: r.id;
      assert forall r :: r in rows[1..] ==> r.id != rows[0].id;
    }
  }

  /** A page in descending order, all of it under its cursor; the next cursor is its last row's score. */
  lemma PageOrdered(rows: seq<Row>, cursor: Option<int>, size: nat)
    requires size >= 1 && Descending(rows)
    ensures var (page, next) := Page(rows, cursor, size);
            && Descending(page) && (forall r :: r in page ==> r in rows && Under(r.score, cursor))
            && (next.Some? ==> |page| == size && next.value == page[size - 1].score)
  {
    BelowSorted(rows, cursor);
  }

  /** Cutting at a row's score leaves nothing of that row. */
  lemma {:induction false} BelowShrinks(rows: seq<Row>, a: Option<int>, b: int)
    requires a.Some? ==> b <= a.value
    ensures |Below(rows, Some(b))| <= |Below(rows, a)|
    ensures (exists r :: r in rows && r.score == b && Under(r.score, a)) ==> |Below(rows, Some(b))| < |Below(rows, a)|
  {
    if rows != [] {
      BelowShrinks(rows[1..], a, b);
      if r: Row :| r in rows && r.score == b && Under(r.score, a) {
        assert r == rows[0] || r in rows[1..];
      }
    }
  }

  lemma NextIsLower(rows: seq<Row>, cursor: Option<int>, size: nat)
    requires size >= 1 && Page(rows, cursor, size).1.Some?
    ensures Under(Page(rows, cursor, size).1.value, cursor)
    ensures |Below(rows, Page(rows, cursor, size).1)| < |Below(rows, cursor)|
  {
    var below := Below(rows, cursor);
    var r := below[size - 1];
    BelowMembers(rows, cursor, r);
    BelowShrinks(rows, cursor, r.score);
  }

  // ---------- A walk over rows that stand still ----------

  /** All pages from a cursor to the end, concatenated. It ends because every page moves the cursor down. */
  function Walk(rows: seq<Row>, cursor: Option<int>, size: nat): seq<Row>
    requires size >= 1
    decreases |Below(rows, cursor)|
  {
    var (page, next) := Page(rows, cursor, size);
    if next.None? then page
    else
      NextIsLower(rows, cursor, size);
      page + Walk(rows, next, size)
  }

  /** The pages as Redis serves them: cut first, then filtered. */
  function ServedByRedis(rows: seq<Row>, cursor: Option<int>, size: nat, shown: set<PollId>): seq<Row>
    requires size >= 1
    decreases |Below(rows, cursor)|
  {
    var (page, next) := Page(rows, cursor, size);
    if next.None? then Keep(page, shown)
    else
      NextIsLower(rows, cursor, size);
      Keep(page, shown) + ServedByRedis(rows, next, size, shown)
  }

  /** The pages as the memory store serves them: filtered first, then cut. */
  function ServedByMemory(rows: seq<Row>, size: nat, shown: set<PollId>): seq<Row>
    requires size >= 1
  {
    Walk(Keep(rows, shown), None, size)
  }

  lemma {:induction false} KeepConcat(a: seq<Row>, b: seq<Row>, shown: set<PollId>)
    ensures Keep(a + b, shown) == Keep(a, shown) + Keep(b, shown)
  {
    if a == [] {
      assert a + b == b;
    } else {
      KeepConcat(a[1..], b, shown);
      assert (a + b)[1..] == a[1..] + b;
    }
  }

  lemma {:induction false} KeepMembers(rows: seq<Row>, shown: set<PollId>, r: Row)
    ensures r in Keep(rows, shown) <==> r in rows && r.id in shown
  {
    if rows != [] {
      KeepMembers(rows[1..], shown, r);
      assert rows == [rows[0]] + rows[1..];
    }
  }

  lemma {:induction false} KeepStaysOrdered(rows: seq<Row>, shown: set<PollId>)
    requires Descending(rows)
    ensures Descending(Keep(rows, shown))
    ensures DistinctScores(rows) ==> DistinctScores(Keep(rows, shown))
  {
    if rows != [] {
      var rest := Keep(rows[1..], shown);
      KeepStaysOrdered(rows[1..], shown);
      forall i | 0 <= i < |rest|
        ensures rows[0].score >= rest[i].score
        ensures DistinctScores(rows) ==> rows[0].score != rest[i].score
      {
        KeepMembers(rows[1..], shown, rest[i]);
        var j :| 0 <= j < |rows[1..]| && rows[1..][j] == rest[i];
        assert rest[i] == rows[j + 1];
      }
    }
  }

  lemma {:induction false} RedisFiltersTheWalk(rows: seq<Row>, cursor: Option<int>, size: nat, shown: set<PollId>)
    requires size >= 1
    ensures ServedByRedis(rows, cursor, size, shown) == Keep(Walk(rows, cursor, size), shown)
    decreases |Below(rows, cursor)|
  {
    var (page, next) := Page(rows, cursor, size);
    if next.Some? {
      NextIsLower(rows, cursor, size);
      RedisFiltersTheWalk(rows, next, size, shown);
      KeepConcat(page, Walk(rows, next, size), shown);
    }
  }

  /** A page whose last row ties with the first row it leaves out. */
  predicate SplitsTie(rows: seq<Row>, cursor: Option<int>, size: nat)
    requires size >= 1
  {
    var below := Below(rows, cursor);
    |below| > size && below[size].score == below[size - 1].score
  }

  /** No page of a walk does that. */
  predicate NoTieSplit(rows: seq<Row>, cursor: Option<int>, size: nat)
    requires size >= 1
    decreases |Below(rows, cursor)|
  {
    var next := Page(rows, cursor, size).1;
    && !SplitsTie(rows, cursor, size)
    && (next.None? ||
        (NextIsLower(rows, cursor, size);
         NoTieSplit(rows, next, size)))
  }

  /** The next cut leaves what the page left, except the rows tied with its last. */
  lemma NextCut(rows: seq<Row>, cursor: Option<int>, size: nat)
    requires size >= 1 && Descending(rows) && Page(rows, cursor, size).1.Some?
    ensures var below, next := Below(rows, cursor), Page(rows, cursor, size).1;
            && |Below(rows, next)| <= |below| - size
            && (!SplitsTie(rows, cursor, size) ==> Below(rows, next) == below[size..])
            && (SplitsTie(rows, cursor, size) ==> |Below(rows, next)| < |below| - size)
  {
    var below := Below(rows, cursor);
    var k := BelowIsSuffix(rows, cursor);
    var n := k + size;
    assert |below| == |rows| - k;
    assert below[size - 1] == rows[n - 1] && below[size] == rows[n];
    assert below[size..] == rows[n..];
    NextStart(rows, n);
  }

  /** Cutting at the score of the row before position n leaves the rows from n on, or fewer where n ties with it. */
  lemma NextStart(rows: seq<Row>, n: nat)
    requires Descending(rows) && 0 < n < |rows|
    ensures var rest := Below(rows, Some(rows[n - 1].score));
            if rows[n].score == rows[n - 1].score then |rest| < |rows| - n else rest == rows[n..]
  {
    var j := BelowIsSuffix(rows, Some(rows[n - 1].score));
    assert j >= n;
    assert j > n <==> rows[n].score == rows[n - 1].score;
  }

  lemma {:induction false} WalkNoLonger(rows: seq<Row>, cursor: Option<int>, size: nat)
    requires size >= 1 && Descending(rows)
    ensures |Walk(rows, cursor, size)| <= |Below(rows, cursor)|
    decreases |Below(rows, cursor)|
  {
    var next := Page(rows, cursor, size).1;
    if next.Some? {
      NextIsLower(rows, cursor, size);
      NextCut(rows, cursor, size);
      WalkNoLonger(rows, next, size);
    }
  }

  /** A walk lists all the rows under its cursor, in order, if and only if no page of it splits a tie. */
  lemma {:induction false} WalkIsCompleteIff(rows: seq<Row>, cursor: Option<int>, size: nat)
    requires size >= 1 && Descending(rows)
    ensures Walk(rows, cursor, size) == Below(rows, cursor) <==> NoTieSplit(rows, cursor, size)
    decreases |Below(rows, cursor)|
  {
    var below := Below(rows, cursor);
    var (page, next) := Page(rows, cursor, size);
    if next.Some? {
      NextIsLower(rows, cursor, size);
      NextCut(rows, cursor, size);
      var rest := Walk(rows, next, size);
      assert Walk(rows, cursor, size) == page + rest;
      if SplitsTie(rows, cursor, size) {
        WalkNoLonger(rows, next, size);
      } else {
        WalkIsCompleteIff(rows, next, size);
        assert below == page + below[size..];
        assert (page + rest)[size..] == rest;
      }
    }
  }

  /** Two polls with one score and a page of one: the second is never served. */
  lemma TiedPollMissed()
    ensures var rows := [Row("a", 7), Row("b", 7)];
            && Descending(rows) && DistinctIds(rows) && !NoTieSplit(rows, None, 1)
            && Walk(rows, None, 1) == [rows[0]]
            && ServedByRedis(rows, None, 1, {"a", "b"}) == [rows[0]]
            && ServedByMemory(rows, 1, {"a", "b"}) == [rows[0]]
  {
    var rows := [Row("a", 7), Row("b", 7)];
    var shown := {"a", "b"};
    assert rows[1..] == [rows[1]] && rows[1..][1..] == [];
    assert Below(rows[1..], None) == [rows[1]] && Below(rows, None) == rows;
    assert Below(rows[1..], Some(7)) == [] && Below(rows, Some(7)) == [];
    assert Walk(rows, Some(7), 1) == [];
    assert Keep(rows[1..], shown) == [rows[1]] && Keep(rows, shown) == rows;
    RedisFiltersTheWalk(rows, None, 1, shown);
    assert Keep([rows[0]], shown) == [rows[0]] + Keep([], shown);
  }

  lemma {:induction false} DistinctScoresSplitNothing(rows: seq<Row>, cursor: Option<int>, size: nat)
    requires size >= 1 && Descending(rows) && DistinctScores(rows)
    ensures NoTieSplit(rows, cursor, size)
    decreases |Below(rows, cursor)|
  {
    var next := Page(rows, cursor, size).1;
    var k := BelowIsSuffix(rows, cursor);
    if next.Some? {
      assert rows[k + size].score != rows[k + size - 1].score;
      NextIsLower(rows, cursor, size);
      DistinctScoresSplitNothing(rows, next, size);
    }
  }

  /** With distinct scores a walk lists exactly the rows under its cursor, in order. */
  lemma WalkIsComplete(rows: seq<Row>, cursor: Option<int>, size: nat)
    requires size >= 1 && Descending(rows) && DistinctScores(rows)
    ensures Walk(rows, cursor, size) == Below(rows, cursor)
  {
    DistinctScoresSplitNothing(rows, cursor, size);
    WalkIsCompleteIff(rows, cursor, size);
  }

  lemma {:induction false} BelowNothing(rows: seq<Row>)
    ensures Below(rows, None) == rows
  {
    if rows != [] {
      BelowNothing(rows[1..]);
    }
  }

  /**
   Full walks agree: with distinct scores, both stores' pages concatenate to the shown polls in descending score,
   although they cut and filter in opposite order.
   */
  lemma WalksAgree(rows: seq<Row>, size: nat, shown: set<PollId>)
    requires size >= 1 && Descending(rows) && DistinctScores(rows)
    ensures ServedByRedis(rows, None, size, shown) == Keep(rows, shown)
    ensures ServedByMemory(rows, size, shown) == Keep(rows, shown)
  {
    RedisFiltersTheWalk(rows, None, size, shown);
    WalkIsComplete(rows, None, size);
    BelowNothing(rows);
    KeepStaysOrdered(rows, shown);
    WalkIsComplete(Keep(rows, shown), None, size);
    BelowNothing(Keep(rows, shown));
  }

  lemma {:induction false} WalkMembers(rows: seq<Row>, cursor: Option<int>, size: nat, r: Row)
    requires size >= 1 && r in Walk(rows, cursor, size)
    ensures r in rows && Under(r.score, cursor)
    decreases |Below(rows, cursor)|
  {
    var (page, next) := Page(rows, cursor, size);
    if r in page {
      BelowMembers(rows, cursor, r);
    } else {
      NextIsLower(rows, cursor, size);
      WalkMembers(rows, next, size, r);
    }
  }

  /** Some page of a walk ends at a row's score without it. */
  predicate LeftBehind(rows: seq<Row>, cursor: Option<int>, size: nat, r: Row)
    requires size >= 1
    decreases |Below(rows, cursor)|
  {
    var (page, next) := Page(rows, cursor, size);
    && next.Some?
    && ((r.score == next.value && r in Below(rows, cursor) && r !in page)
        || (NextIsLower(rows, cursor, size);
            LeftBehind(rows, next, size, r)))
  }

  lemma {:induction false} LeftBehindIsBelow(rows: seq<Row>, cursor: Option<int>, size: nat, r: Row)
    requires size >= 1 && LeftBehind(rows, cursor, size, r)
    ensures r in Below(rows, cursor)
    decreases |Below(rows, cursor)|
  {
    var (page, next) := Page(rows, cursor, size);
    NextIsLower(rows, cursor, size);
    if r.score != next.value || r !in Below(rows, cursor) || r in page {
      LeftBehindIsBelow(rows, next, size, r);
      BelowMembers(rows, next, r);
      BelowMembers(rows, cursor, r);
    }
  }

  /** A row under the cursor is missed by a walk if and only if some page ends at its score without it. */
  lemma {:induction false} MissedIff(rows: seq<Row>, cursor: Option<int>, size: nat, r: Row)
    requires size >= 1 && Descending(rows) && r in Below(rows, cursor)
    ensures r !in Walk(rows, cursor, size) <==> LeftBehind(rows, cursor, size, r)
    decreases |Below(rows, cursor)|
  {
    var (page, next) := Page(rows, cursor, size);
    BelowMembers(rows, cursor, r);
    if r in page {
      if LeftBehind(rows, cursor, size, r) {
        NextIsLower(rows, cursor, size);
        PageAbove(rows, cursor, size, r);
        LeftBehindIsBelow(rows, next, size, r);
        BelowMembers(rows, next, r);
      }
    } else {
      var last := PageLeaves(rows, cursor, size, r);
      NextIsLower(rows, cursor, size);
      BelowMembers(rows, next, r);
      if r.score != next.value {
        MissedIff(rows, next, size, r);
      } else if r in Walk(rows, next, size) {
        WalkMembers(rows, next, size, r);
      }
    }
  }

  // ---------- A walk over rows that change between pages ----------

  /** What one page call saw: the rows of the index and the polls that could be read and are shown. */
  datatype Visit = Visit(rows: seq<Row>, shown: set<PollId>)

  /**
   The cursors of a run of page calls: none at first, then what the call before returned. Every call but the
   first was made because the one before returned a cursor.
   */
  ghost predicate Chained(visits: seq<Visit>, cursors: seq<Option<int>>, size: nat)
    requires size >= 1
  {
    && |cursors| == |visits| + 1 && cursors[0] == None
    && (forall i {:trigger visits[i]} :: 0 <= i < |visits| ==>
          && cursors[i + 1] == Page(visits[i].rows, cursors[i], size).1
          && (i > 0 ==> cursors[i].Some?))
  }

  function Served(v: Visit, cursor: Option<int>, size: nat): seq<Row>
    requires size >= 1
  {
    Keep(Page(v.rows, cursor, size).0, v.shown)
  }

  /** Rows come in descending order, one per poll, and a poll has the same score at every call. */
  ghost predicate WellListed(visits: seq<Visit>) {
    && (forall i :: 0 <= i < |visits| ==> Descending(visits[i].rows))
    && (forall i :: 0 <= i < |visits| ==> DistinctIds(visits[i].rows))
    && (forall i, j :: 0 <= i < |visits| && 0 <= j < |visits| ==> SameScores(visits[i].rows, visits[j].rows))
  }

  ghost predicate SameScores(a: seq<Row>, b: seq<Row>) {
    forall r, q :: r in a && q in b && r.id == q.id ==> r.score == q.score
  }

  /** A page's rows lie between the two cursors. */
  lemma PageAbove(rows: seq<Row>, cursor: Option<int>, size: nat, r: Row)
    requires size >= 1 && Descending(rows) && r in Page(rows, cursor, size).0
    ensures r in rows && Under(r.score, cursor)
    ensures Page(rows, cursor, size).1.Some? ==> r.score >= Page(rows, cursor, size).1.value
  {
    var page := Page(rows, cursor, size).0;
    var k := BelowIsSuffix(rows, cursor);
    var i :| 0 <= i < |page| && page[i] == r;
    assert r == rows[k + i];
  }

  /** What a page leaves under its cursor does not lie above the next, which is the score of its last row. */
  lemma PageLeaves(rows: seq<Row>, cursor: Option<int>, size: nat, r: Row) returns (last: Row)
    requires size >= 1 && Descending(rows)
    requires r in rows && Under(r.score, cursor) && r !in Page(rows, cursor, size).0
    ensures var next := Page(rows, cursor, size).1;
            next.Some? && r.score <= next.value && last.score == next.value
    ensures last in rows && last in Page(rows, cursor, size).0
    ensures var below := Below(rows, cursor);
            |below| > size && r.score <= below[size].score <= last.score == below[size - 1].score
  {
    var page, below := Page(rows, cursor, size).0, Below(rows, cursor);
    BelowMembers(rows, cursor, r);
    var j :| 0 <= j < |below| && below[j] == r;
    assert forall n :: 0 <= n < |page| ==> page[n] == below[n] && page[n] != r;
    assert |below| > size && j >= size;
    BelowDescends(rows, cursor, size - 1, size);
    if j > size {
      BelowDescends(rows, cursor, size, j);
    }
    last := page[size - 1];
    BelowMembers(rows, cursor, last);
  }

  lemma BelowDescends(rows: seq<Row>, cursor: Option<int>, i: nat, j: nat)
    requires Descending(rows) && i < j < |Below(rows, cursor)|
    ensures Below(rows, cursor)[i].score >= Below(rows, cursor)[j].score
  {
    var k := BelowIsSuffix(rows, cursor);
    assert rows[k..][i] == rows[k + i] && rows[k..][j] == rows[k + j];
  }

  lemma ServedBounds(v: Visit, cursor: Option<int>, size: nat, r: Row)
    requires size >= 1 && Descending(v.rows) && r in Served(v, cursor, size)
    ensures r in v.rows && Under(r.score, cursor)
    ensures var next := Page(v.rows, cursor, size).1;
            next.Some? ==> r.score >= next.value
  {
    KeepMembers(Page(v.rows, cursor, size).0, v.shown, r);
    PageAbove(v.rows, cursor, size, r);
  }

  lemma {:induction false} CursorsFall(visits: seq<Visit>, cursors: seq<Option<int>>, i: nat, j: nat, size: nat)
    requires size >= 1 && Chained(visits, cursors, size) && 0 < i <= j < |visits|
    ensures cursors[i].Some? && cursors[j].Some? && cursors[j].value <= cursors[i].value
    decreases j
  {
    assert visits[j] == visits[j] && visits[j - 1] == visits[j - 1];
    if i < j {
      CursorsFall(visits, cursors, i, j - 1, size);
      NextIsLower(visits[j - 1].rows, cursors[j - 1], size);
    }
  }

  /** However the rows change between calls, no poll is served by two pages. */
  lemma NoPollTwice(visits: seq<Visit>, cursors: seq<Option<int>>, i: nat, j: nat, size: nat, r: Row, q: Row)
    requires size >= 1 && Chained(visits, cursors, size) && WellListed(visits) && i < j < |visits|
    requires r in Served(visits[i], cursors[i], size) && q in Served(visits[j], cursors[j], size)
    ensures r.id != q.id
  {
    ServedBounds(visits[i], cursors[i], size, r);
    ServedBounds(visits[j], cursors[j], size, q);
    CursorsFall(visits, cursors, i + 1, j, size);
    assert SameScores(visits[i].rows, visits[j].rows);
  }

  lemma {:induction false} DistinctAfterKeep(rows: seq<Row>, shown: set<PollId>)
    requires DistinctIds(rows)
    ensures DistinctIds(Keep(rows, shown))
  {
    if rows != [] {
      DistinctAfterKeep(rows[1..], shown);
      var rest := Keep(rows[1..], shown);
      forall i | 0 <= i < |rest|
        ensures rest[i].id != rows[0].id
      {
        KeepMembers(rows[1..], shown, rest[i]);
        var j :| 0 <= j < |rows[1..]| && rows[1..][j] == rest[i];
        assert rest[i] == rows[j + 1];
      }
    }
  }

  /** Nor twice by one page. */
  lemma NoPollTwiceOnAPage(v: Visit, cursor: Option<int>, size: nat)
    requires size >= 1 && Descending(v.rows) && DistinctIds(v.rows)
    ensures DistinctIds(Served(v, cursor, size))
  {
    var k := BelowIsSuffix(v.rows, cursor);
    DistinctAfterKeep(Page(v.rows, cursor, size).0, v.shown);
  }

  /** A row listed and shown at every call. */
  ghost predicate Present(visits: seq<Visit>, r: Row) {
    forall i {:trigger visits[i]} :: 0 <= i < |visits| ==> r in visits[i].rows && r.id in visits[i].shown
  }

  /** At no call does another row have its score. */
  ghost predicate Untied(visits: seq<Visit>, r: Row) {
    forall i {:trigger visits[i]} :: 0 <= i < |visits| ==>
      forall q :: q in visits[i].rows && q.score == r.score ==> q == r
  }

  /** A lasting row that a page does not serve is at the next cursor or under it. */
  lemma StaysUnder(v: Visit, cursor: Option<int>, size: nat, r: Row)
    requires size >= 1 && Descending(v.rows) && r in v.rows && r.id in v.shown
    requires Under(r.score, cursor) && r !in Served(v, cursor, size)
    ensures var next := Page(v.rows, cursor, size).1;
            next.Some? && (next == Some(r.score) || Under(r.score, next))
  {
    KeepMembers(Page(v.rows, cursor, size).0, v.shown, r);
    var last := PageLeaves(v.rows, cursor, size, r);
  }

  ghost predicate ServedBy(visits: seq<Visit>, cursors: seq<Option<int>>, size: nat, r: Row)
    requires size >= 1 && |cursors| == |visits| + 1
  {
    exists i {:trigger Served(visits[i], cursors[i], size)} ::
      0 <= i < |visits| && r in Served(visits[i], cursors[i], size)
  }

  lemma {:induction false} StillUnder(visits: seq<Visit>, cursors: seq<Option<int>>, i: nat, size: nat, r: Row)
    requires size >= 1 && Chained(visits, cursors, size) && WellListed(visits) && i <= |visits|
    requires Present(visits, r) && !ServedBy(visits, cursors, size, r)
    requires forall j :: 0 <= j <= i ==> cursors[j] != Some(r.score)
    ensures Under(r.score, cursors[i]) && (i > 0 ==> cursors[i].Some?)
  {
    if i > 0 {
      StillUnder(visits, cursors, i - 1, size, r);
      var v := visits[i - 1];
      StaysUnder(v, cursors[i - 1], size, r);
    }
  }

  /**
   In a finished walk, whatever comes and goes between pages and however each page orders its ties, a poll listed and
   shown throughout is served unless some page ended at its very score.
   */
  lemma MissedOnlyAtPageEnd(visits: seq<Visit>, cursors: seq<Option<int>>, size: nat, r: Row)
    requires size >= 1 && Chained(visits, cursors, size) && WellListed(visits) && visits != []
    requires Present(visits, r) && cursors[|visits|] == None
    ensures ServedBy(visits, cursors, size, r) || exists j :: 0 < j < |visits| && cursors[j] == Some(r.score)
  {
    if !ServedBy(visits, cursors, size, r) && forall j :: 0 < j < |visits| ==> cursors[j] != Some(r.score) {
      StillUnder(visits, cursors, |visits|, size, r);
    }
  }

  /** A shown row that is at a page's returned cursor but not served: the page splits its tie. */
  lemma UnservedAtEnd(v: Visit, cursor: Option<int>, size: nat, r: Row) returns (last: Row)
    requires size >= 1 && Descending(v.rows) && r in v.rows && r.id in v.shown
    requires Under(r.score, cursor) && Page(v.rows, cursor, size).1 == Some(r.score)
    requires r !in Served(v, cursor, size)
    ensures SplitsTie(v.rows, cursor, size) && last in v.rows && last != r && last.score == r.score
  {
    KeepMembers(Page(v.rows, cursor, size).0, v.shown, r);
    last := PageLeaves(v.rows, cursor, size, r);
  }

  /** Where a page splits a tie, the first row it leaves out is served by no page of the walk. */
  lemma SplitLosesARow(visits: seq<Visit>, cursors: seq<Option<int>>, size: nat, i: nat)
    requires size >= 1 && Chained(visits, cursors, size) && WellListed(visits) && i < |visits|
    requires SplitsTie(visits[i].rows, cursors[i], size)
    ensures Below(visits[i].rows, cursors[i])[size] in visits[i].rows
    ensures !ServedBy(visits, cursors, size, Below(visits[i].rows, cursors[i])[size])
  {
    var v := visits[i];
    var below := Below(v.rows, cursors[i]);
    var r := below[size];
    BelowMembers(v.rows, cursors[i], r);
    forall j | 0 <= j < |visits|
      ensures r !in Served(visits[j], cursors[j], size)
    {
      if r in Served(visits[j], cursors[j], size) {
        NotServedThere(visits, cursors, size, i, j);
      }
    }
  }

  lemma NotServedThere(visits: seq<Visit>, cursors: seq<Option<int>>, size: nat, i: nat, j: nat)
    requires size >= 1 && Chained(visits, cursors, size) && WellListed(visits) && i < |visits| && j < |visits|
    requires SplitsTie(visits[i].rows, cursors[i], size)
    ensures Below(visits[i].rows, cursors[i])[size] !in Served(visits[j], cursors[j], size)
  {
    var v, w := visits[i], visits[j];
    var r := Below(v.rows, cursors[i])[size];
    BelowMembers(v.rows, cursors[i], r);
    if r in Served(w, cursors[j], size) {
      ServedBounds(w, cursors[j], size, r);
      if j < i {
        CursorsFall(visits, cursors, j + 1, i, size);
      } else if i < j {
        CursorsFall(visits, cursors, i + 1, j, size);
      } else {
        LeftOut(v.rows, cursors[i], size);
        KeepMembers(Page(v.rows, cursors[i], size).0, v.shown, r);
      }
    }
  }

  /** The first row after a page is not on it. */
  lemma LeftOut(rows: seq<Row>, cursor: Option<int>, size: nat)
    requires size >= 1 && Descending(rows) && DistinctIds(rows) && |Below(rows, cursor)| > size
    ensures Below(rows, cursor)[size] !in Page(rows, cursor, size).0
  {
    var below := Below(rows, cursor);
    var k := BelowIsSuffix(rows, cursor);
    forall n | 0 <= n < size
      ensures below[n] != below[size]
    {
      assert rows[k + n].id != rows[k + size].id;
    }
  }

  /** The walk lists the same shown rows at every call, in whatever order among ties. */
  ghost predicate Stands(visits: seq<Visit>, all: set<Row>) {
    forall i {:trigger visits[i]} :: 0 <= i < |visits| ==>
      forall r :: (r in visits[i].rows <==> r in all) && (r in all ==> r.id in visits[i].shown)
  }

  /** Paging over a list that stands still but is sorted anew at each call serves all of it iff no page splits a tie. */
  lemma ServesAllIff(visits: seq<Visit>, cursors: seq<Option<int>>, size: nat, all: set<Row>)
    requires size >= 1 && Chained(visits, cursors, size) && WellListed(visits) && visits != []
    requires Stands(visits, all) && cursors[|visits|] == None
    ensures (forall r :: r in all ==> ServedBy(visits, cursors, size, r))
       <==> (forall i :: 0 <= i < |visits| ==> !SplitsTie(visits[i].rows, cursors[i], size))
  {
    if i :| 0 <= i < |visits| && SplitsTie(visits[i].rows, cursors[i], size) {
      SplitLosesARow(visits, cursors, size, i);
      assert Below(visits[i].rows, cursors[i])[size] in all;
    } else {
      forall r | r in all
        ensures ServedBy(visits, cursors, size, r)
      {
        UnsplitWalkServes(visits, cursors, size, r);
      }
    }
  }

  /** A lasting poll that is served nowhere was under some page's cursor and at the next. */
  lemma EndsAt(visits: seq<Visit>, cursors: seq<Option<int>>, size: nat, r: Row) returns (i: nat)
    requires size >= 1 && Chained(visits, cursors, size) && WellListed(visits) && visits != []
    requires Present(visits, r) && cursors[|visits|] == None && !ServedBy(visits, cursors, size, r)
    ensures i < |visits| && r !in Served(visits[i], cursors[i], size)
    ensures Under(r.score, cursors[i]) && Page(visits[i].rows, cursors[i], size).1 == Some(r.score)
  {
    MissedOnlyAtPageEnd(visits, cursors, size, r);
    var j :| 0 < j < |visits| && cursors[j] == Some(r.score);
    var n := FirstAt(visits, cursors, size, r, j);
    StillUnder(visits, cursors, n - 1, size, r);
    i := n - 1;
    assert visits[i] == visits[i];
  }

  lemma UnsplitWalkServes(visits: seq<Visit>, cursors: seq<Option<int>>, size: nat, r: Row)
    requires size >= 1 && Chained(visits, cursors, size) && WellListed(visits) && visits != []
    requires Present(visits, r) && cursors[|visits|] == None
    requires forall i :: 0 <= i < |visits| ==> !SplitsTie(visits[i].rows, cursors[i], size)
    ensures ServedBy(visits, cursors, size, r)
  {
    if !ServedBy(visits, cursors, size, r) {
      var i := EndsAt(visits, cursors, size, r);
      var last := UnservedAtEnd(visits[i], cursors[i], size, r);
    }
  }

  /** The first cursor at a score. */
  lemma {:induction false} FirstAt(visits: seq<Visit>, cursors: seq<Option<int>>, size: nat, r: Row, j: nat)
    returns (i: nat)
    requires size >= 1 && Chained(visits, cursors, size) && 0 < j < |visits| && cursors[j] == Some(r.score)
    ensures 0 < i <= j && cursors[i] == Some(r.score)
    ensures forall n :: 0 <= n < i ==> cursors[n] != Some(r.score)
    decreases j
  {
    if n :| 0 < n < j && cursors[n] == Some(r.score) {
      i := FirstAt(visits, cursors, size, r, n);
    } else {
      i := j;
    }
  }

  /** So a lasting poll tied with no other is served: together with `NoPollTwice`, exactly once. */
  lemma LastingPollIsServed(visits: seq<Visit>, cursors: seq<Option<int>>, size: nat, r: Row)
    requires size >= 1 && Chained(visits, cursors, size) && WellListed(visits) && visits != []
    requires Present(visits, r) && Untied(visits, r)
    requires cursors[|visits|] == None
    ensures ServedBy(visits, cursors, size, r)
  {
    if !ServedBy(visits, cursors, size, r) {
      var i := EndsAt(visits, cursors, size, r);
      var last := UnservedAtEnd(visits[i], cursors[i], size, r);
    }
  }
}
