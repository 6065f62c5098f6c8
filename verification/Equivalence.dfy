/** Whole runs of the two stores side by side, and what callers can observe of them afterwards. */
module Equivalence {
  import opened Common
  import opened Ballot
  import L = Ledger
  import M = MemoryStore
  import Deadline
  import P = Paging
  import PagingRuns

  /** An operation and when it is carried out. */
  datatype Timed = Timed(op: Op, at: int)

  /** Time never goes back, and each operation is admissible when its turn comes. */
  ghost predicate AdmissibleRun(b: Box, used: set<PollId>, now: int, ops: seq<Timed>)
    decreases |ops|
  {
    ops == [] ||
    (&& now <= ops[0].at && Admissible(b, used, ops[0].op, ops[0].at)
     && AdmissibleRun(Apply(b, ops[0].op, ops[0].at).1, Used(used, ops[0].op), ops[0].at, ops[1..]))
  }

  function Last(now: int, ops: seq<Timed>): int {
    if ops == [] then now else ops[|ops| - 1].at
  }

  function BoxAfter(b: Box, ops: seq<Timed>): Box
    decreases |ops|
  {
    if ops == [] then b else BoxAfter(Apply(b, ops[0].op, ops[0].at).1, ops[1..])
  }

  function UsedAfter(used: set<PollId>, ops: seq<Timed>): set<PollId>
    decreases |ops|
  {
    if ops == [] then used else UsedAfter(Used(used, ops[0].op), ops[1..])
  }

  function RedisAfter(db: L.Db, ops: seq<Timed>, salt: PollId -> nat): L.Db
    decreases |ops|
  {
    if ops == [] then db else RedisAfter(OnRedis(db, ops[0].op, salt, ops[0].at).1, ops[1..], salt)
  }

  function RedisCodes(db: L.Db, ops: seq<Timed>, salt: PollId -> nat): seq<Code>
    decreases |ops|
  {
    if ops == [] then []
    else
      var r := OnRedis(db, ops[0].op, salt, ops[0].at);
      [r.0] + RedisCodes(r.1, ops[1..], salt)
  }

  function MemoryAfter(m: M.Mem, ops: seq<Timed>): M.Mem
    decreases |ops|
  {
    if ops == [] then m else MemoryAfter(OnMemory(m, ops[0].op, ops[0].at).1, ops[1..])
  }

  function MemoryCodes(m: M.Mem, ops: seq<Timed>): seq<Code>
    decreases |ops|
  {
    if ops == [] then []
    else
      var r := OnMemory(m, ops[0].op, ops[0].at);
      [r.0] + MemoryCodes(r.1, ops[1..])
  }

  /** Both stores holding the same abstract ballots. */
  ghost predicate InStep(db: L.Db, m: M.Mem, b: Box, used: set<PollId>, salt: PollId -> nat, now: int) {
    RedisHolds(db, b, used, salt, now) && MemoryHolds(m, b)
  }

  lemma BothStep(db: L.Db, m: M.Mem, b: Box, used: set<PollId>, salt: PollId -> nat, now: int, t: Timed)
    requires InStep(db, m, b, used, salt, now) && now <= t.at && Admissible(b, used, t.op, t.at)
    ensures OnRedis(db, t.op, salt, t.at).0 == OnMemory(m, t.op, t.at).0
    ensures InStep(OnRedis(db, t.op, salt, t.at).1, OnMemory(m, t.op, t.at).1, Apply(b, t.op, t.at).1,
                   Used(used, t.op), salt, t.at)
  {
    RedisWaits(db, b, used, salt, now, t.at);
    RedisRefines(db, b, used, salt, t.op, t.at);
    MemoryRefines(m, b, t.op, t.at);
  }

  lemma {:induction false} StayInStep(db: L.Db, m: M.Mem, b: Box, used: set<PollId>, salt: PollId -> nat, now: int,
                                      ops: seq<Timed>)
    requires InStep(db, m, b, used, salt, now) && AdmissibleRun(b, used, now, ops)
    ensures RedisCodes(db, ops, salt) == MemoryCodes(m, ops)
    ensures InStep(RedisAfter(db, ops, salt), MemoryAfter(m, ops), BoxAfter(b, ops), UsedAfter(used, ops), salt,
                   Last(now, ops))
    decreases |ops|
  {
    if ops != [] {
      BothStep(db, m, b, used, salt, now, ops[0]);
      StayInStep(OnRedis(db, ops[0].op, salt, ops[0].at).1, OnMemory(m, ops[0].op, ops[0].at).1,
                 Apply(b, ops[0].op, ops[0].at).1, Used(used, ops[0].op), salt, ops[0].at, ops[1..]);
      assert Last(ops[0].at, ops[1..]) == Last(now, ops);
    }
  }

  // ---------- Observations ----------

  lemma {:induction false} AsManyPairs(id: PollId, users: set<UserId>)
    ensures |set u | u in users :: (id, u)| == |users|
    decreases users
  {
    var pairs := set u | u in users :: (id, u);
    if users == {} {
      assert pairs == {};
    } else {
      var u :| u in users;
      AsManyPairs(id, users - {u});
      var fewer := set v | v in users - {u} :: (id, v);
      assert pairs == fewer + {(id, u)};
      assert (id, u) !in fewer;
    }
  }

  lemma SupportersAreBallots(db: L.Db, id: PollId, ballots: map<UserId, string>, option: string)
    requires BallotsMatch(db, id, ballots)
    ensures |L.Supporters(db, id, option)| == CountFor(ballots, option)
  {
    var users := set u | u in ballots && ballots[u] == option;
    AsManyPairs(id, users);
    var pairs := set u | u in users :: (id, u);
    forall v
      ensures v in L.Supporters(db, id, option) <==> v in pairs
    {
      assert v == (v.0, v.1);
      if v in L.Supporters(db, id, option) {
        assert v.1 in users;
      }
    }
    assert L.Supporters(db, id, option) == pairs;
  }

  /** Same tallies, a missing count being zero. */
  lemma SameTallies(db: L.Db, m: M.Mem, b: Box, used: set<PollId>, salt: PollId -> nat, now: int, id: PollId,
                    option: string)
    requires InStep(db, m, b, used, salt, now)
    ensures L.Live(db, id) <==> id in m.polls
    ensures id in m.polls ==> L.TallyAt(db, id, option) == M.CountOf(m.polls[id], option)
  {
    if id in b {
      assert MetaMatches(db.meta[id], b[id], now);
      assert BallotsMatch(db, id, b[id].ballots);
      assert EntryHolds(m.polls[id], M.VotesOn(m, id), id, b[id]);
      SupportersAreBallots(db, id, b[id].ballots, option);
      L.TallyCountsSupporters(db, id, option);
    }
  }

  /** Same closed status, deadlines counted in. */
  lemma SameStatus(db: L.Db, m: M.Mem, b: Box, used: set<PollId>, salt: PollId -> nat, now: int, id: PollId)
    requires InStep(db, m, b, used, salt, now) && id in b && !Deadline.LastSecond(now, b[id].expiresAt)
    ensures id in db.meta && id in m.polls && (db.meta[id].ReadsClosed(now) <==> M.Shut(m.polls[id], now))
  {
    assert MetaMatches(db.meta[id], b[id], now);
    assert EntryHolds(m.polls[id], M.VotesOn(m, id), id, b[id]);
    SameVerdict(db.meta[id], b[id], now);
  }

  lemma SameStatusLater(db: L.Db, m: M.Mem, b: Box, used: set<PollId>, salt: PollId -> nat, now: int, id: PollId,
                        later: int)
    requires InStep(db, m, b, used, salt, now) && id in m.polls && now <= later
    requires !Deadline.LastSecond(later, m.polls[id].expiresAt)
    ensures id in db.meta && (db.meta[id].ReadsClosed(later) <==> M.Shut(m.polls[id], later))
  {
    assert id in b && EntryHolds(m.polls[id], M.VotesOn(m, id), id, b[id]);
    RedisWaits(db, b, used, salt, now, later);
    SameStatus(db, m, b, used, salt, later, id);
  }

  /** The pairs GetMyVotes reports from Redis: histories of polls that can be read. */
  ghost function RedisMyVotes(db: L.Db, user: UserId): set<(PollId, string)> {
    set v | v in db.history && v.1 == user && v.0 in db.meta :: (v.0, db.history[v])
  }

  ghost function MemoryMyVotes(m: M.Mem, user: UserId): set<(PollId, string)> {
    set v | v in M.MyVotes(m, user) :: (v.pollId, v.option)
  }

  lemma MyVoteInRedis(db: L.Db, b: Box, used: set<PollId>, salt: PollId -> nat, now: int, user: UserId, id: PollId,
                      option: string)
    requires RedisHolds(db, b, used, salt, now)
    ensures (id, option) in RedisMyVotes(db, user) <==>
              id in b && user in b[id].ballots && b[id].ballots[user] == option
  {
    if id in b {
      assert MetaMatches(db.meta[id], b[id], now) && BallotsMatch(db, id, b[id].ballots);
      if (id, user) in db.history {
        assert ((id, user).0, db.history[(id, user)]) in RedisMyVotes(db, user);
      }
    }
  }

  lemma MyVoteInMemory(m: M.Mem, b: Box, user: UserId, id: PollId, option: string)
    requires MemoryHolds(m, b)
    ensures (id, option) in MemoryMyVotes(m, user) <==>
              id in b && user in b[id].ballots && b[id].ballots[user] == option
  {
    if id in b {
      assert EntryHolds(m.polls[id], M.VotesOn(m, id), id, b[id]);
      if id in m.votes && user in m.votes[id] {
        var v := M.MyVote(id, m.votes[id][user], m.polls[id]);
        assert v in M.MyVotes(m, user);
        assert (v.pollId, v.option) in MemoryMyVotes(m, user);
      }
    }
  }

  lemma SameMyVotes(db: L.Db, m: M.Mem, b: Box, used: set<PollId>, salt: PollId -> nat, now: int, user: UserId)
    requires InStep(db, m, b, used, salt, now)
    ensures RedisMyVotes(db, user) == MemoryMyVotes(m, user)
  {
    forall v
      ensures v in RedisMyVotes(db, user) <==> v in MemoryMyVotes(m, user)
    {
      assert v == (v.0, v.1);
      MyVoteInRedis(db, b, used, salt, now, user, v.0, v.1);
      MyVoteInMemory(m, b, user, v.0, v.1);
    }
  }

  lemma EmptyInStep(salt: PollId -> nat, now: int)
    ensures InStep(L.EMPTY_DB, M.EMPTY_MEM, map[], {}, salt, now)
  {
    L.EmptyLedger();
  }

  /**
   The two stores are interchangeable: any admissible sequence of operations from empty stores returns the same
   codes in the same order, and afterwards both hold the same polls, tallies and votes.
   */
  lemma StoresAgree(salt: PollId -> nat, now: int, ops: seq<Timed>)
    requires AdmissibleRun(map[], {}, now, ops)
    ensures RedisCodes(L.EMPTY_DB, ops, salt) == MemoryCodes(M.EMPTY_MEM, ops)
    ensures var (db, m) := (RedisAfter(L.EMPTY_DB, ops, salt), MemoryAfter(M.EMPTY_MEM, ops));
            && (forall id :: L.Live(db, id) <==> id in m.polls)
            && (forall id, o :: id in m.polls ==> L.TallyAt(db, id, o) == M.CountOf(m.polls[id], o))
            && (forall u :: RedisMyVotes(db, u) == MemoryMyVotes(m, u))
            && (forall id, t :: id in m.polls && L.Live(db, id) && Last(now, ops) <= t
                                && !Deadline.LastSecond(t, m.polls[id].expiresAt) ==>
                  (db.meta[id].ReadsClosed(t) <==> M.Shut(m.polls[id], t)))
  {
    EmptyInStep(salt, now);
    StayInStep(L.EMPTY_DB, M.EMPTY_MEM, map[], {}, salt, now, ops);
    var (db, m) := (RedisAfter(L.EMPTY_DB, ops, salt), MemoryAfter(M.EMPTY_MEM, ops));
    var (b, used, t) := (BoxAfter(map[], ops), UsedAfter({}, ops), Last(now, ops));
    forall id, o
      ensures L.Live(db, id) <==> id in m.polls
      ensures id in m.polls ==> L.TallyAt(db, id, o) == M.CountOf(m.polls[id], o)
    {
      SameTallies(db, m, b, used, salt, t, id, o);
    }
    forall u
      ensures RedisMyVotes(db, u) == MemoryMyVotes(m, u)
    {
      SameMyVotes(db, m, b, used, salt, t, u);
    }
    forall id, later | id in m.polls && L.Live(db, id) && t <= later
                       && !Deadline.LastSecond(later, m.polls[id].expiresAt)
      ensures db.meta[id].ReadsClosed(later) <==> M.Shut(m.polls[id], later)
    {
      SameStatusLater(db, m, b, used, salt, t, id, later);
    }
  }

  // ---------- Listings ----------

  lemma EmptyTogether(a: seq<P.Row>, b: seq<P.Row>)
    requires forall r :: r in a <==> r in b
    ensures a == [] ==> b == []
  {
    if b != [] {
      assert b[0] in a;
    }
  }

  lemma {:induction false} OneOrder(a: seq<P.Row>, b: seq<P.Row>)
    requires P.Descending(a) && P.Descending(b) && P.DistinctScores(a) && P.DistinctScores(b)
    requires forall r :: r in a <==> r in b
    ensures a == b
    decreases |a|
  {
    if a == [] {
      EmptyTogether(a, b);
    } else {
      assert a[0] in b && b != [];
      SameHead(a, b);
      forall r
        ensures r in a[1..] <==> r in b[1..]
      {
        TailMembers(a, r);
        TailMembers(b, r);
      }
      OneOrder(a[1..], b[1..]);
    }
  }

  lemma SameHead(a: seq<P.Row>, b: seq<P.Row>)
    requires P.Descending(a) && P.Descending(b) && P.DistinctScores(a) && P.DistinctScores(b)
    requires (forall r :: r in a <==> r in b) && a != [] && b != []
    ensures a[0] == b[0]
  {
    assert a[0] in b && b[0] in a;
    var i :| 0 <= i < |b| && b[i] == a[0];
    var j :| 0 <= j < |a| && a[j] == b[0];
    assert a[0].score >= a[j].score && b[0].score >= b[i].score;
    assert forall k :: 0 < k < |a| ==> a[0].score != a[k].score;
  }

  lemma TailMembers(a: seq<P.Row>, r: P.Row)
    requires a != [] && P.DistinctScores(a)
    ensures r in a[1..] <==> r in a && r != a[0]
  {
    assert a == [a[0]] + a[1..];
    if r in a[1..] {
      var i :| 0 <= i < |a[1..]| && a[1..][i] == r;
      assert a[i + 1] == r;
    }
  }

  /** The creator's polls Redis shows in a listing: found, owned, and open unless closed ones were asked for. */
  ghost function Shown(db: L.Db, user: UserId, includeClosed: bool, now: int): set<PollId> {
    set id | id in db.meta && db.meta[id].Creator() == user && (includeClosed || !db.meta[id].ReadsClosed(now))
  }

  /** Every expired poll has been flagged closed, so that reads and flags agree. */
  ghost predicate Flagged(b: Box, now: int) {
    forall id :: id in b ==> (b[id].closed || now <= Unix(b[id].expiresAt) * NANOS)
  }

  /** Which rows the memory store's list has, in terms of the ballots. */
  lemma MemoryRow(m: M.Mem, b: Box, user: UserId, includeClosed: bool, salt: PollId -> nat, sorted: seq<Poll>, r: P.Row)
    requires MemoryHolds(m, b) && M.SortedListing(m, user, includeClosed, salt, sorted)
    ensures r in M.RowsOf(sorted, salt) <==>
              && r.id in b && b[r.id].createdBy == user && (includeClosed || !b[r.id].closed)
              && r.score == CreatedScore(b[r.id].createdAt, salt(r.id))
  {
    M.RowsAt(sorted, salt);
    if r in M.RowsOf(sorted, salt) {
      var i :| 0 <= i < |sorted| && r == M.RowOf(sorted[i], salt);
      assert sorted[i] in sorted;
      assert EntryHolds(m.polls[r.id], M.VotesOn(m, r.id), r.id, b[r.id]);
    }
    if r.id in b && b[r.id].createdBy == user && (includeClosed || !b[r.id].closed)
       && r.score == CreatedScore(b[r.id].createdAt, salt(r.id)) {
      var p := m.polls[r.id];
      assert EntryHolds(p, M.VotesOn(m, r.id), r.id, b[r.id]);
      assert p in sorted;
      var i :| 0 <= i < |sorted| && sorted[i] == p;
      assert M.RowsOf(sorted, salt)[i] == r;
    }
  }

  /** Which rows Redis lists and shows. */
  lemma RedisRow(db: L.Db, b: Box, used: set<PollId>, salt: PollId -> nat, now: int, user: UserId,
                 includeClosed: bool, rows: seq<P.Row>, r: P.Row)
    requires RedisHolds(db, b, used, salt, now) && PagingRuns.Lists(rows, db, user) && Flagged(b, now)
    ensures r in rows && r.id in Shown(db, user, includeClosed, now) <==>
              && r.id in b && b[r.id].createdBy == user && (includeClosed || !b[r.id].closed)
              && r.score == CreatedScore(b[r.id].createdAt, salt(r.id))
  {
    if r.id in b {
      assert MetaMatches(db.meta[r.id], b[r.id], now);
      Deadline.Sandwich(now, b[r.id].expiresAt);
      assert (user, r.id) in db.created <==> b[r.id].createdBy == user;
    }
  }

  lemma DistinctMemoryScores(sorted: seq<Poll>, salt: PollId -> nat, kept: seq<P.Row>)
    requires P.DistinctScores(kept) && forall r :: r in M.RowsOf(sorted, salt) ==> r in kept
    requires forall i, j :: 0 <= i < j < |sorted| ==> sorted[i].id != sorted[j].id
    ensures P.DistinctScores(M.RowsOf(sorted, salt))
  {
    M.RowsAt(sorted, salt);
    var rows := M.RowsOf(sorted, salt);
    forall i, j | 0 <= i < j < |rows|
      ensures rows[i].score != rows[j].score
    {
      assert rows[i] in kept && rows[j] in kept;
      var x :| 0 <= x < |kept| && kept[x] == rows[i];
      var y :| 0 <= y < |kept| && kept[y] == rows[j];
    }
  }

  /**
   A full walk through a creator's polls gives the same list from either store, with distinct scores and no expired
   poll left unflagged: all shown polls in descending score, although one store filters before cutting pages and
   the other after.
   */
  lemma ListingsAgree(db: L.Db, m: M.Mem, b: Box, used: set<PollId>, salt: PollId -> nat, now: int, user: UserId,
                      includeClosed: bool, rows: seq<P.Row>, sorted: seq<Poll>, size: nat)
    requires InStep(db, m, b, used, salt, now) && Flagged(b, now) && size >= 1
    requires PagingRuns.Lists(rows, db, user) && P.DistinctScores(rows)
    requires M.SortedListing(m, user, includeClosed, salt, sorted)
    ensures var shown := Shown(db, user, includeClosed, now);
            && P.ServedByRedis(rows, None, size, shown) == P.Keep(rows, shown)
            && P.Walk(M.RowsOf(sorted, salt), None, size) == P.Keep(rows, shown)
  {
    var shown := Shown(db, user, includeClosed, now);
    var kept, listed := P.Keep(rows, shown), M.RowsOf(sorted, salt);
    P.WalksAgree(rows, size, shown);
    P.KeepStaysOrdered(rows, shown);
    M.RowsOrdered(sorted, salt);
    forall r
      ensures r in kept <==> r in listed
    {
      P.KeepMembers(rows, shown, r);
      RedisRow(db, b, used, salt, now, user, includeClosed, rows, r);
      MemoryRow(m, b, user, includeClosed, salt, sorted, r);
    }
    DistinctMemoryScores(sorted, salt, kept);
    OneOrder(listed, kept);
    P.WalkIsComplete(listed, None, size);
    P.BelowNothing(listed);
  }

  // ---------- The memory store's count entries ----------

  /** Entries only for options somebody chose. */
  predicate Sparse(p: Poll) {
    forall o :: o in p.votes ==> p.votes[o] > 0
  }

  predicate AllSparse(m: M.Mem) {
    forall id :: id in m.polls ==> Sparse(m.polls[id])
  }

  /** Polls created with no entries never get an entry of zero: an entry goes exactly when its count reaches zero. */
  lemma SparseKept(m: M.Mem, op: Op, now: int)
    requires AllSparse(m) && (op.Create? ==> op.poll.votes == map[])
    ensures AllSparse(OnMemory(m, op, now).1)
  {
    var n := OnMemory(m, op, now).1;
    forall id | id in n.polls
      ensures Sparse(n.polls[id])
    {
      if id in m.polls {
        assert Sparse(m.polls[id]);
      }
    }
  }

  /** In the memory store too an undo takes back a vote: counts and votes are what they were. */
  lemma MemoryUndoInvertsVote(m: M.Mem, id: PollId, user: UserId, option: string, now: int, later: int)
    requires AllSparse(m) && M.Vote(m, id, user, option, now).0 == OK
    ensures var n := M.Vote(m, id, user, option, now).1;
            var r := M.Undo(n, id, user, later);
            && (r.0 == OK <==> !M.Shut(m.polls[id], later))
            && (r.0 == OK ==> r.1.polls[id].votes == m.polls[id].votes && M.VotesOn(r.1, id) == M.VotesOn(m, id))
  {
    var p := m.polls[id];
    assert Sparse(p);
    var q := M.Counted(p, user, option);
    assert option in p.votes ==> p.votes[option] > 0;
    assert M.Uncounted(q, user, option).votes == p.votes;
    assert M.VotesOn(m, id)[user := option] - {user} == M.VotesOn(m, id);
  }
}
