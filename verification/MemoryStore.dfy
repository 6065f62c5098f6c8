/**
 The in-memory store (internal/store/memory/memory.go): three maps updated in place under a lock, so that each
 method is one atomic step. The methods are proved against functions on the maps' values.
 */
module MemoryStore {
  import opened Common
  import DoublePaging
  import Paging
  import Score

  datatype Mem = Mem(
    polls: map<PollId, Poll>,
    votes: map<PollId, map<UserId, string>>,
    created: map<UserId, set<PollId>>)

  const EMPTY_MEM := Mem(map[], map[], map[])

  function VotesOn(m: Mem, id: PollId): map<UserId, string> {
    if id in m.votes then m.votes[id] else map[]
  }

  function CreatedBy(m: Mem, user: UserId): set<PollId> {
    if user in m.created then m.created[user] else {}
  }

  /** A missing count is zero. */
  function CountOf(p: Poll, option: string): int {
    if option in p.votes then p.votes[option] else 0
  }

  predicate Shut(p: Poll, now: int) {
    p.isClosed || now > p.expiresAt
  }

  function Create(m: Mem, p: Poll): Mem {
    m.(polls := m.polls[p.id := p], created := m.created[p.createdBy := CreatedBy(m, p.createdBy) + {p.id}])
  }

  /** No ownership check; an expired poll is flagged closed without a new `updatedBy`. */
  function Close(m: Mem, id: PollId, user: UserId, now: int): (Code, Mem) {
    if id !in m.polls then (NotFound, m)
    else
      var p := m.polls[id];
      var q := if Shut(p, now) then p.(isClosed := true) else p.(isClosed := true, updatedBy := user);
      (OK, m.(polls := m.polls[id := q]))
  }

  function Delete(m: Mem, id: PollId): (Code, Mem) {
    if id !in m.polls then (NotFound, m)
    else
      var owner := m.polls[id].createdBy;
      (OK, Mem(m.polls - {id}, m.votes - {id},
               if owner in m.created then m.created[owner := m.created[owner] - {id}] else m.created))
  }

  /** The poll after one more vote for an option. */
  function Counted(p: Poll, user: UserId, option: string): Poll {
    p.(votes := p.votes[option := CountOf(p, option) + 1], updatedBy := user)
  }

  /** The inner map comes into being before the vote is known to be good. */
  function Vote(m: Mem, id: PollId, user: UserId, option: string, now: int): (Code, Mem) {
    if id !in m.polls then (NotFound, m)
    else if Shut(m.polls[id], now) then (Forbidden, m)
    else
      var n := m.(votes := m.votes[id := VotesOn(m, id)]);
      if user in VotesOn(m, id) then (Conflict, n)
      else if option !in m.polls[id].options then (Invalid, n)
      else
        (OK, m.(votes := m.votes[id := VotesOn(m, id)[user := option]],
                polls := m.polls[id := Counted(m.polls[id], user, option)]))
  }

  /** The poll after one vote less for an option; a count that reaches zero loses its entry. */
  function Uncounted(p: Poll, user: UserId, option: string): Poll {
    var n := CountOf(p, option) - 1;
    p.(votes := if n <= 0 then p.votes - {option} else p.votes[option := n], updatedBy := user)
  }

  function Undo(m: Mem, id: PollId, user: UserId, now: int): (Code, Mem) {
    if id !in m.polls then (NotFound, m)
    else if Shut(m.polls[id], now) then (Forbidden, m)
    else if user !in VotesOn(m, id) then (Conflict, m)
    else
      var option := VotesOn(m, id)[user];
      (OK, m.(votes := m.votes[id := VotesOn(m, id) - {user}],
              polls := m.polls[id := Uncounted(m.polls[id], user, option)]))
  }

  datatype MyVote = MyVote(pollId: PollId, option: string, poll: Poll)

  /** Everything a user voted for on polls that still exist. */
  ghost function MyVotes(m: Mem, user: UserId): set<MyVote> {
    set id | id in m.votes && user in m.votes[id] && id in m.polls :: MyVote(id, m.votes[id][user], m.polls[id])
  }

  /** What is said of a poll and of the user's choice on it is what is stored under its id. */
  predicate VotedFor(m: Mem, user: UserId, v: MyVote) {
    && v.pollId in m.polls && v.poll == m.polls[v.pollId]
    && v.pollId in m.votes && user in m.votes[v.pollId] && v.option == m.votes[v.pollId][user]
  }

  lemma MyVotesAre(m: Mem, user: UserId)
    ensures forall v :: v in MyVotes(m, user) <==> VotedFor(m, user, v)
  {
    forall v
      ensures v in MyVotes(m, user) <==> VotedFor(m, user, v)
    {
      if VotedFor(m, user, v) {
        assert v == MyVote(v.pollId, m.votes[v.pollId][user], m.polls[v.pollId]);
      }
    }
  }

  /** The created polls a listing considers. */
  ghost predicate Listable(m: Mem, user: UserId, includeClosed: bool, id: PollId) {
    id in CreatedBy(m, user) && id in m.polls && (includeClosed || !m.polls[id].isClosed)
  }

  function RowOf(p: Poll, salt: PollId -> nat): Paging.Row {
    Paging.Row(p.id, CreatedScore(p.createdAt, salt(p.id)))
  }

  function RowsOf(polls: seq<Poll>, salt: PollId -> nat): seq<Paging.Row> {
    if polls == [] then [] else [RowOf(polls[0], salt)] + RowsOf(polls[1..], salt)
  }

  lemma {:induction false} RowsAt(polls: seq<Poll>, salt: PollId -> nat)
    ensures |RowsOf(polls, salt)| == |polls|
    ensures forall i :: 0 <= i < |polls| ==> RowsOf(polls, salt)[i] == RowOf(polls[i], salt)
  {
    if polls != [] {
      RowsAt(polls[1..], salt);
    }
  }

  /** In descending order of a key. */
  ghost predicate SortedDown<T>(s: seq<T>, key: T -> int) {
    forall i, j :: 0 <= i < j < |s| ==> key(s[i]) >= key(s[j])
  }

  lemma RowsOrdered(polls: seq<Poll>, salt: PollId -> nat)
    requires SortedDown(polls, (p: Poll) => RowOf(p, salt).score)
    ensures Paging.Descending(RowsOf(polls, salt))
  {
    RowsAt(polls, salt);
    var key := (p: Poll) => RowOf(p, salt).score;
    forall i, j | 0 <= i < j < |polls|
      ensures RowsOf(polls, salt)[i].score >= RowsOf(polls, salt)[j].score
    {
      assert key(polls[i]) >= key(polls[j]);
    }
  }

  /** Polls by second of creation and then by remainder, latest first. */
  predicate NewestFirst(polls: seq<Poll>, salt: PollId -> nat) {
    forall i, j :: 0 <= i < j < |polls| ==>
      NoOlder(polls[i].createdAt, salt(polls[i].id), polls[j].createdAt, salt(polls[j].id))
  }

  ghost predicate Remainders(salt: PollId -> nat) {
    forall id :: salt(id) < 1_000_000
  }

  /** Seconds and remainder in millionths, as a cursor counts them. */
  function Moment(p: Poll, salt: PollId -> nat): int {
    Unix(p.createdAt) * 1_000_000 + salt(p.id)
  }

  /** A page of rows in score order is a page of polls in order of creation, on the older side of its cursor. */
  lemma {:induction false} PageIsNewestFirst(items: seq<Poll>, salt: PollId -> nat, rows: seq<Paging.Row>,
                                             cursor: Option<int>, size: nat)
    requires size >= 1 && Paging.Descending(rows) && Remainders(salt)
    requires RowsOf(items, salt) == Paging.Page(rows, cursor, size).0
    ensures NewestFirst(items, salt)
    ensures forall p :: p in items && cursor.Some? ==> Moment(p, salt) < cursor.value
    ensures var next := Paging.Page(rows, cursor, size).1;
            next.Some? ==> |items| == size && next.value == Moment(items[size - 1], salt)
  {
    RowsAt(items, salt);
    Paging.PageOrdered(rows, cursor, size);
    forall i, j | 0 <= i < j < |items|
      ensures NoOlder(items[i].createdAt, salt(items[i].id), items[j].createdAt, salt(items[j].id))
    {
      assert items[i] in items && items[j] in items;
      assert RowsOf(items, salt)[i].score >= RowsOf(items, salt)[j].score;
      ScoreOrders(items[i].createdAt, salt(items[i].id), items[j].createdAt, salt(items[j].id));
    }
    forall p | p in items && cursor.Some?
      ensures Moment(p, salt) < cursor.value
    {
      var i :| 0 <= i < |items| && items[i] == p;
      assert RowsOf(items, salt)[i] in RowsOf(items, salt);
    }
  }

  /** What a listing has to serve after a cursor: the listable polls created before the moment it stands for. */
  ghost function Older(m: Mem, user: UserId, includeClosed: bool, cursor: Option<int>, salt: PollId -> nat)
    : set<PollId>
  {
    set id | id in m.polls && Listable(m, user, includeClosed, id)
             && (cursor.Some? ==> Moment(m.polls[id], salt) < cursor.value)
  }

  /** The polls asked for at once: as many as the limit says from one to a hundred, and fifty otherwise. */
  ghost predicate Cut(served: nat, all: nat, limit: int) {
    served == if 1 <= limit <= 100 then (if all < limit then all else limit) else if all < 50 then all else 50
  }

  /** The filtered list in the order of its scores. */
  ghost predicate SortedListing(m: Mem, user: UserId, includeClosed: bool, salt: PollId -> nat, sorted: seq<Poll>) {
    && SortedDown(sorted, (p: Poll) => RowOf(p, salt).score)
    && (forall p :: p in sorted <==> p.id in m.polls && m.polls[p.id] == p && Listable(m, user, includeClosed, p.id))
    && (forall i, j :: 0 <= i < j < |sorted| ==> sorted[i].id != sorted[j].id)
  }

  lemma SortedRows(m: Mem, user: UserId, includeClosed: bool, salt: PollId -> nat, sorted: seq<Poll>)
    requires SortedListing(m, user, includeClosed, salt, sorted) && forall id :: id in m.polls ==> m.polls[id].id == id
    ensures Paging.Descending(RowsOf(sorted, salt)) && Paging.DistinctIds(RowsOf(sorted, salt))
    ensures forall r :: r in RowsOf(sorted, salt) <==>
              r.id in m.polls && Listable(m, user, includeClosed, r.id) && r == RowOf(m.polls[r.id], salt)
  {
    RowsOrdered(sorted, salt);
    RowsAt(sorted, salt);
    var rows := RowsOf(sorted, salt);
    forall r
      ensures r in rows <==>
                r.id in m.polls && Listable(m, user, includeClosed, r.id) && r == RowOf(m.polls[r.id], salt)
    {
      if r in rows {
        var i :| 0 <= i < |rows| && rows[i] == r;
        assert sorted[i] in sorted;
      }
      if r.id in m.polls && Listable(m, user, includeClosed, r.id) && r == RowOf(m.polls[r.id], salt) {
        assert m.polls[r.id] in sorted;
        var i :| 0 <= i < |sorted| && sorted[i] == m.polls[r.id];
        assert rows[i] == r;
      }
    }
  }

  /** The rows under a cursor are the older polls, each once. */
  lemma BelowIsOlder(m: Mem, user: UserId, includeClosed: bool, cursor: Option<int>, salt: PollId -> nat,
                     sorted: seq<Poll>)
    requires SortedListing(m, user, includeClosed, salt, sorted) && forall id :: id in m.polls ==> m.polls[id].id == id
    ensures var below := Paging.Below(RowsOf(sorted, salt), cursor);
            && (set r | r in below :: r.id) == Older(m, user, includeClosed, cursor, salt)
            && |below| == |Older(m, user, includeClosed, cursor, salt)|
  {
    SortedRows(m, user, includeClosed, salt, sorted);
    var rows := RowsOf(sorted, salt);
    var below := Paging.Below(rows, cursor);
    forall r
      ensures r in below <==> r in rows && Paging.Under(r.score, cursor)
    {
      Paging.BelowMembers(rows, cursor, r);
    }
    forall id
      ensures id in Older(m, user, includeClosed, cursor, salt) <==> id in set r | r in below :: r.id
    {
      if id in Older(m, user, includeClosed, cursor, salt) {
        assert RowOf(m.polls[id], salt) in below;
      }
    }
    Paging.DistinctBelow(rows, cursor);
    Paging.AsManyIds(below);
  }

  /**
   A page of a listing: of the older polls the most recent, as many as asked for, the most recent first.
   */
  ghost predicate Serves(items: seq<Poll>, older: set<PollId>, limit: int, m: Mem, salt: PollId -> nat) {
    && (forall p :: p in items ==> p.id in older && p.id in m.polls && m.polls[p.id] == p)
    && NewestFirst(items, salt) && Cut(|items|, |older|, limit)
    && forall p, id :: p in items && id in older && id in m.polls && m.polls[id] !in items ==>
         NoOlder(p.createdAt, salt(p.id), m.polls[id].createdAt, salt(id))
  }

  /** A cursor is handed out exactly when some of them are left over: the moment of the last poll served. */
  ghost predicate Points(next: Option<int>, items: seq<Poll>, older: set<PollId>, salt: PollId -> nat) {
    && (next.Some? <==> |items| < |older|)
    && (next.Some? ==> items != [] && next.value == Moment(items[|items| - 1], salt))
  }

  lemma {:induction false} LeftOverIsOlder(rows: seq<Paging.Row>, cursor: Option<int>, size: nat, r: Paging.Row,
                                           q: Paging.Row)
    requires size >= 1 && Paging.Descending(rows)
    requires r in Paging.Page(rows, cursor, size).0 && q in Paging.Below(rows, cursor)
    requires q !in Paging.Page(rows, cursor, size).0
    ensures r.score >= q.score
  {
    Paging.BelowMembers(rows, cursor, q);
    Paging.PageAbove(rows, cursor, size, r);
    var last := Paging.PageLeaves(rows, cursor, size, q);
  }

  lemma {:induction false} LeftOverPoll(m: Mem, user: UserId, includeClosed: bool, cursor: Option<int>, size: nat,
                                        salt: PollId -> nat, sorted: seq<Poll>, items: seq<Poll>, p: Poll, id: PollId)
    requires SortedListing(m, user, includeClosed, salt, sorted) && forall id :: id in m.polls ==> m.polls[id].id == id
    requires size >= 1 && Remainders(salt) && p in items && forall p :: p in items ==> p in sorted
    requires RowsOf(items, salt) == Paging.Page(RowsOf(sorted, salt), cursor, size).0
    requires id in Older(m, user, includeClosed, cursor, salt) && m.polls[id] !in items
    ensures NoOlder(p.createdAt, salt(p.id), m.polls[id].createdAt, salt(id))
  {
    var rows := RowsOf(sorted, salt);
    var r, q := RowOf(p, salt), RowOf(m.polls[id], salt);
    SortedRows(m, user, includeClosed, salt, sorted);
    RowsAt(items, salt);
    var i :| 0 <= i < |items| && items[i] == p;
    assert RowsOf(items, salt)[i] == r;
    Paging.BelowMembers(rows, cursor, q);
    forall k | 0 <= k < |items|
      ensures RowsOf(items, salt)[k] != q
    {
      assert items[k] in sorted;
    }
    LeftOverIsOlder(rows, cursor, size, r, q);
    ScoreOrders(p.createdAt, salt(p.id), m.polls[id].createdAt, salt(id));
  }

  /** A page of the sorted rows is what a listing has to serve. */
  lemma {:induction false} PageServes(m: Mem, user: UserId, includeClosed: bool, cursor: Option<int>, limit: int,
                                      salt: PollId -> nat, sorted: seq<Poll>, items: seq<Poll>)
    requires SortedListing(m, user, includeClosed, salt, sorted) && forall id :: id in m.polls ==> m.polls[id].id == id
    requires Remainders(salt) && forall p :: p in items ==> p in sorted
    requires RowsOf(items, salt) == Paging.Page(RowsOf(sorted, salt), cursor, Paging.PageSize(limit)).0
    ensures var older := Older(m, user, includeClosed, cursor, salt);
            && Serves(items, older, limit, m, salt)
            && Points(Paging.Page(RowsOf(sorted, salt), cursor, Paging.PageSize(limit)).1, items, older, salt)
  {
    var size, older := Paging.PageSize(limit), Older(m, user, includeClosed, cursor, salt);
    BelowIsOlder(m, user, includeClosed, cursor, salt, sorted);
    RowsOrdered(sorted, salt);
    PageIsNewestFirst(items, salt, RowsOf(sorted, salt), cursor, size);
    RowsAt(items, salt);
    forall p, id | p in items && id in older && id in m.polls && m.polls[id] !in items
      ensures NoOlder(p.createdAt, salt(p.id), m.polls[id].createdAt, salt(id))
    {
      LeftOverPoll(m, user, includeClosed, cursor, size, salt, sorted, items, p, id);
    }
  }

  /** Where an element goes: behind everything not below it. */
  method Position<T>(r: seq<T>, x: T, key: T -> int) returns (k: nat)
    ensures k <= |r|
    ensures forall j :: 0 <= j < k ==> key(r[j]) >= key(x)
    ensures k < |r| ==> key(r[k]) < key(x)
  {
    k := 0;
    while k < |r| && key(r[k]) >= key(x)
      invariant 0 <= k <= |r|
      invariant forall j :: 0 <= j < k ==> key(r[j]) >= key(x)
    {
      k := k + 1;
    }
  }

  /** Stands for the library's sort, whose order among equal keys is unspecified. */
  method SortDescending<T>(s: seq<T>, key: T -> int) returns (r: seq<T>)
    ensures SortedDown(r, key)
    ensures multiset(r) == multiset(s)
  {
    r := [];
    var i := 0;
    while i < |s|
      invariant 0 <= i <= |s|
      invariant SortedDown(r, key)
      invariant multiset(r) == multiset(s[..i])
    {
      var k := Position(r, s[i], key);
      InsertKeepsOrder(r, k, s[i], key);
      InsertKeepsElements(r, k, s, i);
      r := r[..k] + [s[i]] + r[k..];
      i := i + 1;
    }
    assert s[..|s|] == s;
  }

  /** What is cut off comes after what is kept. */
  lemma FirstComeFirst<T>(s: seq<T>, n: nat, key: T -> int)
    requires SortedDown(s, key) && n <= |s|
    ensures forall v, w :: v in s[..n] && w in s && w !in s[..n] ==> key(v) >= key(w)
  {
    forall v, w | v in s[..n] && w in s && w !in s[..n]
      ensures key(v) >= key(w)
    {
      var i :| 0 <= i < n && s[i] == v;
      assert s == s[..n] + s[n..];
      var j :| 0 <= j < |s[n..]| && s[n..][j] == w;
    }
  }

  lemma InsertKeepsOrder<T>(r: seq<T>, k: nat, x: T, key: T -> int)
    requires k <= |r| && SortedDown(r, key)
    requires forall j :: 0 <= j < k ==> key(r[j]) >= key(x)
    requires k < |r| ==> key(r[k]) < key(x)
    ensures SortedDown(r[..k] + [x] + r[k..], key)
  {
  }

  lemma InsertKeepsElements<T>(r: seq<T>, k: nat, s: seq<T>, i: nat)
    requires k <= |r| && i < |s| && multiset(r) == multiset(s[..i])
    ensures multiset(r[..k] + [s[i]] + r[k..]) == multiset(s[..i + 1])
  {
    assert r == r[..k] + r[k..];
    assert s[..i + 1] == s[..i] + [s[i]];
  }

  class Store {
    var polls: map<PollId, Poll>
    var votes: map<PollId, map<UserId, string>>
    var created: map<UserId, set<PollId>>

    ghost function Value(): Mem
      reads this
    {
      Mem(polls, votes, created)
    }

    constructor ()
      ensures Value() == EMPTY_MEM
    {
      polls := map[];
      votes := map[];
      created := map[];
    }

    method CreatePoll(p: Poll) returns (r: Poll)
      modifies this
      ensures Value() == Create(old(Value()), p) && r == p
    {
      polls := polls[p.id := p];
      if p.createdBy !in created {
        created := created[p.createdBy := {}];
      }
      created := created[p.createdBy := created[p.createdBy] + {p.id}];
      r := p;
    }

    method GetPoll(id: PollId) returns (p: Option<Poll>)
      ensures p == if id in polls then Some(polls[id]) else None
    {
      p := if id in polls then Some(polls[id]) else None;
    }

    method ClosePoll(id: PollId, user: UserId, now: int) returns (code: Code, p: Option<Poll>)
      modifies this
      ensures (code, Value()) == Close(old(Value()), id, user, now)
      ensures p == if code == OK then Some(polls[id]) else None
    {
      if id !in polls {
        return NotFound, None;
      }
      var q := polls[id];
      if q.isClosed || now > q.expiresAt {
        q := q.(isClosed := true);
        polls := polls[id := q];
        return OK, Some(q);
      }
      q := q.(isClosed := true);
      q := q.(updatedBy := user);
      polls := polls[id := q];
      return OK, Some(q);
    }

    method DeletePoll(id: PollId) returns (code: Code)
      modifies this
      ensures (code, Value()) == Delete(old(Value()), id)
    {
      if id !in polls {
        return NotFound;
      }
      var owner := polls[id].createdBy;
      polls := polls - {id};
      votes := votes - {id};
      if owner in created {
        created := created[owner := created[owner] - {id}];
      }
      return OK;
    }

    method VoteFor(id: PollId, user: UserId, option: string, now: int) returns (code: Code, r: Option<Poll>)
      modifies this
      ensures (code, Value()) == Vote(old(Value()), id, user, option, now)
      ensures r == if code == OK then Some(polls[id]) else None
    {
      if id !in polls {
        return NotFound, None;
      }
      var p := polls[id];
      if p.isClosed || now > p.expiresAt {
        return Forbidden, None;
      }
      if id !in votes {
        votes := votes[id := map[]];
      }
      assert votes == old(votes)[id := VotesOn(old(Value()), id)];
      if user in votes[id] {
        return Conflict, None;
      }
      var valid := false;
      var i := 0;
      while i < |p.options| && !valid
        invariant 0 <= i <= |p.options|
        invariant valid <==> option in p.options[..i]
      {
        valid := p.options[i] == option;
        i := i + 1;
      }
      if !valid {
        return Invalid, None;
      }
      votes := votes[id := votes[id][user := option]];
      p := p.(votes := p.votes[option := (if option in p.votes then p.votes[option] else 0) + 1]);
      p := p.(updatedBy := user);
      polls := polls[id := p];
      assert votes == old(votes)[id := VotesOn(old(Value()), id)[user := option]];
      return OK, Some(p);
    }

    method UndoVote(id: PollId, user: UserId, now: int) returns (code: Code, r: Option<Poll>)
      modifies this
      ensures (code, Value()) == Undo(old(Value()), id, user, now)
      ensures r == if code == OK then Some(polls[id]) else None
    {
      if id !in polls {
        return NotFound, None;
      }
      var p := polls[id];
      if p.isClosed || now > p.expiresAt {
        return Forbidden, None;
      }
      if id !in votes || user !in votes[id] {
        return Conflict, None;
      }
      var option := votes[id][user];
      votes := votes[id := votes[id] - {user}];
      var n := (if option in p.votes then p.votes[option] else 0) - 1;
      p := p.(votes := p.votes[option := n]);
      if n <= 0 {
        p := p.(votes := p.votes - {option});
      }
      p := p.(updatedBy := user);
      polls := polls[id := p];
      assert n <= 0 ==> p.votes == old(polls)[id].votes - {option};
      return OK, Some(p);
    }

    /**
     The user's votes on existing polls, newest poll first, cut to the limit: `all` is the list before the cut.
     */
    method GetMyVotes(user: UserId, limit: int) returns (out: seq<MyVote>, ghost all: seq<MyVote>)
      ensures SortedDown(all, (v: MyVote) => v.poll.createdAt)
      ensures (set v | v in all) == MyVotes(Value(), user)
      ensures |all| == |MyVotes(Value(), user)|
      ensures out == if |all| > Paging.PageSize(limit) then all[..Paging.PageSize(limit)] else all
      ensures Cut(|out|, |MyVotes(Value(), user)|, limit)
      ensures forall v :: v in out ==> v in MyVotes(Value(), user) && VotedFor(Value(), user, v)
      ensures forall v, w :: v in out && w in MyVotes(Value(), user) && w !in out ==>
                v.poll.createdAt >= w.poll.createdAt
    {
      var found: seq<MyVote> := [];
      var left := votes.Keys;
      ghost var seen: set<PollId> := {};
      while left != {}
        invariant left + seen == votes.Keys && left !! seen
        invariant forall v :: v in found <==> v in MyVotes(Value(), user) && v.pollId in seen
        invariant forall v :: v in found ==> v.pollId in seen
        invariant |found| == |set v | v in found|
        decreases left
      {
        var id :| id in left;
        left := left - {id};
        if user in votes[id] && id in polls {
          var v := MyVote(id, votes[id][user], polls[id]);
          AppendNew(found, v);
          found := found + [v];
        }
        seen := seen + {id};
      }
      var sorted := SortDescending(found, (v: MyVote) => v.poll.createdAt);
      SameElements(found, sorted);
      all := sorted;
      assert (set v | v in all) == MyVotes(Value(), user);
      out := if |sorted| > Paging.PageSize(limit) then sorted[..Paging.PageSize(limit)] else sorted;
      FirstComeFirst(sorted, |out|, (v: MyVote) => v.poll.createdAt);
      MyVotesAre(Value(), user);
    }

    /** The creator's existing polls, closed ones only if asked for, each once and in no particular order. */
    method FilterCreated(user: UserId, includeClosed: bool) returns (out: seq<Poll>)
      requires forall id :: id in polls ==> polls[id].id == id
      ensures forall p :: p in out <==>
                p.id in polls && polls[p.id] == p && Listable(Value(), user, includeClosed, p.id)
      ensures |out| == |set p | p in out|
    {
      out := [];
      var left := if user in created then created[user] else {};
      ghost var seen: set<PollId> := {};
      while left != {}
        invariant left + seen == CreatedBy(Value(), user) && left !! seen
        invariant forall p :: p in out <==>
                    p.id in seen && p.id in polls && polls[p.id] == p && (includeClosed || !p.isClosed)
        invariant |out| == |set p | p in out|
        decreases left
      {
        var id :| id in left;
        left := left - {id};
        if id in polls && (includeClosed || !polls[id].isClosed) {
          AppendNew(out, polls[id]);
          out := out + [polls[id]];
        }
        seen := seen + {id};
      }
    }

    /**
     One page of a creator's polls: filter, sort by score, drop what is not below the cursor, cut. `sorted` is the
     filtered list in the order the sort happened to give it.
     */
    method CreatedPage(user: UserId, includeClosed: bool, limit: int, cursor: Option<int>, salt: PollId -> nat)
      returns (items: seq<Poll>, next: Option<int>, ghost sorted: seq<Poll>)
      requires Remainders(salt) && forall id :: id in polls ==> polls[id].id == id
      ensures SortedListing(Value(), user, includeClosed, salt, sorted)
      ensures (RowsOf(items, salt), next) == Paging.Page(RowsOf(sorted, salt), cursor, Paging.PageSize(limit))
      ensures var older := Older(Value(), user, includeClosed, cursor, salt);
              Serves(items, older, limit, Value(), salt) && Points(next, items, older, salt)
    {
      var out := FilterCreated(user, includeClosed);
      var ordered := SortDescending(out, (p: Poll) => RowOf(p, salt).score);
      SameElements(out, ordered);
      sorted := ordered;
      OncePerId(sorted, polls);
      var filtered := DropAbove(ordered, cursor, salt);
      RowsAt(filtered, salt);
      var size := Paging.PageSize(limit);
      next := None;
      items := filtered;
      if |filtered| > size {
        next := Some(CreatedScore(filtered[size - 1].createdAt, salt(filtered[size - 1].id)));
        items := filtered[..size];
        FirstRows(filtered, size, salt);
      }
      PageServes(Value(), user, includeClosed, cursor, limit, salt, sorted, items);
    }

    /**
     The listing with cursors as text: no text, and text that is no number, mean the first page; the text handed out is
     the last score with six decimals. `parse` says at which millionth a text cuts; module DoublePaging justifies it.
     */
    method ListMyCreatedPollStats(user: UserId, includeClosed: bool, limit: int, cursor: string,
                                  parse: string -> Option<int>, salt: PollId -> nat)
      returns (items: seq<Poll>, next: string, ghost sorted: seq<Poll>)
      requires Remainders(salt) && forall id :: id in polls ==> polls[id].id == id
      ensures SortedListing(Value(), user, includeClosed, salt, sorted)
      ensures var (page, after) := Paging.Page(RowsOf(sorted, salt), DoublePaging.ReadBack(cursor, parse),
                                               Paging.PageSize(limit));
              RowsOf(items, salt) == page && next == DoublePaging.TextOf(after)
      ensures var older := Older(Value(), user, includeClosed, DoublePaging.ReadBack(cursor, parse), salt);
              && Serves(items, older, limit, Value(), salt)
              && (next != "" <==> |items| < |older|)
              && (next != "" ==> items != [] && next == Score.SignedText(Moment(items[|items| - 1], salt)))
    {
      var cut: Option<int> := None;
      if cursor != "" {
        cut := parse(cursor);
      }
      var after: Option<int>;
      items, after, sorted := CreatedPage(user, includeClosed, limit, cut, salt);
      next := "";
      if after.Some? {
        next := Score.SignedText(after.value);
      }
    }
  }

  /** The loop that keeps only polls strictly below the cursor. */
  method DropAbove(rows: seq<Poll>, cursor: Option<int>, salt: PollId -> nat) returns (filtered: seq<Poll>)
    ensures RowsOf(filtered, salt) == Paging.Below(RowsOf(rows, salt), cursor)
    ensures forall p :: p in filtered ==> p in rows
  {
    filtered := [];
    var i := 0;
    while i < |rows|
      invariant 0 <= i <= |rows|
      invariant RowsOf(filtered, salt) == Paging.Below(RowsOf(rows[..i], salt), cursor)
      invariant forall p :: p in filtered ==> p in rows
    {
      var score := CreatedScore(rows[i].createdAt, salt(rows[i].id));
      assert rows[..i + 1] == rows[..i] + [rows[i]];
      RowsAppend(rows[..i], rows[i], salt);
      BelowAppend(RowsOf(rows[..i], salt), RowOf(rows[i], salt), cursor);
      if !(cursor.Some? && score >= cursor.value) {
        RowsAppend(filtered, rows[i], salt);
        filtered := filtered + [rows[i]];
      }
      i := i + 1;
    }
    assert rows[..|rows|] == rows;
  }

  lemma {:induction false} BelowAppend(rows: seq<Paging.Row>, r: Paging.Row, cursor: Option<int>)
    ensures Paging.Below(rows + [r], cursor)
         == Paging.Below(rows, cursor) + if Paging.Under(r.score, cursor) then [r] else []
  {
    if rows == [] {
      assert rows + [r] == [r];
    } else {
      assert (rows + [r])[1..] == rows[1..] + [r];
      BelowAppend(rows[1..], r, cursor);
    }
  }

  lemma {:induction false} RowsAppend(polls: seq<Poll>, p: Poll, salt: PollId -> nat)
    ensures RowsOf(polls + [p], salt) == RowsOf(polls, salt) + [RowOf(p, salt)]
  {
    if polls == [] {
      assert polls + [p] == [p];
    } else {
      assert (polls + [p])[1..] == polls[1..] + [p];
      RowsAppend(polls[1..], p, salt);
    }
  }

  lemma FirstRows(polls: seq<Poll>, n: nat, salt: PollId -> nat)
    requires n <= |polls|
    ensures |RowsOf(polls, salt)| == |polls| && RowsOf(polls[..n], salt) == RowsOf(polls, salt)[..n]
  {
    RowsAt(polls, salt);
    RowsAt(polls[..n], salt);
  }

  lemma AppendNew<T>(s: seq<T>, x: T)
    requires x !in s && |s| == |set v | v in s|
    ensures |s + [x]| == |set v | v in s + [x]|
  {
    assert (set v | v in s + [x]) == (set v | v in s) + {x};
  }

  lemma SameElements<T>(a: seq<T>, b: seq<T>)
    requires multiset(a) == multiset(b)
    ensures forall x :: x in a <==> x in b
    ensures |a| == |b|
    ensures (set x | x in a) == (set x | x in b)
  {
    assert forall x :: x in a <==> x in multiset(a);
    assert forall x :: x in b <==> x in multiset(b);
    assert |a| == |multiset(a)| && |b| == |multiset(b)|;
  }

  /** As many elements as distinct ones: nothing appears twice. */
  lemma {:induction false} NoRepeats<T>(s: seq<T>, i: nat, j: nat)
    requires |s| == |set x | x in s| && i < j < |s|
    ensures s[i] != s[j]
  {
    if s[i] == s[j] {
      var t := s[..j] + s[j + 1..];
      assert forall x :: x in s ==> x in t by {
        forall x | x in s
          ensures x in t
        {
          var k :| 0 <= k < |s| && s[k] == x;
          if k < j {
            assert t[k] == x;
          } else if k > j {
            assert t[k - 1] == x;
          } else {
            assert t[i] == x;
          }
        }
      }
      assert (set x | x in s) <= (set x | x in t);
      CardinalityOfSubset(set x | x in s, set x | x in t);
      DistinctAtMost(t);
    }
  }

  lemma {:induction false} DistinctAtMost<T>(s: seq<T>)
    ensures |set x | x in s| <= |s|
  {
    if s == [] {
      assert (set x | x in s) == {};
    } else {
      DistinctAtMost(s[1..]);
      assert (set x | x in s) == {s[0]} + set x | x in s[1..];
    }
  }

  lemma OncePerId(s: seq<Poll>, polls: map<PollId, Poll>)
    requires |s| == |set x | x in s|
    requires forall p :: p in s ==> p.id in polls && polls[p.id] == p
    ensures forall i, j :: 0 <= i < j < |s| ==> s[i].id != s[j].id
  {
    forall i, j | 0 <= i < j < |s|
      ensures s[i].id != s[j].id
    {
      NoRepeats(s, i, j);
      assert polls[s[i].id] == s[i] && polls[s[j].id] == s[j];
    }
  }
}
