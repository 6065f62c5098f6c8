/**
 The service layer's part in creating a poll and casting a vote (internal/service/service.go:37-88, 131-150): texts
 are trimmed, options cleaned, requests refused before any store is asked. Every option a poll is accepted with can
 be voted for by the text it was entered as, in either store and at any later time.
 */
module Service {
  import opened Common
  import Ledger
  import Protocol
  import Invariants
  import Keys
  import M = MemoryStore
  import Ballot
  import Equivalence

  // ---------- Trimming ----------

  /** The white space of strings.TrimSpace. */
  predicate IsSpace(c: char) {
    || '\t' <= c <= '\r' || c == ' ' || c == '\U{85}' || c == '\U{A0}' || c == '\U{1680}'
    || '\U{2000}' <= c <= '\U{200A}' || c == '\U{2028}' || c == '\U{2029}' || c == '\U{202F}' || c == '\U{205F}'
    || c == '\U{3000}'
  }

  /** One by one: tab to carriage return, space, next line, no-break space, ogham, the quads, and five more. */
  const SPACES := "\t\n\U{0B}\U{0C}\r \U{85}\U{A0}\U{1680}\U{2000}\U{2001}\U{2002}\U{2003}\U{2004}\U{2005}"
    + "\U{2006}\U{2007}\U{2008}\U{2009}\U{200A}\U{2028}\U{2029}\U{202F}\U{205F}\U{3000}"

  /** The 25 characters of Unicode's White_Space property. */
  lemma SpacesAre(c: char)
    ensures IsSpace(c) <==> c in SPACES
    ensures |SPACES| == 25 && forall i, j :: 0 <= i < j < 25 ==> SPACES[i] < SPACES[j]
  {
  }

  function TrimLeft(s: string): string {
    if s != "" && IsSpace(s[0]) then TrimLeft(s[1..]) else s
  }

  function TrimRight(s: string): string {
    if s != "" && IsSpace(s[|s| - 1]) then TrimRight(s[..|s| - 1]) else s
  }

  function TrimSpace(s: string): string {
    TrimRight(TrimLeft(s))
  }

  predicate Blank(s: string) {
    forall i :: 0 <= i < |s| ==> IsSpace(s[i])
  }

  /** No space at either end. */
  predicate Bare(s: string) {
    s == "" || (!IsSpace(s[0]) && !IsSpace(s[|s| - 1]))
  }

  lemma {:induction false} TrimLeftDrops(a: string, s: string)
    requires Blank(a) && (s == "" || !IsSpace(s[0]))
    ensures TrimLeft(a + s) == s
  {
    if a == "" {
      assert a + s == s;
    } else {
      assert (a + s)[0] == a[0] && (a + s)[1..] == a[1..] + s;
      TrimLeftDrops(a[1..], s);
    }
  }

  lemma {:induction false} TrimRightDrops(s: string, b: string)
    requires Blank(b) && (s == "" || !IsSpace(s[|s| - 1]))
    ensures TrimRight(s + b) == s
  {
    if b == "" {
      assert s + b == s;
    } else {
      var n := |b| - 1;
      assert (s + b)[|s + b| - 1] == b[n] && (s + b)[..|s + b| - 1] == s + b[..n];
      TrimRightDrops(s, b[..n]);
    }
  }

  /** Trimming removes exactly the spaces around a text. */
  lemma TrimOf(a: string, t: string, b: string)
    requires Blank(a) && Bare(t) && Blank(b)
    ensures TrimSpace(a + t + b) == t
  {
    if t == "" {
      assert a + t + b == (a + b) + "";
      TrimLeftDrops(a + b, "");
    } else {
      assert a + t + b == a + (t + b);
      TrimLeftDrops(a, t + b);
      TrimRightDrops(t, b);
    }
  }

  lemma {:induction false} LeftParts(s: string) returns (a: string)
    ensures Blank(a) && s == a + TrimLeft(s)
    ensures TrimLeft(s) == "" || !IsSpace(TrimLeft(s)[0])
  {
    if s != "" && IsSpace(s[0]) {
      var rest := LeftParts(s[1..]);
      a := [s[0]] + rest;
    } else {
      a := "";
    }
  }

  lemma {:induction false} RightParts(s: string) returns (b: string)
    ensures Blank(b) && s == TrimRight(s) + b
    ensures TrimRight(s) == "" || !IsSpace(TrimRight(s)[|TrimRight(s)| - 1])
  {
    if s != "" && IsSpace(s[|s| - 1]) {
      var rest := RightParts(s[..|s| - 1]);
      b := rest + [s[|s| - 1]];
    } else {
      b := "";
    }
  }

  /** Every text is its trimmed form between spaces. */
  lemma TrimParts(s: string) returns (a: string, b: string)
    ensures Blank(a) && Blank(b) && Bare(TrimSpace(s)) && s == a + TrimSpace(s) + b
  {
    a := LeftParts(s);
    var l := TrimLeft(s);
    b := RightParts(l);
    if TrimSpace(s) != "" {
      assert l[0] == TrimSpace(s)[0];
    }
  }

  /** Nothing is left of a text exactly if it is all white space. */
  lemma BlankIff(s: string)
    ensures TrimSpace(s) == "" <==> Blank(s)
  {
    var a, b := TrimParts(s);
    if Blank(s) {
      TrimOf(s, "", "");
      assert s + "" + "" == s;
    }
  }

  // ---------- Options ----------

  /** The options the first n entries stand for: trimmed, blank ones skipped. */
  function Options(raw: seq<string>, n: nat): seq<string>
    requires n <= |raw|
  {
    if n == 0 then []
    else Options(raw, n - 1) + if TrimSpace(raw[n - 1]) == "" then [] else [TrimSpace(raw[n - 1])]
  }

  function NonBlank(raw: seq<string>): seq<string> {
    Options(raw, |raw|)
  }

  /** Entries that differ once trimmed, blank ones apart. */
  predicate EntriesDiffer(raw: seq<string>) {
    forall i, j :: 0 <= i < j < |raw| && TrimSpace(raw[i]) != "" ==> TrimSpace(raw[i]) != TrimSpace(raw[j])
  }

  /** Later entries only add options. */
  lemma {:induction false} OptionsGrow(raw: seq<string>, i: nat, n: nat)
    requires i <= n <= |raw|
    ensures Options(raw, i) <= Options(raw, n)
    decreases n
  {
    if i < n {
      OptionsGrow(raw, i, n - 1);
    }
  }

  /** Options keep the order of their entries: each stands right after those of the entries before it. */
  lemma StoredInOrder(raw: seq<string>, i: nat, n: nat)
    requires i < n <= |raw| && TrimSpace(raw[i]) != ""
    ensures |Options(raw, i)| < |Options(raw, n)|
    ensures Options(raw, n)[|Options(raw, i)|] == TrimSpace(raw[i])
  {
    OptionsGrow(raw, i + 1, n);
    assert Options(raw, i + 1)[|Options(raw, i)|] == TrimSpace(raw[i]);
  }

  /** Every option comes from an entry. */
  lemma {:induction false} Origin(raw: seq<string>, n: nat, k: nat) returns (i: nat)
    requires n <= |raw| && k < |Options(raw, n)|
    ensures i < n && TrimSpace(raw[i]) == Options(raw, n)[k] && TrimSpace(raw[i]) != "" && |Options(raw, i)| == k
    decreases n
  {
    if k < |Options(raw, n - 1)| {
      i := Origin(raw, n - 1, k);
    } else {
      i := n - 1;
    }
  }

  /** Cleaned options are distinct exactly when no two entries trim alike. */
  lemma DistinctIff(raw: seq<string>)
    ensures Ledger.Distinct(NonBlank(raw)) <==> EntriesDiffer(raw)
  {
    var os, n := NonBlank(raw), |raw|;
    if EntriesDiffer(raw) {
      forall j, k | 0 <= j < k < |os| ensures os[j] != os[k] {
        var a := Origin(raw, n, j);
        var b := Origin(raw, n, k);
        if b <= a {
          OptionsGrow(raw, b, a);
        }
      }
    }
    if Ledger.Distinct(os) {
      forall i, j | 0 <= i < j < n && TrimSpace(raw[i]) != "" ensures TrimSpace(raw[i]) != TrimSpace(raw[j]) {
        StoredInOrder(raw, i, n);
        if TrimSpace(raw[j]) != "" {
          StoredInOrder(raw, j, n);
          StoredInOrder(raw, i, j);
        }
      }
    }
  }

  /** At least three options are stored exactly if at least three entries are not blank. */
  lemma ThreeIff(raw: seq<string>)
    ensures |NonBlank(raw)| >= 3 <==>
              exists i, j, k :: 0 <= i < j < k < |raw| && !Blank(raw[i]) && !Blank(raw[j]) && !Blank(raw[k])
  {
    var n := |raw|;
    if |NonBlank(raw)| >= 3 {
      var i := Origin(raw, n, 0);
      var j := Origin(raw, n, 1);
      var k := Origin(raw, n, 2);
      OriginsInOrder(raw, i, j);
      OriginsInOrder(raw, j, k);
      BlankIff(raw[i]);
      BlankIff(raw[j]);
      BlankIff(raw[k]);
    }
    forall i, j, k | 0 <= i < j < k < n && !Blank(raw[i]) && !Blank(raw[j]) && !Blank(raw[k])
      ensures |NonBlank(raw)| >= 3
    {
      BlankIff(raw[i]);
      BlankIff(raw[j]);
      BlankIff(raw[k]);
      StoredInOrder(raw, i, j);
      StoredInOrder(raw, j, k);
      StoredInOrder(raw, k, n);
    }
  }

  /** Fewer options come before an earlier entry. */
  lemma OriginsInOrder(raw: seq<string>, i: nat, j: nat)
    requires i < |raw| && j < |raw| && |Options(raw, i)| < |Options(raw, j)|
    ensures i < j
  {
    if j <= i {
      OptionsGrow(raw, j, i);
    }
  }

  // ---------- Requests ----------

  datatype CreateRequest =
    CreateRequest(userId: string, question: string, options: seq<string>, expiresAt: Option<int>, isPublic: bool)

  datatype VoteRequest = VoteRequest(userId: string, pollId: string, option: string, key: string)

  /** What a handler answers before asking the store: the arguments for it, or a refusal. */
  datatype Reply<+T> = Passed(value: T) | Unauthenticated | Refused

  const SOONEST := 30 * NANOS

  predicate LateEnough(expiresAt: Option<int>, now: int) {
    expiresAt.Some? && expiresAt.value >= now + SOONEST
  }

  /** An entry that trims to an option stored already. */
  lemma Repetition(raw: seq<string>, n: nat)
    requires n < |raw| && TrimSpace(raw[n]) in Options(raw, n)
    ensures !EntriesDiffer(raw)
  {
    var k :| 0 <= k < |Options(raw, n)| && Options(raw, n)[k] == TrimSpace(raw[n]);
    var j := Origin(raw, n, k);
    assert TrimSpace(raw[j]) == TrimSpace(raw[n]);
  }

  /** The loop over the entries: `None` as soon as one repeats an earlier one. */
  method CleanOptions(raw: seq<string>) returns (r: Option<seq<string>>)
    ensures r == if EntriesDiffer(raw) then Some(NonBlank(raw)) else None
  {
    var cleanOpts: seq<string> := [];
    var seen: set<string> := {};
    var n := 0;
    while n < |raw|
      invariant 0 <= n <= |raw|
      invariant cleanOpts == Options(raw, n)
      invariant forall o :: o in seen <==> o in cleanOpts
      invariant Ledger.Distinct(cleanOpts)
    {
      var o := TrimSpace(raw[n]);
      if o == "" {
        n := n + 1;
        continue;
      }
      if o in seen {
        Repetition(raw, n);
        return None;
      }
      seen := seen + {o};
      cleanOpts := cleanOpts + [o];
      n := n + 1;
    }
    DistinctIff(raw);
    return Some(cleanOpts);
  }

  /** What CreatePoll accepts. */
  predicate Acceptable(req: CreateRequest, now: int) {
    && TrimSpace(req.userId) != "" && TrimSpace(req.question) != ""
    && LateEnough(req.expiresAt, now)
    && EntriesDiffer(req.options) && |NonBlank(req.options)| >= 3
  }

  /** The poll an accepted request makes. */
  ghost predicate MadeFrom(p: Poll, req: CreateRequest, id: PollId, createdAt: int) {
    && p.id == id && p.question == req.question && p.options == NonBlank(req.options) && p.votes == map[]
    && p.createdBy == p.updatedBy == TrimSpace(req.userId) && p.createdAt == createdAt
    && Some(p.expiresAt) == req.expiresAt && !p.isClosed && p.isPublic == req.isPublic
  }

  /** CreatePoll up to the store call; the clock is read once for the check and once for the poll. */
  method CreatePoll(req: CreateRequest, id: PollId, now: int, createdAt: int) returns (r: Reply<Poll>)
    ensures r.Passed? <==> Acceptable(req, now)
    ensures r.Passed? ==> MadeFrom(r.value, req, id, createdAt)
    ensures r.Unauthenticated? <==> TrimSpace(req.userId) == ""
  {
    var userId := TrimSpace(req.userId);
    if userId == "" {
      return Unauthenticated;
    }
    if TrimSpace(req.question) == "" {
      return Refused;
    }
    if req.expiresAt.None? || req.expiresAt.value < now + SOONEST {
      return Refused;
    }
    var cleaned := CleanOptions(req.options);
    if cleaned.None? || |cleaned.value| < 3 {
      return Refused;
    }
    return Passed(Poll(id, req.question, cleaned.value, map[], userId, userId, createdAt, req.expiresAt.value, false,
                       req.isPublic));
  }

  /**
   Accepted are exactly the requests with a user and a question, a deadline at least thirty seconds ahead, at least
   three entries that are not blank, and no two of those alike once trimmed.
   */
  lemma AcceptableIff(req: CreateRequest, now: int)
    ensures Acceptable(req, now) <==>
              && !Blank(req.userId) && !Blank(req.question)
              && req.expiresAt.Some? && req.expiresAt.value - now >= 30 * 1_000_000_000
              && (exists i, j, k :: 0 <= i < j < k < |req.options|
                    && !Blank(req.options[i]) && !Blank(req.options[j]) && !Blank(req.options[k]))
              && (forall i, j :: 0 <= i < j < |req.options| && !Blank(req.options[i]) ==>
                    TrimSpace(req.options[i]) != TrimSpace(req.options[j]))
  {
    BlankIff(req.userId);
    BlankIff(req.question);
    ThreeIff(req.options);
    forall i | 0 <= i < |req.options|
      ensures TrimSpace(req.options[i]) == "" <==> Blank(req.options[i])
    {
      BlankIff(req.options[i]);
    }
  }

  /** Vote up to the store call. */
  function Vote(req: VoteRequest): Reply<VoteRequest> {
    var user, id, option := TrimSpace(req.userId), TrimSpace(req.pollId), TrimSpace(req.option);
    if user == "" then Unauthenticated
    else if id == "" || option == "" then Refused
    else Passed(VoteRequest(user, id, option, req.key))
  }

  /** Refused for want of a user first, then of a poll id or an option. */
  lemma VoteReplies(req: VoteRequest)
    ensures Vote(req).Unauthenticated? <==> Blank(req.userId)
    ensures Vote(req).Refused? <==> !Blank(req.userId) && (Blank(req.pollId) || Blank(req.option))
  {
    BlankIff(req.userId);
    BlankIff(req.pollId);
    BlankIff(req.option);
  }

  /** The store is asked with the very user, poll, option and key that the request's texts hold between white space. */
  lemma VotePasses(a: string, u: string, b: string, c: string, i: string, d: string, e: string, o: string, f: string,
                   k: string)
    requires Blank(a) && Blank(b) && Blank(c) && Blank(d) && Blank(e) && Blank(f)
    requires Bare(u) && Bare(i) && Bare(o) && u != "" && i != "" && o != ""
    ensures Vote(VoteRequest(a + u + b, c + i + d, e + o + f, k)) == Passed(VoteRequest(u, i, o, k))
  {
    TrimOf(a, u, b);
    TrimOf(c, i, d);
    TrimOf(e, o, f);
  }

  /** Nothing else is passed on. */
  lemma PassedFrom(req: VoteRequest) returns (a: string, b: string, c: string, d: string, e: string, f: string)
    requires Vote(req).Passed?
    ensures var v := Vote(req).value;
            && req == VoteRequest(a + v.userId + b, c + v.pollId + d, e + v.option + f, v.key)
            && Blank(a) && Blank(b) && Blank(c) && Blank(d) && Blank(e) && Blank(f)
            && Bare(v.userId) && Bare(v.pollId) && Bare(v.option)
  {
    a, b := TrimParts(req.userId);
    c, d := TrimParts(req.pollId);
    e, f := TrimParts(req.option);
  }

  /** The ballot through service and script: the user's own, on that poll, for that option, under that key. */
  lemma BallotOnRedis(db: Ledger.Db, a: string, u: string, b: string, c: string, i: string, d: string, e: string,
                      o: string, f: string, k: string, now: int)
    requires Blank(a) && Blank(b) && Blank(c) && Blank(d) && Blank(e) && Blank(f)
    requires Bare(u) && Bare(i) && Bare(o) && u != "" && i != "" && o != ""
    ensures var v := Vote(VoteRequest(a + u + b, c + i + d, e + o + f, k));
            v.Passed? &&
            var r := Ledger.VoteScript(db, v.value.pollId, v.value.userId, v.value.option, v.value.key, now);
            r.0 == OK ==>
              && (i, u) !in db.voters && r.1.voters == db.voters + {(i, u)}
              && r.1.history == db.history[(i, u) := o]
              && (k == "" ==> r.1.idem == db.idem)
              && (k != "" ==> r.1.idem == db.idem[Keys.IdemKey(u, k) := now + 300 * 1_000_000_000])
  {
    VotePasses(a, u, b, c, i, d, e, o, f, k);
  }

  /** And in memory. */
  lemma BallotInMemory(m: M.Mem, a: string, u: string, b: string, c: string, i: string, d: string, e: string,
                       o: string, f: string, k: string, now: int)
    requires Blank(a) && Blank(b) && Blank(c) && Blank(d) && Blank(e) && Blank(f)
    requires Bare(u) && Bare(i) && Bare(o) && u != "" && i != "" && o != ""
    ensures var v := Vote(VoteRequest(a + u + b, c + i + d, e + o + f, k));
            v.Passed? &&
            var r := M.Vote(m, v.value.pollId, v.value.userId, v.value.option, now);
            r.0 == OK ==>
              && u !in M.VotesOn(m, i) && M.VotesOn(r.1, i) == M.VotesOn(m, i)[u := o]
              && i in m.polls && o in m.polls[i].options
              && r.1.polls[i].votes == m.polls[i].votes[o := M.CountOf(m.polls[i], o) + 1]
  {
    VotePasses(a, u, b, c, i, d, e, o, f, k);
  }

  // ---------- Every option can be voted for ----------

  lemma EntryIsStored(raw: seq<string>, text: string)
    requires text in raw && TrimSpace(text) != ""
    ensures TrimSpace(text) in NonBlank(raw)
  {
    var i :| 0 <= i < |raw| && raw[i] == text;
    StoredInOrder(raw, i, |raw|);
  }

  /**
   On Redis, at any point of any interleaving after the poll was made: a ballot entered as one of the option
   entries is never refused for its option, and it counts whenever the poll is open and the user has not voted.
   */
  lemma VotableOnRedis(start: int, es: seq<Protocol.Event>, req: CreateRequest, p: Poll, createdAt: int,
                       vote: VoteRequest)
    requires Protocol.ValidRun(Protocol.Init(start), es)
    requires var s := Protocol.Run(Protocol.Init(start), es);
             p.id in s.born && s.born[p.id].poll == p && MadeFrom(p, req, p.id, createdAt)
    requires Vote(vote).Passed? && Vote(vote).value.pollId == p.id && vote.option in req.options
    ensures var s := Protocol.Run(Protocol.Init(start), es);
            var v := Vote(vote).value;
            var code := Ledger.VoteScript(s.db, p.id, v.userId, v.option, v.key, s.now).0;
            && code != Invalid
            && (code == OK <==>
                  (&& Ledger.Live(s.db, p.id) && !s.db.meta[p.id].Shut(s.now)
                   && (p.id, v.userId) !in s.db.voters && !Ledger.Repeated(s.db, v.userId, v.key, s.now)))
  {
    EntryIsStored(req.options, vote.option);
    Invariants.InitInv(start);
    Invariants.RunKeepsInv(Protocol.Init(start), es);
    var s := Protocol.Run(Protocol.Init(start), es);
    if Ledger.Live(s.db, p.id) {
      assert s.db.options[p.id] == p.options;
    }
  }

  /** The memory store's copy of a poll keeps its options. */
  ghost predicate KeepsOptions(m: M.Mem, p: Poll) {
    p.id in m.polls ==> m.polls[p.id].options == p.options
  }

  /** The id stands for this poll only. */
  ghost predicate OnlyMakes(ops: seq<Equivalence.Timed>, p: Poll) {
    forall i :: 0 <= i < |ops| && ops[i].op.Create? && ops[i].op.poll.id == p.id ==> ops[i].op.poll == p
  }

  lemma {:induction false} OptionsStay(m: M.Mem, ops: seq<Equivalence.Timed>, p: Poll)
    requires KeepsOptions(m, p) && OnlyMakes(ops, p)
    ensures KeepsOptions(Equivalence.MemoryAfter(m, ops), p)
    decreases |ops|
  {
    if ops != [] {
      var n := Ballot.OnMemory(m, ops[0].op, ops[0].at).1;
      assert KeepsOptions(n, p);
      OptionsStay(n, ops[1..], p);
    }
  }

  /** The same on the memory store, after any operations by anybody. */
  lemma VotableInMemory(ops: seq<Equivalence.Timed>, req: CreateRequest, p: Poll, createdAt: int, vote: VoteRequest,
                        now: int)
    requires OnlyMakes(ops, p) && MadeFrom(p, req, p.id, createdAt)
    requires Vote(vote).Passed? && Vote(vote).value.pollId == p.id && vote.option in req.options
    ensures var m := Equivalence.MemoryAfter(M.EMPTY_MEM, ops);
            var v := Vote(vote).value;
            var code := M.Vote(m, p.id, v.userId, v.option, now).0;
            && code != Invalid
            && (code == OK <==> p.id in m.polls && !M.Shut(m.polls[p.id], now) && v.userId !in M.VotesOn(m, p.id))
  {
    EntryIsStored(req.options, vote.option);
    OptionsStay(M.EMPTY_MEM, ops, p);
  }
}
