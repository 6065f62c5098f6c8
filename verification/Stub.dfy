/**
 Metadata of a deleted poll coming back. ClosePoll writes with HSET, which creates a missing hash
 (internal/store/redis/store.go:91), so a close that read the poll before another client's DEL re-creates
 part of its metadata. "A deleted poll reads as not found from then on" is therefore false; this module
 gives a run that breaks it and the exact condition under which it can happen.
 */
module Stub {
  import opened Common
  import opened Ledger
  import opened Protocol
  import opened Invariants
  import Keys
  import Safety

  /** A close past its read that will still reach its write. */
  predicate WillWrite(pc: Pc, id: PollId, now: int) {
    || (pc.Write? && pc.op.Close? && pc.id == id)
    || (pc.CheckKey? && pc.op.Close? && pc.id == id)
    || (pc.Decide? && pc.op.Close? && pc.id == id && pc.seen.Creator() == pc.user && !pc.seen.ReadsClosed(now))
  }

  ghost predicate Revivable(s: State, id: PollId) {
    exists c :: c in s.clients && WillWrite(s.clients[c], id, s.now)
  }

  lemma NoWriterStep(s: State, e: Event, id: PollId)
    requires Allowed(s, e) && id in s.born && id !in s.db.meta && !Revivable(s, id)
    ensures id in Step(s, e).born && id !in Step(s, e).db.meta && !Revivable(Step(s, e), id)
  {
    var t := Step(s, e);
    match e
    case Vote(i, u, o, k) => VoteTouches(s.db, i, u, o, k, s.now);
    case Undo(i, u, k) => UndoTouches(s.db, i, u, k, s.now);
    case Advance(c) => assert !WillWrite(s.clients[c], id, s.now);
    case _ =>
    forall c | c in t.clients
      ensures !WillWrite(t.clients[c], id, t.now)
    {
      if c in s.clients {
        assert !WillWrite(s.clients[c], id, s.now);
      }
    }
  }

  lemma {:induction false} NoWriterRun(s: State, es: seq<Event>, id: PollId)
    requires ValidRun(s, es) && id in s.born && id !in s.db.meta && !Revivable(s, id)
    ensures id !in Run(s, es).db.meta
    decreases |es|
  {
    if es != [] {
      NoWriterStep(s, es[0], id);
      NoWriterRun(Step(s, es[0]), es[1..], id);
    }
  }

  lemma WriteRun(s: State, c: nat) returns (es: seq<Event>)
    requires c in s.clients && s.clients[c].Write? && s.clients[c].op.Close?
    ensures ValidRun(s, es) && s.clients[c].id in Run(s, es).db.meta
  {
    es := [Advance(c)] + [];
    Then(s, Advance(c), []);
  }

  lemma CheckRun(s: State, c: nat) returns (es: seq<Event>)
    requires c in s.clients && s.clients[c].CheckKey? && s.clients[c].op.Close?
    ensures ValidRun(s, es) && s.clients[c].id in Run(s, es).db.meta
  {
    var pc := s.clients[c];
    var name := Keys.IdemKey(pc.user, pc.key);
    var wait: nat := if name in s.db.idem && s.db.idem[name] >= s.now then s.db.idem[name] - s.now + 1 else 0;
    var t := Step(s, Tick(wait));
    var u := Step(t, Advance(c));
    assert u.clients[c] == Write(pc.op, pc.id, pc.user, pc.key);
    var fs := WriteRun(u, c);
    Then(t, Advance(c), fs);
    Then(s, Tick(wait), [Advance(c)] + fs);
    es := [Tick(wait)] + ([Advance(c)] + fs);
  }

  lemma DecideRun(s: State, c: nat) returns (es: seq<Event>)
    requires c in s.clients && s.clients[c].Decide? && WillWrite(s.clients[c], s.clients[c].id, s.now)
    ensures ValidRun(s, es) && s.clients[c].id in Run(s, es).db.meta
  {
    var u := Step(s, Advance(c));
    var fs;
    if u.clients[c].Write? {
      fs := WriteRun(u, c);
    } else {
      fs := CheckRun(u, c);
    }
    Then(s, Advance(c), fs);
    es := [Advance(c)] + fs;
  }

  /**
   A deleted poll's metadata can come back in some run exactly when a close of it is in flight whose read and
   ownership check are behind it and which did not read the poll as closed.
   */
  lemma ComesBackIff(s: State, id: PollId)
    requires id in s.born && id !in s.db.meta
    ensures (exists es :: ValidRun(s, es) && id in Run(s, es).db.meta) <==> Revivable(s, id)
  {
    if Revivable(s, id) {
      var c :| c in s.clients && WillWrite(s.clients[c], id, s.now);
      var es;
      if s.clients[c].Write? {
        es := WriteRun(s, c);
      } else if s.clients[c].CheckKey? {
        es := CheckRun(s, c);
      } else {
        es := DecideRun(s, c);
      }
      assert ValidRun(s, es) && id in Run(s, es).db.meta;
    } else {
      forall es | ValidRun(s, es)
        ensures id !in Run(s, es).db.meta
      {
        NoWriterRun(s, es, id);
      }
    }
  }

  /** What comes back is never the poll: only the closing flag and the closer's name, refusing every script. */
  lemma OnlyAStub(s: State, es: seq<Event>, id: PollId)
    requires ValidRun(s, es) && id in s.born && !Live(s.db, id) && id in Run(s, es).db.meta
    ensures Run(s, es).db.meta[id].Stub? && Run(s, es).db.meta[id].Creator() == ""
    ensures Run(s, es).db.meta[id].ReadsClosed(Run(s, es).now)
  {
    Safety.StaysDead(s, es, id);
  }

  /** A close's first step: it has read the poll and not yet decided. */
  lemma ReadRun(s: State, c: nat, id: PollId) returns (es: seq<Event>)
    requires c !in s.clients && Live(s.db, id) && Keys.Askable(id)
    ensures ValidRun(s, es)
    ensures var m := s.db.meta[id];
            Run(s, es) == s.(clients := s.clients[c := Decide(Close, id, m.createdBy, "", m)])
  {
    var start := Start(c, Close, id, s.db.meta[id].createdBy, "");
    var t := Step(s, start);
    var u := Step(t, Advance(c));
    Then(t, Advance(c), []);
    Then(s, start, [Advance(c)] + []);
    es := [start] + ([Advance(c)] + []);
    assert u.clients == s.clients[c := u.clients[c]];
  }

  /** A delete up to and including its DEL. */
  lemma DeleteRun(s: State, c: nat, id: PollId) returns (es: seq<Event>)
    requires c !in s.clients && Live(s.db, id) && Keys.Askable(id)
    ensures ValidRun(s, es)
    ensures Run(s, es) == s.(db := DropPoll(s.db, id),
                             clients := s.clients[c := RemIndex(id, s.db.meta[id].createdBy, "")])
  {
    var start := Start(c, Delete, id, s.db.meta[id].createdBy, "");
    var t := Step(s, start);
    var u := Step(t, Advance(c));
    var v := Step(u, Advance(c));
    var w := Step(v, Advance(c));
    Then(v, Advance(c), []);
    Then(u, Advance(c), [Advance(c)] + []);
    Then(t, Advance(c), [Advance(c)] + ([Advance(c)] + []));
    es := [start] + ([Advance(c)] + ([Advance(c)] + ([Advance(c)] + [])));
    Then(s, start, [Advance(c)] + ([Advance(c)] + ([Advance(c)] + [])));
    assert w.clients == s.clients[c := w.clients[c]];
  }

  /**
   Any poll that reads as open, and any two idle clients: one run has the creator close it from one client and
   delete it from the other so that the deleted poll's metadata is back at the end.
   */
  lemma StubArises(s: State, id: PollId, c: nat, d: nat)
    requires Inv(s) && Live(s.db, id) && !s.db.meta[id].ReadsClosed(s.now)
    requires c !in s.clients && d !in s.clients && c != d
    ensures exists es, fs ::
              && ValidRun(s, es) && id in Run(s, es).born && id !in Run(s, es).db.meta
              && ValidRun(Run(s, es), fs) && id in Run(Run(s, es), fs).db.meta
  {
    var e1 := ReadRun(s, c, id);
    var t := Run(s, e1);
    var e2 := DeleteRun(t, d, id);
    var u := Run(t, e2);
    RunConcat(s, e1, e2);
    var es := e1 + e2;
    assert Run(s, es) == u;
    assert u.clients[c] == t.clients[c];
    var fs := DecideRun(u, c);
    assert ValidRun(s, es) && id in Run(s, es).born && id !in Run(s, es).db.meta;
  }
}
