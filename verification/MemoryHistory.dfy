/**
 A poll of the memory store told from the operations alone (internal/store/memory/memory.go:32-41, 52-69, 115-147): it
 is as it was created but for its counts, closed if a close has come since, and last edited by the user of its last
 vote, undo or close that did something, or whoever it was created with.
 */
module MemoryHistory {
  import opened Common
  import opened Ballot
  import opened MemoryPaging
  import M = MemoryStore

  /** The close comes while the poll is open and its deadline not past. */
  predicate Closes(m: M.Mem, op: Op, at: int, id: PollId) {
    op.Close? && op.id == id && id in m.polls && !m.polls[id].isClosed && at <= m.polls[id].expiresAt
  }

  /** The ballot or undo is counted. */
  predicate Ballots(m: M.Mem, op: Op, at: int, id: PollId) {
    (op.Vote? || op.Undo?) && op.id == id && OnMemory(m, op, at).0 == OK
  }

  /** Who edits the poll by this operation, if it does so at all. */
  function Editor(m: M.Mem, t: Timed, id: PollId): Option<UserId> {
    if Creates(t, id) then Some(t.op.poll.updatedBy)
    else if Closes(m, t.op, t.at, id) || Ballots(m, t.op, t.at, id) then Some(t.op.user)
    else None
  }

  lemma EditorStep(m: M.Mem, t: Timed, id: PollId)
    ensures var n := OnMemory(m, t.op, t.at).1;
            id in n.polls ==>
              if Editor(m, t, id).Some? then n.polls[id].updatedBy == Editor(m, t, id).value
              else id in m.polls && n.polls[id].updatedBy == m.polls[id].updatedBy
  {
  }

  /** The k-th operation is the last of the first n to edit the poll. */
  ghost predicate LastEdit(ops: seq<Timed>, k: nat, n: nat, id: PollId) {
    && k < n <= |ops| && Editor(At(ops, k), ops[k], id).Some?
    && forall i :: k < i < n ==> Editor(At(ops, i), ops[i], id).None?
  }

  lemma NothingAtFirst(ops: seq<Timed>)
    ensures At(ops, 0) == M.EMPTY_MEM
  {
    assert ops[..0] == [];
  }

  /** After any operations, a stored poll has been edited, and its `updatedBy` is who edited it last. */
  lemma {:induction false} UpdatedByLastEditor(ops: seq<Timed>, n: nat, id: PollId) returns (k: nat)
    requires n <= |ops| && id in At(ops, n).polls
    ensures LastEdit(ops, k, n, id)
    ensures Editor(At(ops, k), ops[k], id) == Some(At(ops, n).polls[id].updatedBy)
    decreases n
  {
    NothingAtFirst(ops);
    AtNext(ops, n - 1);
    EditorStep(At(ops, n - 1), ops[n - 1], id);
    if Editor(At(ops, n - 1), ops[n - 1], id).Some? {
      k := n - 1;
    } else {
      k := UpdatedByLastEditor(ops, n - 1, id);
    }
  }

  /** A close of a poll that is closed or past its deadline closes it and leaves the last editor. */
  lemma LateCloseEditsNothing(ops: seq<Timed>, n: nat, id: PollId)
    requires n < |ops| && id in At(ops, n).polls && ops[n].op.Close? && ops[n].op.id == id
    requires At(ops, n).polls[id].isClosed || ops[n].at > At(ops, n).polls[id].expiresAt
    ensures id in At(ops, n + 1).polls && At(ops, n + 1).polls[id].isClosed
    ensures At(ops, n + 1).polls[id].updatedBy == At(ops, n).polls[id].updatedBy
  {
    AtNext(ops, n);
    EditorStep(At(ops, n), ops[n], id);
  }

  /** An earlier one closes it and is its last edit. */
  lemma CloseEdits(ops: seq<Timed>, n: nat, id: PollId)
    requires n < |ops| && id in At(ops, n).polls && ops[n].op.Close? && ops[n].op.id == id
    requires !At(ops, n).polls[id].isClosed && ops[n].at <= At(ops, n).polls[id].expiresAt
    ensures id in At(ops, n + 1).polls && At(ops, n + 1).polls[id].isClosed
    ensures At(ops, n + 1).polls[id].updatedBy == ops[n].op.user
  {
    AtNext(ops, n);
    EditorStep(At(ops, n), ops[n], id);
  }

  /** The k-th operation is the last of the first n to create the poll. */
  ghost predicate LastMade(ops: seq<Timed>, k: nat, n: nat, id: PollId) {
    k < n <= |ops| && Creates(ops[k], id) && forall i :: k < i < n ==> !Creates(ops[i], id)
  }

  /** A close of the poll among the operations from k to n. */
  ghost predicate ClosedSince(ops: seq<Timed>, k: nat, n: nat, id: PollId)
    requires n <= |ops|
  {
    exists i :: k < i < n && ops[i].op.Close? && ops[i].op.id == id
  }

  lemma MadeStep(m: M.Mem, t: Timed, id: PollId)
    ensures var n := OnMemory(m, t.op, t.at).1;
            id in n.polls ==>
              if Creates(t, id) then n.polls[id] == t.op.poll
              else id in m.polls && n.polls[id] == m.polls[id].(votes := n.polls[id].votes,
                     updatedBy := n.polls[id].updatedBy,
                     isClosed := m.polls[id].isClosed || (t.op.Close? && t.op.id == id))
  {
  }

  lemma OneMoreClose(ops: seq<Timed>, k: nat, n: nat, id: PollId)
    requires k < n < |ops|
    ensures ClosedSince(ops, k, n + 1, id) <==>
              ClosedSince(ops, k, n, id) || (ops[n].op.Close? && ops[n].op.id == id)
  {
  }

  /** After any operations a stored poll is the one last created under its id: only counts, flag and editor change. */
  lemma {:induction false} StaysAsMade(ops: seq<Timed>, n: nat, id: PollId) returns (k: nat)
    requires n <= |ops| && id in At(ops, n).polls
    ensures LastMade(ops, k, n, id)
    ensures var (p, made) := (At(ops, n).polls[id], ops[k].op.poll);
            p == made.(votes := p.votes, updatedBy := p.updatedBy,
                       isClosed := made.isClosed || ClosedSince(ops, k, n, id))
    decreases n
  {
    NothingAtFirst(ops);
    AtNext(ops, n - 1);
    MadeStep(At(ops, n - 1), ops[n - 1], id);
    if Creates(ops[n - 1], id) {
      k := n - 1;
    } else {
      k := StaysAsMade(ops, n - 1, id);
      OneMoreClose(ops, k, n - 1, id);
    }
  }
}
