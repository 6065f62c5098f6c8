/**
 The hub of open poll event streams (internal/http/handler/sse_hub.go:98-136): for each poll the set of its
 connections, each with a bounded channel that drops what does not fit.
 */
module SseHub {
  import opened Common

  const CAPACITY := 16

  type Message = string

  /** A send that does not block: a full channel drops the message. */
  function Offer(ch: seq<Message>, msg: Message): (r: seq<Message>)
    ensures |ch| <= CAPACITY ==> |r| <= CAPACITY
    ensures r != []
  {
    if |ch| < CAPACITY then ch + [msg] else ch
  }

  class PollConn {
    const pollId: PollId
    var ch: seq<Message>
    var closed: bool

    constructor (pollId: PollId)
      ensures this.pollId == pollId && ch == [] && !closed
    {
      this.pollId := pollId;
      ch := [];
      closed := false;
    }
  }

  class Hub {
    var pollConns: map<PollId, set<PollConn>>

    /** Every connection listed under a poll is that poll's, open and within capacity; no empty sets stay behind. */
    ghost predicate Valid()
      reads this, AllConns()
    {
      forall id :: id in pollConns ==>
        pollConns[id] != {} && forall c :: c in pollConns[id] ==> c.pollId == id && !c.closed && |c.ch| <= CAPACITY
    }

    ghost function AllConns(): set<object>
      reads this
    {
      set id, c | id in pollConns && c in pollConns[id] :: c as object
    }

    ghost function ConnsOf(id: PollId): set<PollConn>
      reads this
    {
      if id in pollConns then pollConns[id] else {}
    }

    constructor ()
      ensures Valid() && pollConns == map[]
    {
      pollConns := map[];
    }

    method AddPoll(pollId: PollId) returns (c: PollConn)
      requires Valid()
      modifies this
      ensures Valid() && fresh(c) && c.pollId == pollId && c.ch == []
      ensures forall id :: ConnsOf(id) == old(ConnsOf(id)) + if id == pollId then {c} else {}
    {
      c := new PollConn(pollId);
      if pollId !in pollConns {
        pollConns := pollConns[pollId := {}];
      }
      pollConns := pollConns[pollId := pollConns[pollId] + {c}];
    }

    /** Closing a closed channel would panic, so a connection is removed once. */
    method RemovePoll(c: PollConn)
      requires Valid() && !c.closed
      modifies this, c
      ensures Valid()
      ensures forall id :: ConnsOf(id) == old(ConnsOf(id)) - if id == c.pollId then {c} else {}
      ensures c.closed <==> old(c.pollId in pollConns)
      ensures c.ch == old(c.ch)
    {
      if c.pollId !in pollConns {
        return;
      }
      var m := pollConns[c.pollId] - {c};
      pollConns := if m == {} then pollConns - {c.pollId} else pollConns[c.pollId := m];
      c.closed := true;
    }

    /** Offers the message to every connection of the poll and to nobody else. */
    method NotifyPoll(pollId: PollId, msg: Message)
      requires Valid()
      modifies ConnsOf(pollId)
      ensures Valid() && pollConns == old(pollConns)
      ensures forall c :: c in ConnsOf(pollId) ==>
                && c.ch == (if |old(c.ch)| < 16 then old(c.ch) + [msg] else old(c.ch))
                && c.closed == old(c.closed)
    {
      var left := if pollId in pollConns then pollConns[pollId] else {};
      while left != {}
        invariant left <= ConnsOf(pollId)
        invariant forall c :: c in left ==> c.ch == old(c.ch)
        invariant forall c :: c in ConnsOf(pollId) && c !in left ==> c.ch == Offer(old(c.ch), msg)
        invariant forall c :: c in ConnsOf(pollId) ==> c.closed == old(c.closed)
        decreases left
      {
        var c :| c in left;
        if |c.ch| < CAPACITY {
          c.ch := c.ch + [msg];
        }
        left := left - {c};
      }
    }
  }
}
