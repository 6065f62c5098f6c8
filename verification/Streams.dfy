/**
 The hub at work behind the open pages: its connections' channels are at every step the queues the delivery machine
 of module Refresh reasons about (internal/http/handler/sse.go:81-104 over internal/http/handler/sse_hub.go:98-136).
 */
module Streams {
  import opened Common
  import opened SseHub
  import opened Refresh

  /** Each connected viewer has one connection of its own, listed under its poll, holding the viewer's queue. */
  ghost predicate Mirrors(hub: Hub, conns: map<nat, PollConn>, w: World)
    reads hub, hub.AllConns(), conns.Values
  {
    && hub.Valid()
    && (forall v :: v in conns <==> v in w.viewers && w.viewers[v].connected)
    && (forall v :: v in conns ==> Serves(hub, conns[v], w.viewers[v]))
    && (forall u, v :: u in conns && v in conns && u != v ==> conns[u] != conns[v])
  }

  ghost predicate Serves(hub: Hub, c: PollConn, x: Viewer)
    reads hub, c
  {
    c in hub.ConnsOf(x.pollId) && c.pollId == x.pollId && c.ch == x.ch
  }

  /** A stream begins: subscribe, with the initial event still to be written. */
  method Subscribe(hub: Hub, v: nat, ghost conns: map<nat, PollConn>, ghost w: World, pollId: PollId)
    returns (c: PollConn)
    requires Mirrors(hub, conns, w) && Allowed(w, Connect(v)) && w.viewers[v].pollId == pollId
    modifies hub
    ensures Mirrors(hub, conns[v := c], Step(w, Connect(v)))
  {
    c := hub.AddPoll(pollId);
    assert forall u :: u in conns ==> Serves(hub, conns[u], w.viewers[u]);
    Joined(hub, conns, w, v, c);
  }

  lemma Joined(hub: Hub, conns: map<nat, PollConn>, w: World, v: nat, c: PollConn)
    requires hub.Valid() && Allowed(w, Connect(v))
    requires forall u :: u in conns <==> u in w.viewers && w.viewers[u].connected
    requires forall u :: u in conns ==> Serves(hub, conns[u], w.viewers[u]) && conns[u] != c
    requires forall u, x :: u in conns && x in conns && u != x ==> conns[u] != conns[x]
    requires c in hub.ConnsOf(w.viewers[v].pollId) && c.pollId == w.viewers[v].pollId && c.ch == []
    ensures Mirrors(hub, conns[v := c], Step(w, Connect(v)))
  {
    ConnectsOne(w, v);
  }

  lemma ConnectsOne(w: World, v: nat)
    requires Allowed(w, Connect(v))
    ensures var t := Step(w, Connect(v));
            && t.viewers.Keys == w.viewers.Keys
            && t.viewers[v].connected && t.viewers[v].ch == [] && t.viewers[v].pollId == w.viewers[v].pollId
            && forall u :: u in w.viewers && u != v ==> t.viewers[u] == w.viewers[u]
  {
  }

  /** A notification reaches the queues of exactly the viewers of its poll. */
  method Publish(hub: Hub, id: PollId, msg: Message, ghost conns: map<nat, PollConn>, ghost w: World)
    requires Mirrors(hub, conns, w)
    modifies hub.ConnsOf(id)
    ensures Mirrors(hub, conns, Step(w, Notify(id, msg)))
  {
    hub.NotifyPoll(id, msg);
  }

  /** The loop of a stream takes the oldest message off its channel. */
  method Drain(hub: Hub, c: PollConn, v: nat, ghost conns: map<nat, PollConn>, ghost w: World) returns (msg: Message)
    requires Mirrors(hub, conns, w) && Allowed(w, Forward(v)) && conns[v] == c
    modifies c
    ensures Mirrors(hub, conns, Step(w, Forward(v)))
    ensures Step(w, Forward(v)).viewers[v].wire == w.viewers[v].wire + [msg]
  {
    msg := c.ch[0];
    c.ch := c.ch[1..];
  }

  /** A stream ends: unsubscribe. */
  method Unsubscribe(hub: Hub, c: PollConn, v: nat, ghost conns: map<nat, PollConn>, ghost w: World)
    requires Mirrors(hub, conns, w) && Allowed(w, Disconnect(v)) && conns[v] == c
    modifies hub, c
    ensures Mirrors(hub, conns - {v}, Step(w, Disconnect(v)))
  {
    hub.RemovePoll(c);
    assert forall u :: u in conns && u != v ==> Serves(hub, conns[u], w.viewers[u]);
    Left(hub, conns, w, v);
  }

  lemma Left(hub: Hub, conns: map<nat, PollConn>, w: World, v: nat)
    requires hub.Valid() && Allowed(w, Disconnect(v))
    requires forall u :: u in conns <==> u in w.viewers && w.viewers[u].connected
    requires forall u :: u in conns && u != v ==> Serves(hub, conns[u], w.viewers[u])
    requires forall u, x :: u in conns && x in conns && u != x ==> conns[u] != conns[x]
    ensures Mirrors(hub, conns - {v}, Step(w, Disconnect(v)))
  {
    var t := Step(w, Disconnect(v));
    assert t.viewers.Keys == w.viewers.Keys && !t.viewers[v].connected;
    assert forall u :: u in w.viewers && u != v ==> t.viewers[u] == w.viewers[u];
  }

  /** Everything else happens on the wire or in the page. */
  lemma RestLeavesHub(hub: Hub, conns: map<nat, PollConn>, w: World, e: Event)
    requires Mirrors(hub, conns, w) && Allowed(w, e)
    requires e.Open? || e.Greet? || e.Receive? || e.Click? || e.Settled?
    ensures Mirrors(hub, conns, Step(w, e))
  {
    var t := Step(w, e);
    forall v | v in t.viewers
      ensures t.viewers[v].connected <==> v in conns
      ensures v in conns ==> t.viewers[v].ch == w.viewers[v].ch && t.viewers[v].pollId == w.viewers[v].pollId
    {
      QueueKept(w, e, v);
    }
  }

  lemma QueueKept(w: World, e: Event, v: nat)
    requires Allowed(w, e) && (e.Open? || e.Greet? || e.Receive? || e.Click? || e.Settled?)
    requires v in Step(w, e).viewers
    ensures var t := Step(w, e);
            if v in w.viewers then
              && t.viewers[v].connected == w.viewers[v].connected
              && t.viewers[v].ch == w.viewers[v].ch && t.viewers[v].pollId == w.viewers[v].pollId
            else !t.viewers[v].connected
  {
  }
}
