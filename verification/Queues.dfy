/**
 What a viewer's stream carries, told from the log of a run: its channel holds the first sixteen messages waiting, later
 ones are dropped while it is full, and what is taken off it and written arrives in the order it was notified
 (internal/http/handler/sse_hub.go:101, 126-136, internal/http/handler/sse.go:81-104).
 */
module Queues {
  import opened Common
  import opened SseHub
  import opened Refresh

  /** The viewer's connection is the same from the beginning of a run to its end. */
  predicate Stays(es: seq<Event>, v: nat) {
    forall e :: e in es ==> e != Connect(v) && e != Disconnect(v)
  }

  lemma TailStays(es: seq<Event>, v: nat)
    requires es != [] && Stays(es, v)
    ensures es[0] != Connect(v) && es[0] != Disconnect(v) && Stays(es[1..], v)
  {
    assert es[0] in es && forall e :: e in es[1..] ==> e in es;
  }

  /** The messages notified on the viewer's poll while fewer than sixteen were waiting. */
  function Taken(w: World, es: seq<Event>, v: nat): seq<Message>
    requires ValidRun(w, es) && v in w.viewers
    decreases |es|
  {
    if es == [] then []
    else
      var e := es[0];
      KeepsViewer(w, e, v);
      (if e.Notify? && e.pollId == w.viewers[v].pollId && |w.viewers[v].ch| < 16 then [e.msg] else [])
      + Taken(Step(w, e), es[1..], v)
  }

  /** What the stream's loop took off the channel. */
  function Drained(w: World, es: seq<Event>, v: nat): seq<Message>
    requires ValidRun(w, es) && v in w.viewers
    decreases |es|
  {
    if es == [] then []
    else
      KeepsViewer(w, es[0], v);
      (if es[0] == Forward(v) then [w.viewers[v].ch[0]] else []) + Drained(Step(w, es[0]), es[1..], v)
  }

  /** What the stream wrote: the first event, and what its loop took off the channel. */
  function Written(w: World, es: seq<Event>, v: nat): seq<Message>
    requires ValidRun(w, es) && v in w.viewers
    decreases |es|
  {
    if es == [] then []
    else
      KeepsViewer(w, es[0], v);
      (if es[0] == Greet(v) then ["init"] else if es[0] == Forward(v) then [w.viewers[v].ch[0]] else [])
      + Written(Step(w, es[0]), es[1..], v)
  }

  /** What the page received. */
  function Received(w: World, es: seq<Event>, v: nat): seq<Message>
    requires ValidRun(w, es) && v in w.viewers
    decreases |es|
  {
    if es == [] then []
    else
      KeepsViewer(w, es[0], v);
      (if es[0] == Receive(v) then [w.viewers[v].wire[0]] else []) + Received(Step(w, es[0]), es[1..], v)
  }

  lemma KeepsViewer(w: World, e: Event, v: nat)
    requires Allowed(w, e) && v in w.viewers
    ensures v in Step(w, e).viewers && Step(w, e).viewers[v] == Change(w, e, v)
    ensures Step(w, e).viewers[v].pollId == w.viewers[v].pollId
  {
  }

  lemma {:induction false} ViewerStays(w: World, es: seq<Event>, v: nat)
    requires ValidRun(w, es) && v in w.viewers
    ensures v in Run(w, es).viewers && Run(w, es).viewers[v].pollId == w.viewers[v].pollId
    decreases |es|
  {
    if es != [] {
      KeepsViewer(w, es[0], v);
      ViewerStays(Step(w, es[0]), es[1..], v);
    }
  }

  /** One event on a connection that stays: appended if notified and not full, and only its loop takes off the front. */
  lemma ChannelStep(w: World, e: Event, v: nat)
    requires Allowed(w, e) && v in w.viewers && w.viewers[v].connected && e != Connect(v) && e != Disconnect(v)
    ensures v in Step(w, e).viewers && Step(w, e).viewers[v].connected
    ensures var (x, y) := (w.viewers[v], Step(w, e).viewers[v]);
            (if e == Forward(v) then [x.ch[0]] else []) + y.ch
            == x.ch + if e.Notify? && e.pollId == x.pollId && |x.ch| < 16 then [e.msg] else []
  {
    KeepsViewer(w, e, v);
  }

  /** First in, first out: drained and still waiting are, in order, what was waiting and what has been taken since. */
  lemma {:induction false} ChannelIsFifo(w: World, es: seq<Event>, v: nat)
    requires ValidRun(w, es) && v in w.viewers && w.viewers[v].connected && Stays(es, v)
    ensures v in Run(w, es).viewers && Run(w, es).viewers[v].connected
    ensures Drained(w, es, v) + Run(w, es).viewers[v].ch == w.viewers[v].ch + Taken(w, es, v)
    decreases |es|
  {
    if es != [] {
      TailStays(es, v);
      ChannelStep(w, es[0], v);
      KeepsViewer(w, es[0], v);
      var t := Step(w, es[0]);
      ChannelIsFifo(t, es[1..], v);
      var x, rest := w.viewers[v], Run(t, es[1..]).viewers[v].ch;
      var out := if es[0] == Forward(v) then [x.ch[0]] else [];
      var in_ := if es[0].Notify? && es[0].pollId == x.pollId && |x.ch| < 16 then [es[0].msg] else [];
      Spliced(out, Drained(t, es[1..], v), rest, t.viewers[v].ch, Taken(t, es[1..], v), x.ch, in_);
    }
  }

  lemma Spliced<T>(out: seq<T>, d: seq<T>, rest: seq<T>, ch: seq<T>, taken: seq<T>, before: seq<T>, one: seq<T>)
    requires d + rest == ch + taken && out + ch == before + one
    ensures (out + d) + rest == before + (one + taken)
  {
    assert (out + d) + rest == out + (d + rest);
    assert (out + ch) + taken == out + (ch + taken);
    assert (before + one) + taken == before + (one + taken);
  }

  /** Since a viewer connected, all it has drained and all that waits is what was notified with room left, in order. */
  lemma SinceConnected(w: World, es: seq<Event>, v: nat)
    requires Allowed(w, Connect(v)) && ValidRun(Step(w, Connect(v)), es) && Stays(es, v)
    ensures var t := Step(w, Connect(v));
            && v in t.viewers && v in Run(t, es).viewers
            && Drained(t, es, v) + Run(t, es).viewers[v].ch == Taken(t, es, v)
            && |Run(t, es).viewers[v].ch| <= 16
  {
    var t := Step(w, Connect(v));
    KeepsViewer(w, Connect(v), v);
    ChannelIsFifo(t, es, v);
    ChannelBounded(t, es, v);
  }

  lemma {:induction false} ChannelBounded(w: World, es: seq<Event>, v: nat)
    requires ValidRun(w, es) && v in w.viewers && |w.viewers[v].ch| <= 16
    ensures v in Run(w, es).viewers && |Run(w, es).viewers[v].ch| <= 16
    decreases |es|
  {
    if es != [] {
      KeepsViewer(w, es[0], v);
      ChannelBounded(Step(w, es[0]), es[1..], v);
    }
  }

  lemma WireStep(w: World, e: Event, v: nat)
    requires Allowed(w, e) && v in w.viewers && e != Connect(v) && e != Disconnect(v)
    ensures v in Step(w, e).viewers
    ensures var (x, y) := (w.viewers[v], Step(w, e).viewers[v]);
            (if e == Receive(v) then [x.wire[0]] else []) + y.wire
            == x.wire + if e == Greet(v) then ["init"] else if e == Forward(v) then [x.ch[0]] else []
  {
    KeepsViewer(w, e, v);
  }

  /** And the page receives what was written, in order, with the rest still on the wire. */
  lemma {:induction false} WireIsFifo(w: World, es: seq<Event>, v: nat)
    requires ValidRun(w, es) && v in w.viewers && Stays(es, v)
    ensures v in Run(w, es).viewers
    ensures Received(w, es, v) + Run(w, es).viewers[v].wire == w.viewers[v].wire + Written(w, es, v)
    decreases |es|
  {
    if es != [] {
      TailStays(es, v);
      WireStep(w, es[0], v);
      KeepsViewer(w, es[0], v);
      var t := Step(w, es[0]);
      WireIsFifo(t, es[1..], v);
      var x := w.viewers[v];
      var out := if es[0] == Receive(v) then [x.wire[0]] else [];
      var in_ := if es[0] == Greet(v) then ["init"] else if es[0] == Forward(v) then [x.ch[0]] else [];
      Spliced(out, Received(t, es[1..], v), Run(t, es[1..]).viewers[v].wire, t.viewers[v].wire,
              Written(t, es[1..], v), x.wire, in_);
    }
  }

  /** The initial event first, once, and then the drained messages. */
  lemma {:induction false} GreetedFirst(w: World, es: seq<Event>, v: nat)
    requires ValidRun(w, es) && v in w.viewers && w.viewers[v].connected && Stays(es, v)
    ensures v in Run(w, es).viewers
    ensures Written(w, es, v)
         == (if w.viewers[v].greeting && !Run(w, es).viewers[v].greeting then ["init"] else []) + Drained(w, es, v)
    ensures w.viewers[v].greeting && Run(w, es).viewers[v].greeting ==> Drained(w, es, v) == []
    ensures !w.viewers[v].greeting ==> !Run(w, es).viewers[v].greeting
    decreases |es|
  {
    if es != [] {
      TailStays(es, v);
      KeepsViewer(w, es[0], v);
      GreetedFirst(Step(w, es[0]), es[1..], v);
    }
  }

  // ---------- Notifications without a drain ----------

  /** Notifications on one poll, one after the other. */
  function Notices(id: PollId, msgs: seq<Message>): seq<Event> {
    if msgs == [] then [] else [Notify(id, msgs[0])] + Notices(id, msgs[1..])
  }

  lemma {:induction false} NoticesAllowed(w: World, id: PollId, msgs: seq<Message>)
    ensures ValidRun(w, Notices(id, msgs))
    decreases |msgs|
  {
    if msgs != [] {
      assert Notices(id, msgs)[1..] == Notices(id, msgs[1..]);
      NoticesAllowed(Step(w, Notify(id, msgs[0])), id, msgs[1..]);
    }
  }

  /** The first messages, as many as there is room for where n are waiting. */
  function Fitting(n: nat, msgs: seq<Message>): seq<Message>
    requires n <= 16
  {
    if n + |msgs| <= 16 then msgs else msgs[..16 - n]
  }

  lemma FirstFits(n: nat, msgs: seq<Message>)
    requires n <= 16 && msgs != []
    ensures Fitting(n, msgs) == if n < 16 then [msgs[0]] + Fitting(n + 1, msgs[1..]) else []
  {
    assert msgs == [msgs[0]] + msgs[1..];
  }

  lemma NoticeTaken(w: World, v: nat, msg: Message)
    requires v in w.viewers && w.viewers[v].connected && |w.viewers[v].ch| <= 16
    ensures var (x, t) := (w.viewers[v], Step(w, Notify(w.viewers[v].pollId, msg)));
            && v in t.viewers && t.viewers[v].connected && t.viewers[v].pollId == x.pollId
            && t.viewers[v].ch == x.ch + if |x.ch| < 16 then [msg] else []
  {
    var e := Notify(w.viewers[v].pollId, msg);
    KeepsViewer(w, e, v);
    ChannelStep(w, e, v);
  }

  /** With nothing drained, a channel keeps the first messages, up to sixteen in all, and drops the rest. */
  lemma {:induction false} FirstOnesWait(w: World, v: nat, msgs: seq<Message>)
    requires v in w.viewers && w.viewers[v].connected && |w.viewers[v].ch| <= 16
    ensures var (x, es) := (w.viewers[v], Notices(w.viewers[v].pollId, msgs));
            && ValidRun(w, es) && v in Run(w, es).viewers
            && Run(w, es).viewers[v].ch == x.ch + Fitting(|x.ch|, msgs)
    decreases |msgs|
  {
    var x := w.viewers[v];
    NoticesAllowed(w, x.pollId, msgs);
    if msgs != [] {
      var es, t := Notices(x.pollId, msgs), Step(w, Notify(x.pollId, msgs[0]));
      assert es[1..] == Notices(x.pollId, msgs[1..]);
      NoticeTaken(w, v, msgs[0]);
      FirstFits(|x.ch|, msgs);
      FirstOnesWait(t, v, msgs[1..]);
    }
  }
}
