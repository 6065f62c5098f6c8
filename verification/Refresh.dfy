/**
 Delivery of poll invalidations to open pages: the hub's lossy queue (internal/http/handler/sse_hub.go:98-136), the
 streaming loop (internal/http/handler/sse.go:81-104) and the page's single-flight loader
 (web/static/app.js:440-537). Although messages are dropped and loads coalesced, no refresh is lost.
 */
module Refresh {
  import opened Common
  import opened SseHub

  /**
   The loader's two closure variables and, as history, the notification count when its last fetch began, if any, and
   how many have begun.
   */
  datatype Page = Page(inFlight: bool, queued: bool, fetchedAt: Option<nat>, begun: nat)

  const NEW_PAGE := Page(false, false, None, 0)

  /** load(): join the fetch in flight and ask for another, or begin one. */
  function Load(p: Page, notified: nat): Page {
    if p.inFlight then p.(queued := true)
    else p.(inFlight := true, fetchedAt := Some(notified), begun := p.begun + 1)
  }

  /** The fetch settled, well or badly: clear the flight, and load once more if that was asked for meanwhile. */
  function Settle(p: Page, notified: nat): Page {
    var q := p.(inFlight := false);
    if p.queued then Load(q.(queued := false), notified) else q
  }

  /** The loader as the page runs it. */
  class Loader {
    var loadInFlight: bool
    var loadQueued: bool
    ghost var fetchedAt: Option<nat>
    ghost var begun: nat

    ghost function Value(): Page
      reads this
    {
      Page(loadInFlight, loadQueued, fetchedAt, begun)
    }

    constructor ()
      ensures Value() == NEW_PAGE
    {
      loadInFlight, loadQueued, fetchedAt, begun := false, false, None, 0;
    }

    method LoadPage(ghost notified: nat)
      modifies this
      ensures Value() == Load(old(Value()), notified)
    {
      if loadInFlight {
        loadQueued := true;
        return;
      }
      loadInFlight := true;
      fetchedAt, begun := Some(notified), begun + 1;
    }

    method FetchSettled(ghost notified: nat)
      modifies this
      ensures Value() == Settle(old(Value()), notified)
    {
      loadInFlight := false;
      if loadQueued {
        loadQueued := false;
        LoadPage(notified);
      }
    }
  }

  /** A page viewing a poll and its stream: `greeting` is the initial event still to write, `wire` what is written. */
  datatype Viewer = Viewer(pollId: PollId, connected: bool, greeting: bool, ch: seq<Message>, wire: seq<Message>,
                           page: Page)

  /** How often each poll's subscribers were notified, and the open pages. */
  datatype World = World(notified: map<PollId, nat>, viewers: map<nat, Viewer>)

  datatype Event =
    | Open(viewer: nat, pollId: PollId)
    | Connect(viewer: nat)
    | Greet(viewer: nat)
    | Notify(pollId: PollId, msg: Message)
    | Forward(viewer: nat)
    | Receive(viewer: nat)
    | Click(viewer: nat)
    | Settled(viewer: nat)
    | Disconnect(viewer: nat)

  function Count(w: World, id: PollId): nat {
    if id in w.notified then w.notified[id] else 0
  }

  predicate Allowed(w: World, e: Event) {
    match e
    case Open(v, _) => v !in w.viewers
    case Connect(v) => v in w.viewers && !w.viewers[v].connected
    case Greet(v) => v in w.viewers && w.viewers[v].connected && w.viewers[v].greeting
    case Notify(_, _) => true
    case Forward(v) => v in w.viewers && w.viewers[v].connected && !w.viewers[v].greeting && w.viewers[v].ch != []
    case Receive(v) => v in w.viewers && w.viewers[v].wire != []
    case Click(v) => v in w.viewers
    case Settled(v) => v in w.viewers && w.viewers[v].page.inFlight
    case Disconnect(v) => v in w.viewers && w.viewers[v].connected
  }

  /** What one event does to one viewer; notifications reach every connected viewer of the poll. */
  function Change(w: World, e: Event, v: nat): Viewer
    requires Allowed(w, e) && v in w.viewers
  {
    var x := w.viewers[v];
    match e
    case Notify(id, msg) =>
      if x.connected && x.pollId == id then x.(ch := Offer(x.ch, msg)) else x
    case Open(_, _) => x
    case Connect(u) => if u != v then x else x.(connected := true, greeting := true, ch := [], wire := [])
    case Greet(u) => if u != v then x else x.(greeting := false, wire := x.wire + ["init"])
    case Forward(u) => if u != v then x else x.(ch := x.ch[1..], wire := x.wire + [x.ch[0]])
    case Receive(u) => if u != v then x else x.(wire := x.wire[1..], page := Load(x.page, Count(w, x.pollId)))
    case Click(u) => if u != v then x else x.(page := Load(x.page, Count(w, x.pollId)))
    case Settled(u) => if u != v then x else x.(page := Settle(x.page, Count(w, x.pollId)))
    case Disconnect(u) => if u != v then x else x.(connected := false, greeting := false, ch := [], wire := [])
  }

  function Step(w: World, e: Event): World
    requires Allowed(w, e)
  {
    var changed := map v | v in w.viewers :: Change(w, e, v);
    match e
    case Open(v, id) => w.(viewers := changed[v := Viewer(id, false, false, [], [], NEW_PAGE)])
    case Notify(id, _) => World(w.notified[id := Count(w, id) + 1], changed)
    case _ => w.(viewers := changed)
  }

  predicate ValidRun(w: World, es: seq<Event>)
    decreases |es|
  {
    es == [] || (Allowed(w, es[0]) && ValidRun(Step(w, es[0]), es[1..]))
  }

  function Run(w: World, es: seq<Event>): World
    requires ValidRun(w, es)
    decreases |es|
  {
    if es == [] then w else Run(Step(w, es[0]), es[1..])
  }

  const START := World(map[], map[])

  // ---------- No lost refresh ----------

  /** The latest fetch began after the latest notification. */
  predicate Fresh(x: Viewer, notified: nat) {
    x.page.fetchedAt == Some(notified)
  }

  /** Something on its way will start another fetch. */
  predicate WillLoad(x: Viewer) {
    x.greeting || x.ch != [] || x.wire != [] || x.page.queued
  }

  predicate Covered(x: Viewer, notified: nat) {
    && |x.ch| <= CAPACITY
    && (x.page.fetchedAt.Some? ==> x.page.fetchedAt.value <= notified)
    && (x.page.queued ==> x.page.inFlight)
    && (x.connected ==> Fresh(x, notified) || WillLoad(x))
  }

  predicate AllCovered(w: World) {
    forall v :: v in w.viewers ==> Covered(w.viewers[v], Count(w, w.viewers[v].pollId))
  }

  lemma ViewerStaysCovered(w: World, e: Event, v: nat)
    requires Allowed(w, e) && v in w.viewers && Covered(w.viewers[v], Count(w, w.viewers[v].pollId))
    ensures v in Step(w, e).viewers
    ensures Covered(Step(w, e).viewers[v], Count(Step(w, e), Step(w, e).viewers[v].pollId))
  {
    assert Step(w, e).viewers[v] == Change(w, e, v);
  }

  lemma StepKeepsCovered(w: World, e: Event)
    requires AllCovered(w) && Allowed(w, e)
    ensures AllCovered(Step(w, e))
  {
    var t := Step(w, e);
    forall v | v in t.viewers
      ensures Covered(t.viewers[v], Count(t, t.viewers[v].pollId))
    {
      if v in w.viewers {
        ViewerStaysCovered(w, e, v);
      }
    }
  }

  lemma {:induction false} RunKeepsCovered(w: World, es: seq<Event>)
    requires AllCovered(w) && ValidRun(w, es)
    ensures AllCovered(Run(w, es))
    decreases |es|
  {
    if es != [] {
      StepKeepsCovered(w, es[0]);
      RunKeepsCovered(Step(w, es[0]), es[1..]);
    }
  }

  /**
   No lost refresh: in every reachable state every connected viewer either began its latest fetch after the latest
   notification of its poll, or has a message to be written, queued, written or coalesced that will start another.
   */
  lemma NoLostRefresh(es: seq<Event>, v: nat)
    requires ValidRun(START, es) && v in Run(START, es).viewers && Run(START, es).viewers[v].connected
    ensures var w := Run(START, es);
            Fresh(w.viewers[v], Count(w, w.viewers[v].pollId)) || WillLoad(w.viewers[v])
  {
    RunKeepsCovered(START, es);
  }

  // ---------- One at a time ----------

  /** How often an event occurs in a run. */
  function Times(es: seq<Event>, e: Event): nat {
    if es == [] then 0 else (if es[0] == e then 1 else 0) + Times(es[1..], e)
  }

  /** Fetches begun, but for the one in flight, have settled; and each was asked for, one more being queued. */
  predicate Accounted(p: Page, settled: nat, asked: nat) {
    && p.begun == settled + (if p.inFlight then 1 else 0)
    && p.begun + (if p.queued then 1 else 0) <= asked
  }

  /** Loads asked for by messages received and by clicks. */
  function Asked(es: seq<Event>, v: nat): nat {
    Times(es, Receive(v)) + Times(es, Click(v))
  }

  lemma AccountStep(w: World, e: Event, v: nat, settled: nat, asked: nat)
    requires Allowed(w, e) && v in w.viewers && Accounted(w.viewers[v].page, settled, asked)
    ensures v in Step(w, e).viewers
    ensures Accounted(Step(w, e).viewers[v].page, settled + (if e == Settled(v) then 1 else 0),
                      asked + (if e == Receive(v) then 1 else 0) + (if e == Click(v) then 1 else 0))
  {
    assert Step(w, e).viewers[v] == Change(w, e, v);
  }

  lemma {:induction false} AccountRun(w: World, es: seq<Event>, v: nat, settled: nat, asked: nat)
    requires ValidRun(w, es) && (if v in w.viewers then Accounted(w.viewers[v].page, settled, asked)
                                 else settled == 0 && asked == 0)
    requires v in Run(w, es).viewers
    ensures Accounted(Run(w, es).viewers[v].page, settled + Times(es, Settled(v)), asked + Asked(es, v))
    decreases |es|
  {
    if es != [] {
      var e, t := es[0], Step(w, es[0]);
      if v in w.viewers {
        AccountStep(w, e, v, settled, asked);
        AccountRun(t, es[1..], v, settled + (if e == Settled(v) then 1 else 0),
                   asked + (if e == Receive(v) then 1 else 0) + (if e == Click(v) then 1 else 0));
      } else {
        assert e != Settled(v) && e != Receive(v) && e != Click(v);
        AccountRun(t, es[1..], v, 0, 0);
      }
    }
  }

  /**
   Single flight: in every reachable state a page has begun as many fetches as have settled, and one more while one is
   in flight; and never more than messages and clicks asked for.
   */
  lemma SingleFlight(es: seq<Event>, v: nat)
    requires ValidRun(START, es) && v in Run(START, es).viewers
    ensures Accounted(Run(START, es).viewers[v].page, Times(es, Settled(v)), Asked(es, v))
  {
    AccountRun(START, es, v, 0, 0);
  }

  // ---------- And it arrives ----------

  /** The events by which a viewer's own stream and page make progress. */
  predicate Own(e: Event, v: nat) {
    e == Greet(v) || e == Forward(v) || e == Receive(v) || e == Settled(v)
  }

  /** What those events use up. */
  function Work(x: Viewer): nat {
    (if x.greeting then 4 else 0) + 4 * |x.ch| + 3 * |x.wire| + (if x.page.queued then 1 else 0)
    + (if x.page.inFlight then 1 else 0)
  }

  /** Each of them leaves less to do, so without new notifications a viewer comes to rest. */
  lemma OwnEventsEnd(w: World, e: Event, v: nat)
    requires Allowed(w, e) && v in w.viewers && Own(e, v)
    ensures v in Step(w, e).viewers && Work(Step(w, e).viewers[v]) < Work(w.viewers[v])
  {
    assert Step(w, e).viewers[v] == Change(w, e, v);
  }

  /** And a connected viewer at rest, with none of them possible, is up to date. */
  lemma AtRestIsFresh(es: seq<Event>, v: nat)
    requires ValidRun(START, es) && v in Run(START, es).viewers && Run(START, es).viewers[v].connected
    requires forall e :: Own(e, v) ==> !Allowed(Run(START, es), e)
    ensures var w := Run(START, es);
            Fresh(w.viewers[v], Count(w, w.viewers[v].pollId)) && !w.viewers[v].page.inFlight
  {
    var w := Run(START, es);
    RunKeepsCovered(START, es);
    assert Own(Greet(v), v) && Own(Forward(v), v) && Own(Receive(v), v) && Own(Settled(v), v);
  }

  /** The longest a viewer can go on by itself. */
  lemma {:induction false} OwnRunIsShort(w: World, es: seq<Event>, v: nat)
    requires ValidRun(w, es) && v in w.viewers && forall e :: e in es ==> Own(e, v)
    ensures |es| <= Work(w.viewers[v])
    decreases |es|
  {
    if es != [] {
      assert es[0] in es;
      OwnEventsEnd(w, es[0], v);
      OwnRunIsShort(Step(w, es[0]), es[1..], v);
    }
  }
}
