// Where messages go, over whole runs.
module Routing {
  import opened Bytes
  import opened Commands
  import opened Connection
  import opened Runs
  import opened Text
  import opened Wrappers

  // The message a server command carries, if it carries one.
  function Carried(c: ServerCommand): Option<Message> {
    match c
    case SMsg(m) =>
      Some(Message(subject := m.subject, sid := m.sid, replyTo := m.replyTo, headers := map[], payload := m.payload))
    case SHMsg(m) =>
      Some(Message(
             subject := m.subject, sid := m.sid, replyTo := m.replyTo, headers := m.headers, payload := m.payload))
    case _ => None
  }

  // Field by field: this message is what this command delivers.
  predicate Delivers(c: ServerCommand, m: Message) {
    match c
    case SMsg(x) =>
      && m.subject == x.subject && m.sid == x.sid && m.replyTo == x.replyTo
      && m.headers == map[] && m.payload == x.payload
    case SHMsg(x) =>
      && m.subject == x.subject && m.sid == x.sid && m.replyTo == x.replyTo
      && m.headers == x.headers && m.payload == x.payload
    case _ => false
  }

  predicate AllDelivered(cs: seq<ServerCommand>, ms: seq<Message>) {
    |cs| == |ms| && forall i :: 0 <= i < |cs| ==> Delivers(cs[i], ms[i])
  }

  // The command is a MSG or an HMSG under this SID.
  predicate AddressedTo(c: ServerCommand, sid: bytes) {
    (c.SMsg? && c.msg.sid == sid) || (c.SHMsg? && c.hmsg.sid == sid)
  }

  function MessageOf(e: Event): Option<Message> {
    if e.ServerInput? then Carried(e.server) else None
  }

  // Subscription number k + 1 is live after `es`, and the connection is up.
  ghost predicate Listening(t: Timeouts, es: seq<Event>, k: nat) {
    UpAfter(t, es) && Live(ClientInputs(es), Decimal(k + 1))
  }

  // The messages that arrived for subscription k + 1 while it was listening.
  ghost function Routed(t: Timeouts, es: seq<Event>, k: nat): seq<Message> {
    if es == [] then []
    else
      var m := MessageOf(Last(es));
      Routed(t, Front(es), k)
      + if m.Some? && m.value.sid == Decimal(k + 1) && Listening(t, Front(es), k) then [m.value] else []
  }

  // The commands they arrived in.
  ghost function RoutedCommands(t: Timeouts, es: seq<Event>, k: nat): seq<ServerCommand> {
    if es == [] then []
    else
      var e := Last(es);
      RoutedCommands(t, Front(es), k)
      + if e.ServerInput? && AddressedTo(e.server, Decimal(k + 1)) && Listening(t, Front(es), k) then [e.server] else []
  }

  lemma {:induction false} RoutedContents(t: Timeouts, es: seq<Event>, k: nat)
    ensures AllDelivered(RoutedCommands(t, es, k), Routed(t, es, k))
    decreases |es|
  {
    hide Listening, Decimal;
    if es != [] {
      RoutedContents(t, Front(es), k);
    }
  }

  // A step changes the channels in two ways only: a new, empty one per new
  // subscription, and one more message on the channel its SID leads to.
  lemma ClientKeepsChannels(w: World, c: ConnectionCommand, now: Instant)
    ensures |w.channels| <= |OnClient(w, c, now).channels| <= |w.channels| + 1
    ensures forall k :: 0 <= k < |w.channels| ==> OnClient(w, c, now).channels[k] == w.channels[k]
    ensures |OnClient(w, c, now).channels| == |w.channels| + 1 ==> OnClient(w, c, now).channels[|w.channels|] == []
  {
    hide Decimal;
  }

  lemma {:induction false} ReplayKeepsChannelsEmpty(w: World, backlog: seq<(ConnectionCommand, Instant)>, now: Instant)
    requires w.channels == []
    ensures forall k :: 0 <= k < |Replay(w, backlog, now).channels| ==> Replay(w, backlog, now).channels[k] == []
    decreases |backlog|
  {
    hide OnClient;
    if backlog != [] {
      ReplayKeepsChannelsEmpty(w, Front(backlog), now);
      ClientKeepsChannels(Replay(w, Front(backlog), now), Last(backlog).0, now);
    }
  }

  lemma {:induction false} NothingRoutedEarly(t: Timeouts, es: seq<Event>, k: nat)
    requires FirstServer(es).None?
    ensures Routed(t, es, k) == []
    decreases |es|
  {
    if es != [] {
      NothingRoutedEarly(t, Front(es), k);
    }
  }

  // Subscriptions that do not exist yet have received nothing.
  lemma {:induction false} NothingRoutedYet(t: Timeouts, es: seq<Event>, k: nat)
    requires k >= Subs(ClientInputs(es))
    ensures Routed(t, es, k) == []
    decreases |es|
  {
    if es != [] {
      var cs := ClientInputs(Front(es));
      if Last(es).ClientInput? {
        assert Front(cs + [Last(es).client]) == cs;
      } else {
        assert cs + [] == cs;
      }
      NothingRoutedYet(t, Front(es), k);
      if Live(cs, Decimal(k + 1)) {
        LiveIsIssued(cs, Decimal(k + 1));
        var n :| 1 <= n <= Subs(cs) && Decimal(k + 1) == Decimal(n);
        DecimalInjective(k + 1, n);
        assert false;
      }
    }
  }

  ghost predicate Histories(t: Timeouts, es: seq<Event>, w: World) {
    forall k: nat :: k < |w.channels| ==> w.channels[k] == Routed(t, es, k)
  }

  // A message reaches the channel of its subscription if that is live, and no
  // other channel.
  lemma DeliverExactly(w: World, cs: seq<ConnectionCommand>, m: Message, k: nat)
    requires Up(w) && SidsAgree(w, cs) && k < |w.channels|
    ensures |Deliver(w, m.sid, m).channels| == |w.channels|
    ensures Deliver(w, m.sid, m).channels[k]
         == w.channels[k] + if m.sid == Decimal(k + 1) && Live(cs, Decimal(k + 1)) then [m] else []
  {
    hide Decimal, LiveSince;
    var sid := m.sid;
    if sid in w.conn.subscribers {
      LiveIsIssued(cs, sid);
      var n :| 1 <= n <= Subs(cs) && sid == Decimal(n);
      assert w.conn.subscribers[Decimal(n)] == n - 1;
      if sid == Decimal(k + 1) {
        DecimalInjective(n, k + 1);
      }
    }
  }

  lemma UpRoutes(t: Timeouts, front: seq<Event>, e: Event, w: World)
    requires Up(w) && UpAfter(t, front) && SidsAgree(w, ClientInputs(front)) && Histories(t, front, w)
    requires !e.ClientInput?
    ensures Histories(t, front + [e], Apply(t, w, e))
  {
    hide Live, SidsAgree, UpAfter, Decimal, FirstServer;
    assert Front(front + [e]) == front;
    var w' := Apply(t, w, e);
    forall k: nat | k < |w'.channels|
      ensures w'.channels[k] == Routed(t, front + [e], k)
    {
      if MessageOf(e).Some? {
        DeliverExactly(w, ClientInputs(front), MessageOf(e).value, k);
      }
    }
  }

  lemma ClientRoutes(t: Timeouts, front: seq<Event>, e: Event, w: World)
    requires Up(w) && SidsAgree(w, ClientInputs(front)) && Histories(t, front, w) && e.ClientInput?
    ensures Histories(t, front + [e], Apply(t, w, e))
  {
    hide Live, UpAfter, Decimal, OnClient;
    assert Front(front + [e]) == front;
    var w' := Apply(t, w, e);
    ClientKeepsChannels(w, e.client, e.now);
    forall k: nat | k < |w'.channels|
      ensures w'.channels[k] == Routed(t, front + [e], k)
    {
      if k == |w.channels| {
        NothingRoutedYet(t, front, k);
      }
    }
  }

  lemma InfoRoutes(t: Timeouts, front: seq<Event>, e: Event, w: World)
    requires w.conn.AwaitingInfo? && FirstServer(front).None? && w.channels == []
    ensures Histories(t, front + [e], Apply(t, w, e))
  {
    hide OnClient, Decimal;
    assert Front(front + [e]) == front;
    if e.ServerInput? && e.server.SInfo? {
      ReplayKeepsChannelsEmpty(Connected(w), w.conn.preliminary, e.now);
      forall k: nat
        ensures Routed(t, front + [e], k) == []
      {
        NothingRoutedEarly(t, front, k);
      }
    } else {
      AwaitingOpensNothing(t, w, e);
    }
  }

  lemma AwaitingOpensNothing(t: Timeouts, w: World, e: Event)
    requires w.conn.AwaitingInfo? && !(e.ServerInput? && e.server.SInfo?)
    ensures Apply(t, w, e).channels == w.channels
  {
  }

  lemma DeadRoutes(t: Timeouts, front: seq<Event>, e: Event, w: World)
    requires w.conn.NotInfoReceived? || w.conn.ConnectionLost?
    requires !UpAfter(t, front) && Histories(t, front, w)
    ensures Histories(t, front + [e], Apply(t, w, e))
  {
    assert Front(front + [e]) == front;
  }

  // Every channel's history is exactly the messages that arrived for its SID
  // while connected and subscribed, in arrival order.
  lemma {:induction false} RoutingIsExact(t: Timeouts, es: seq<Event>)
    requires Subs(ClientInputs(es)) + 1 < USIZE_LIMIT
    ensures forall k: nat :: k < |Run(t, es).channels| ==> Run(t, es).channels[k] == Routed(t, es, k)
    decreases |es|
  {
    hide Apply, SidsAgree, LogAgrees, Routed, UpAfter;
    if es != [] {
      var front, e := Front(es), Last(es);
      var cs := ClientInputs(front);
      if e.ClientInput? {
        assert Front(cs + [e.client]) == cs;
        SubsMonotone(cs + [e.client]);
      } else {
        assert cs + [] == cs;
      }
      RoutingIsExact(t, front);
      RunAgrees(t, front);
      StateExactly(t, front);
      var w := Run(t, front);
      assert es == front + [e];
      match w.conn
      case AwaitingInfo(_) => InfoRoutes(t, front, e, w);
      case InfoReceived(_, _, _, _) =>
        if e.ClientInput? { ClientRoutes(t, front, e, w); } else { UpRoutes(t, front, e, w); }
      case NotInfoReceived => NotUp(t, front); DeadRoutes(t, front, e, w);
      case ConnectionLost => NotUp(t, front); DeadRoutes(t, front, e, w);
      assert Histories(t, es, Run(t, es));
    }
  }

  // Message by message and field by field: every channel holds what was in the
  // MSG and HMSG commands that arrived for it.
  lemma ContentsAreExact(t: Timeouts, es: seq<Event>)
    requires Subs(ClientInputs(es)) + 1 < USIZE_LIMIT
    ensures forall k: nat :: k < |Run(t, es).channels| ==>
              AllDelivered(RoutedCommands(t, es, k), Run(t, es).channels[k])
  {
    hide Run, Routed, RoutedCommands, AllDelivered;
    RoutingIsExact(t, es);
    forall k: nat | k < |Run(t, es).channels|
      ensures AllDelivered(RoutedCommands(t, es, k), Run(t, es).channels[k])
    {
      RoutedContents(t, es, k);
    }
  }

  lemma NotUp(t: Timeouts, es: seq<Event>)
    requires Run(t, es).conn.NotInfoReceived? || Run(t, es).conn.ConnectionLost?
    ensures !UpAfter(t, es)
  {
    StateExactly(t, es);
  }

  lemma {:induction false} ReplayKeepsChannels(w: World, backlog: seq<(ConnectionCommand, Instant)>, now: Instant)
    ensures |Replay(w, backlog, now).channels| >= |w.channels|
    decreases |backlog|
  {
    hide OnClient;
    if backlog != [] {
      ReplayKeepsChannels(w, Front(backlog), now);
      ClientKeepsChannels(Replay(w, Front(backlog), now), Last(backlog).0, now);
    }
  }

  lemma ChannelsStay(t: Timeouts, w: World, e: Event)
    ensures |Apply(t, w, e).channels| >= |w.channels|
  {
    hide OnClient, Replay;
    if e.ClientInput? {
      ClientKeepsChannels(w, e.client, e.now);
    } else if e.ServerInput? && w.conn.AwaitingInfo? {
      ReplayKeepsChannels(Connected(w), w.conn.preliminary, e.now);
    }
  }

  lemma {:induction false} ChannelsStayOpen(t: Timeouts, es: seq<Event>, more: seq<Event>)
    ensures |Run(t, es + more).channels| >= |Run(t, es).channels|
    decreases |more|
  {
    hide Apply;
    if more == [] {
      assert es + more == es;
    } else {
      assert es + more == (es + Front(more)) + [Last(more)];
      RunOne(t, es + Front(more), Last(more));
      ChannelsStayOpen(t, es, Front(more));
      ChannelsStay(t, Run(t, es + Front(more)), Last(more));
    }
  }

  // Once an issued SID has been given up, nothing is ever delivered to its
  // channel again, whatever the server sends.
  lemma SilenceAfterUnsubscribe(t: Timeouts, es: seq<Event>, more: seq<Event>, k: nat)
    requires Subs(ClientInputs(es + more)) + 1 < USIZE_LIMIT
    requires k < Subs(ClientInputs(es)) && !Live(ClientInputs(es), Decimal(k + 1))
    requires k < |Run(t, es).channels|
    ensures k < |Run(t, es + more).channels|
    ensures Run(t, es + more).channels[k] == Run(t, es).channels[k]
  {
    hide Live, Decimal, Run, Routed;
    ClientInputsAppend(es, more);
    DeadStaysDead(ClientInputs(es), ClientInputs(more), k + 1);
    ChannelsStayOpen(t, es, more);
    RoutingIsExact(t, es);
    RoutingIsExact(t, es + more);
    NothingRoutedAfter(t, es, more, k);
  }

  lemma {:induction false} NothingRoutedAfter(t: Timeouts, es: seq<Event>, more: seq<Event>, k: nat)
    requires k < Subs(ClientInputs(es)) && !Live(ClientInputs(es), Decimal(k + 1))
    ensures Routed(t, es + more, k) == Routed(t, es, k)
    decreases |more|
  {
    hide Live, Decimal;
    if more == [] {
      assert es + more == es;
    } else {
      assert Front(es + more) == es + Front(more);
      NothingRoutedAfter(t, es, Front(more), k);
      ClientInputsAppend(es, Front(more));
      DeadStaysDead(ClientInputs(es), ClientInputs(Front(more)), k + 1);
    }
  }
}
