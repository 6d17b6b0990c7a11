// Whole runs of the connection: what state a run ends in, what it transmits,
// which subscriptions it has issued, where messages went. Every claim is
// against definitions that look at the events only.
module Runs {
  import opened Bytes
  import opened Commands
  import opened Connection
  import opened Text
  import opened Wrappers

  datatype Event =
    | ServerInput(server: ServerCommand, now: Instant)
    | ClientInput(client: ConnectionCommand, now: Instant)
    | PollTransmit
    | SendPing(now: Instant)
    | SendPong(now: Instant)
    | KeepAlive(now: Instant)

  function Apply(t: Timeouts, w: World, e: Event): World {
    match e
    case ServerInput(command, now) => OnServer(w, command, now)
    case ClientInput(command, now) => OnClient(w, command, now)
    case PollTransmit => OnPoll(w)
    case SendPing(now) => OnSendPing(t, w, now)
    case SendPong(now) => OnSendPong(t, w, now)
    case KeepAlive(now) => OnKeepAlive(t, w, now)
  }

  function Front<T>(s: seq<T>): seq<T>
    requires s != []
  {
    s[..|s| - 1]
  }

  function Last<T>(s: seq<T>): T
    requires s != []
  {
    s[|s| - 1]
  }

  function Run(t: Timeouts, es: seq<Event>): World {
    if es == [] then INITIAL else Apply(t, Run(t, Front(es)), Last(es))
  }

  lemma RunOne(t: Timeouts, es: seq<Event>, e: Event)
    ensures Run(t, es + [e]) == Apply(t, Run(t, es), e)
  {
    assert Front(es + [e]) == es;
  }

  // ------------------------------------------------- the state a run ends in

  function FirstServer(es: seq<Event>): Option<ServerCommand> {
    if es == [] then None
    else if FirstServer(Front(es)).Some? then FirstServer(Front(es))
    else if Last(es).ServerInput? then Some(Last(es).server)
    else None
  }

  predicate Greeted(es: seq<Event>) {
    FirstServer(es).Some? && FirstServer(es).value.SInfo?
  }

  // When the latest PONG came in.
  function LastPong(es: seq<Event>): Option<Instant> {
    if es == [] then None
    else if Last(es).ServerInput? && Last(es).server.SPong? then Some(Last(es).now)
    else LastPong(Front(es))
  }

  // Event i is a keep-alive call that comes too late after the latest PONG, by
  // a clock that may go backwards.
  predicate Expired(t: Timeouts, es: seq<Event>, i: nat) {
    i < |es| && es[i].KeepAlive? && LastPong(es[..i]).Some?
    && (t.keepAlive == 0 || LastPong(es[..i]).value + t.keepAlive <= es[i].now)
  }

  ghost predicate Lost(t: Timeouts, es: seq<Event>) {
    exists i: nat :: Expired(t, es, i)
  }

  ghost predicate UpAfter(t: Timeouts, es: seq<Event>) {
    Greeted(es) && !Lost(t, es)
  }

  lemma LostUnfold(t: Timeouts, es: seq<Event>)
    requires es != []
    ensures Lost(t, es) <==> Lost(t, Front(es)) || Expired(t, es, |es| - 1)
  {
    forall i: nat | i < |es| - 1
      ensures Expired(t, es, i) <==> Expired(t, Front(es), i)
    {
      assert Front(es)[..i] == es[..i];
    }
  }

  lemma PongNeedsServer(es: seq<Event>)
    requires LastPong(es).Some?
    ensures FirstServer(es).Some?
  {
  }

  ghost predicate EndsIn(t: Timeouts, es: seq<Event>, conn: ConnState) {
    match conn
    case AwaitingInfo(_) => FirstServer(es).None?
    case NotInfoReceived => FirstServer(es).Some? && !Greeted(es)
    case ConnectionLost => Greeted(es) && Lost(t, es)
    case InfoReceived(_, keepAlive, _, _) => UpAfter(t, es) && keepAlive.lastPongReceivedAt == LastPong(es)
  }

  lemma ReplayStaysUp(w: World, backlog: seq<(ConnectionCommand, Instant)>, now: Instant)
    requires Up(w)
    ensures Up(Replay(w, backlog, now))
    ensures Replay(w, backlog, now).conn.keepAlive == w.conn.keepAlive
    ensures Replay(w, backlog, now).polled == w.polled
  {
  }

  lemma {:induction false} StateExactly(t: Timeouts, es: seq<Event>)
    ensures EndsIn(t, es, Run(t, es).conn)
    decreases |es|
  {
    if es == [] {
      assert !Lost(t, es);
    } else {
      var w := Run(t, Front(es));
      StateExactly(t, Front(es));
      LostUnfold(t, es);
      assert es[..|es| - 1] == Front(es);
      match w.conn
      case AwaitingInfo(preliminary) =>
        if LastPong(Front(es)).Some? {
          PongNeedsServer(Front(es));
        }
        NotLostBeforeInfo(t, Front(es));
        if Last(es).ServerInput? && Last(es).server.SInfo? {
          ReplayStaysUp(Connected(w), preliminary, Last(es).now);
        }
      case InfoReceived(_, _, _, _) =>
        StepFromUp(t, w, Last(es));
      case NotInfoReceived =>
      case ConnectionLost =>
    }
  }

  lemma NotLostBeforeInfo(t: Timeouts, es: seq<Event>)
    requires FirstServer(es).None?
    ensures !Lost(t, es)
    decreases |es|
  {
    if es != [] {
      LostUnfold(t, es);
      NotLostBeforeInfo(t, Front(es));
      assert es[..|es| - 1] == Front(es);
      if LastPong(Front(es)).Some? {
        PongNeedsServer(Front(es));
      }
    }
  }

  // From an established connection only an expired keep-alive call leads away,
  // and only a PONG changes the stamp it is judged by.
  lemma StepFromUp(t: Timeouts, w: World, e: Event)
    requires Up(w)
    ensures var w' := Apply(t, w, e);
            if e.KeepAlive? && KeepAliveActs(t, w, e.now) then w'.conn == ConnectionLost
            else Up(w') && w'.conn.keepAlive.lastPongReceivedAt
                           == if e.ServerInput? && e.server.SPong? then Some(e.now)
                              else w.conn.keepAlive.lastPongReceivedAt
  {
  }

  // The connection is lost exactly when, after an INFO greeting, some
  // keep-alive call came at least `keep_alive` after the latest PONG before it.
  lemma LossIsExact(t: Timeouts, es: seq<Event>)
    ensures Run(t, es).conn.ConnectionLost? <==> Greeted(es) && exists i: nat :: Expired(t, es, i)
    ensures Run(t, es).conn.InfoReceived? <==> Greeted(es) && forall i: nat :: !Expired(t, es, i)
    ensures Run(t, es).conn.NotInfoReceived? <==> FirstServer(es).Some? && !Greeted(es)
    ensures Run(t, es).conn.AwaitingInfo? <==> FirstServer(es).None?
  {
    StateExactly(t, es);
  }

  // NotInfoReceived and ConnectionLost are final: nothing changes, inside or
  // outside, whatever happens next.
  lemma {:induction false} DeadStatesAbsorb(t: Timeouts, es: seq<Event>, more: seq<Event>)
    requires Run(t, es).conn.NotInfoReceived? || Run(t, es).conn.ConnectionLost?
    ensures Run(t, es + more) == Run(t, es)
    decreases |more|
  {
    if more == [] {
      assert es + more == es;
    } else {
      assert es + more == (es + Front(more)) + [Last(more)];
      DeadStatesAbsorb(t, es, Front(more));
      RunOne(t, es + Front(more), Last(more));
    }
  }

  // ------------------------------------------------ what client commands mean

  function ClientInputs(es: seq<Event>): seq<ConnectionCommand> {
    if es == [] then []
    else ClientInputs(Front(es)) + if Last(es).ClientInput? then [Last(es).client] else []
  }

  // Number of subscriptions asked for.
  function Subs(cs: seq<ConnectionCommand>): nat {
    if cs == [] then 0 else Subs(Front(cs)) + if Last(cs).DoSubscribe? then 1 else 0
  }

  // What a client command puts on the wire when it is the one that asks for
  // subscription number `next`, or comes before it.
  function FramesOfOne(c: ConnectionCommand, next: nat): seq<ClientCommand> {
    match c
    case DoSubscribe(subject, options, _) =>
      [CSubscribe(Subscribe(subject, options.queueGroup, Decimal(next)))]
      + if options.maxMsgs.Some? then [CUnsubscribe(Unsubscribe(Decimal(next), options.maxMsgs))] else []
    case DoUnsubscribe(sid, maxMsgs) => [CUnsubscribe(Unsubscribe(sid, maxMsgs))]
    case DoPublish(subject, payload) => [CPublish(Publish(subject, None, |payload|, payload))]
  }

  function FramesOf(cs: seq<ConnectionCommand>): seq<ClientCommand> {
    if cs == [] then [] else FramesOf(Front(cs)) + FramesOfOne(Last(cs), Subs(Front(cs)) + 1)
  }

  function ResponsesOf(cs: seq<ConnectionCommand>): seq<Response> {
    if cs == [] then []
    else
      var k := Subs(Front(cs));
      ResponsesOf(Front(cs))
      + if Last(cs).DoSubscribe? then [Response(Last(cs).sender, Decimal(k + 1), k, Last(cs).options.maxMsgs)] else []
  }

  predicate Unsubscribes(c: ConnectionCommand, sid: bytes) {
    c.DoUnsubscribe? && c.sid == sid
  }

  // Command i is the subscription that got this SID, and no later command
  // gives the SID up.
  predicate LiveSince(cs: seq<ConnectionCommand>, sid: bytes, i: nat) {
    && i < |cs| && cs[i].DoSubscribe? && sid == Decimal(Subs(cs[..i]) + 1)
    && forall j :: i < j < |cs| ==> !Unsubscribes(cs[j], sid)
  }

  ghost predicate Live(cs: seq<ConnectionCommand>, sid: bytes) {
    exists i: nat :: LiveSince(cs, sid, i)
  }

  lemma LiveUnfold(cs: seq<ConnectionCommand>, sid: bytes)
    requires cs != []
    ensures Live(cs, sid) <==>
            || (Last(cs).DoSubscribe? && sid == Decimal(Subs(Front(cs)) + 1))
            || (Live(Front(cs), sid) && !Unsubscribes(Last(cs), sid))
  {
    var n := |cs| - 1;
    assert cs[..n] == Front(cs);
    forall i: nat | i < n
      ensures LiveSince(cs, sid, i) <==> LiveSince(Front(cs), sid, i) && !Unsubscribes(Last(cs), sid)
    {
      assert cs[..i] == Front(cs)[..i];
    }
    if Last(cs).DoSubscribe? && sid == Decimal(Subs(Front(cs)) + 1) {
      assert LiveSince(cs, sid, n);
    }
  }

  // A live SID is one of the numbers issued so far.
  lemma {:induction false} LiveIsIssued(cs: seq<ConnectionCommand>, sid: bytes)
    requires Live(cs, sid)
    ensures exists k :: 1 <= k <= Subs(cs) && sid == Decimal(k)
    decreases |cs|
  {
    LiveUnfold(cs, sid);
    if Live(Front(cs), sid) {
      LiveIsIssued(Front(cs), sid);
    }
  }

  // An issued SID that was given up is never live again.
  lemma {:induction false} DeadStaysDead(cs: seq<ConnectionCommand>, more: seq<ConnectionCommand>, k: nat)
    requires 1 <= k <= Subs(cs) && !Live(cs, Decimal(k))
    ensures !Live(cs + more, Decimal(k))
    ensures Subs(cs) <= Subs(cs + more)
    decreases |more|
  {
    if more == [] {
      assert cs + more == cs;
    } else {
      var all := cs + more;
      assert Front(all) == cs + Front(more);
      DeadStaysDead(cs, Front(more), k);
      LiveUnfold(all, Decimal(k));
      if Decimal(k) == Decimal(Subs(Front(all)) + 1) {
        DecimalInjective(k, Subs(Front(all)) + 1);
      }
    }
  }

  // ---------------------------------------------------- the established core

  predicate IsTimer(c: ClientCommand) {
    c.CPing? || c.CPong?
  }

  function WithoutTimers(log: seq<ClientCommand>): seq<ClientCommand> {
    if log == [] then []
    else WithoutTimers(Front(log)) + if IsTimer(Last(log)) then [] else [Last(log)]
  }

  lemma WithoutTimersOneMore(log: seq<ClientCommand>, c: ClientCommand)
    ensures WithoutTimers(log + [c]) == WithoutTimers(log) + if IsTimer(c) then [] else [c]
  {
    assert Front(log + [c]) == log;
  }

  ghost predicate SidsAgree(w: World, cs: seq<ConnectionCommand>)
    requires Up(w)
  {
    && w.conn.sidGenerator == Subs(cs) + 1
    && |w.channels| == Subs(cs)
    && w.responses == ResponsesOf(cs)
    && (forall sid :: sid in w.conn.subscribers <==> Live(cs, sid))
    && (forall k: nat :: Decimal(k) in w.conn.subscribers ==> w.conn.subscribers[Decimal(k)] == k - 1)
  }

  ghost predicate LogAgrees(w: World, cs: seq<ConnectionCommand>)
    requires Up(w)
  {
    && w.polled + w.conn.transmits == w.log
    && w.log != [] && w.log[0] == CConnect(HELLO)
    && WithoutTimers(w.log) == [CConnect(HELLO)] + FramesOf(cs)
  }

  lemma EnqueueExtendsLog(w: World, c: ClientCommand, before: seq<ClientCommand>)
    requires Up(w) && w.polled + w.conn.transmits == w.log && w.log != [] && w.log[0] == CConnect(HELLO)
    requires WithoutTimers(w.log) == before
    ensures var e := Enqueue(w, c);
            && e.polled + e.conn.transmits == e.log
            && e.log != [] && e.log[0] == CConnect(HELLO)
            && WithoutTimers(e.log) == before + if IsTimer(c) then [] else [c]
  {
    WithoutTimersOneMore(w.log, c);
  }

  // Two enqueues in a row.
  lemma EnqueueTwiceExtendsLog(w: World, c: ClientCommand, d: ClientCommand, before: seq<ClientCommand>)
    requires Up(w) && w.polled + w.conn.transmits == w.log && w.log != [] && w.log[0] == CConnect(HELLO)
    requires WithoutTimers(w.log) == before && !IsTimer(c) && !IsTimer(d)
    ensures var e := Enqueue(Enqueue(w, c), d);
            && e.polled + e.conn.transmits == e.log
            && e.log != [] && e.log[0] == CConnect(HELLO)
            && WithoutTimers(e.log) == before + [c, d]
  {
    hide WithoutTimers;
    EnqueueExtendsLog(w, c, before);
    EnqueueExtendsLog(Enqueue(w, c), d, before + [c]);
  }

  lemma EnqueueStaysUp()
    ensures forall w, c | Up(w) :: Up(Enqueue(w, c))
  {
  }

  lemma IssueSendsNothing(w: World, sid: bytes, maxMsgs: Option<nat>, sender: nat)
    requires Up(w)
    ensures var i := Issue(w, sid, maxMsgs, sender);
            Up(i) && i.polled == w.polled && i.conn.transmits == w.conn.transmits && i.log == w.log
  {
  }

  lemma SubscribeStepLog(w: World, cs: seq<ConnectionCommand>, c: ConnectionCommand)
    requires c.DoSubscribe? && Up(w) && LogAgrees(w, cs) && w.conn.sidGenerator == Subs(cs) + 1
    ensures LogAgrees(OnSubscribe(w, c.subject, c.options, c.sender), cs + [c])
  {
    hide WithoutTimers, Decimal, Issue, Enqueue, FramesOf;
    FramesOneMore(cs, c);
    var before := [CConnect(HELLO)] + FramesOf(cs);
    EnqueueStaysUp();
    var sid := Decimal(w.conn.sidGenerator);
    var issued := Issue(w, sid, c.options.maxMsgs, c.sender);
    IssueSendsNothing(w, sid, c.options.maxMsgs, c.sender);
    var sub := CSubscribe(Subscribe(c.subject, c.options.queueGroup, sid));
    if c.options.maxMsgs.None? {
      EnqueueExtendsLog(issued, sub, before);
    } else {
      EnqueueTwiceExtendsLog(issued, sub, CUnsubscribe(Unsubscribe(sid, c.options.maxMsgs)), before);
    }
  }

  lemma FramesOneMore(cs: seq<ConnectionCommand>, c: ConnectionCommand)
    ensures FramesOf(cs + [c]) == FramesOf(cs) + FramesOfOne(c, Subs(cs) + 1)
  {
    hide FramesOfOne, Decimal;
    assert Front(cs + [c]) == cs;
  }

  lemma ClientStepLog(w: World, cs: seq<ConnectionCommand>, c: ConnectionCommand, now: Instant)
    requires Up(w) && LogAgrees(w, cs) && w.conn.sidGenerator == Subs(cs) + 1
    ensures Up(OnClient(w, c, now))
    ensures LogAgrees(OnClient(w, c, now), cs + [c])
  {
    hide WithoutTimers, Decimal, FramesOf;
    FramesOneMore(cs, c);
    var before := [CConnect(HELLO)] + FramesOf(cs);
    match c
    case DoSubscribe(_, _, _) =>
      SubscribeStepLog(w, cs, c);
    case DoUnsubscribe(sid, maxMsgs) =>
      EnqueueExtendsLog(w, CUnsubscribe(Unsubscribe(sid, maxMsgs)), before);
    case DoPublish(subject, payload) =>
      EnqueueExtendsLog(w, CPublish(Publish(subject, None, |payload|, payload)), before);
  }

  lemma ClientStepSubscribers(w: World, cs: seq<ConnectionCommand>, c: ConnectionCommand, now: Instant, sid: bytes)
    requires Up(w) && SidsAgree(w, cs)
    ensures Up(OnClient(w, c, now))
    ensures sid in OnClient(w, c, now).conn.subscribers <==> Live(cs + [c], sid)
  {
    hide Decimal, LiveSince, Live, ResponsesOf;
    assert Front(cs + [c]) == cs;
    LiveUnfold(cs + [c], sid);
  }

  lemma ClientStepChannel(w: World, cs: seq<ConnectionCommand>, c: ConnectionCommand, now: Instant, k: nat)
    requires Up(w) && SidsAgree(w, cs)
    requires Up(OnClient(w, c, now)) && Decimal(k) in OnClient(w, c, now).conn.subscribers
    ensures OnClient(w, c, now).conn.subscribers[Decimal(k)] == k - 1
  {
    hide Decimal, Live, ResponsesOf;
    if c.DoSubscribe? && Decimal(k) == Decimal(Subs(cs) + 1) {
      DecimalInjective(k, Subs(cs) + 1);
    }
  }

  lemma ClientStepSids(w: World, cs: seq<ConnectionCommand>, c: ConnectionCommand, now: Instant)
    requires Up(w) && SidsAgree(w, cs) && Subs(cs + [c]) + 1 < USIZE_LIMIT
    ensures Up(OnClient(w, c, now))
    ensures SidsAgree(OnClient(w, c, now), cs + [c])
  {
    hide Decimal, Live;
    var cs' := cs + [c];
    var w' := OnClient(w, c, now);
    assert Front(cs') == cs;
    forall sid
      ensures sid in w'.conn.subscribers <==> Live(cs', sid)
    {
      ClientStepSubscribers(w, cs, c, now, sid);
    }
    forall k: nat | Decimal(k) in w'.conn.subscribers
      ensures w'.conn.subscribers[Decimal(k)] == k - 1
    {
      ClientStepChannel(w, cs, c, now, k);
    }
  }

  function Requested(backlog: seq<(ConnectionCommand, Instant)>): seq<ConnectionCommand> {
    if backlog == [] then [] else Requested(Front(backlog)) + [Last(backlog).0]
  }

  lemma SubsMonotone(cs: seq<ConnectionCommand>)
    requires cs != []
    ensures Subs(Front(cs)) <= Subs(cs)
  {
  }

  lemma FreshConnection(w: World)
    requires w.channels == [] && w.responses == [] && w.log == [] && w.polled == []
    ensures SidsAgree(Connected(w), []) && LogAgrees(Connected(w), [])
  {
    WithoutTimersOneMore([], CConnect(HELLO));
    assert [] + [CConnect(HELLO)] == [CConnect(HELLO)];
    forall sid
      ensures !Live([], sid)
    {
    }
  }

  lemma {:induction false} ReplayAgrees(w: World, backlog: seq<(ConnectionCommand, Instant)>, now: Instant)
    requires w.channels == [] && w.responses == [] && w.log == [] && w.polled == []
    requires Subs(Requested(backlog)) + 1 < USIZE_LIMIT
    ensures var r := Replay(Connected(w), backlog, now);
            Up(r) && SidsAgree(r, Requested(backlog)) && LogAgrees(r, Requested(backlog))
    decreases |backlog|
  {
    hide SidsAgree, LogAgrees, OnClient, Connected;
    if backlog == [] {
      FreshConnection(w);
      assert Up(Connected(w)) by { ConnectedIsUp(w); }
    } else {
      var cs := Requested(Front(backlog));
      assert Front(Requested(backlog)) == cs;
      ReplayAgrees(w, Front(backlog), now);
      var r := Replay(Connected(w), Front(backlog), now);
      SidGeneratorAgrees(r, cs);
      ClientStepLog(r, cs, Last(backlog).0, now);
      ClientStepSids(r, cs, Last(backlog).0, now);
    }
  }

  lemma ConnectedIsUp(w: World)
    ensures Up(Connected(w))
  {
  }

  lemma SidGeneratorAgrees(w: World, cs: seq<ConnectionCommand>)
    requires Up(w) && SidsAgree(w, cs)
    ensures w.conn.sidGenerator == Subs(cs) + 1
  {
  }

  // Before INFO nothing has happened but the growing backlog.
  ghost predicate Untouched(w: World, cs: seq<ConnectionCommand>)
    requires w.conn.AwaitingInfo?
  {
    && Requested(w.conn.preliminary) == cs
    && w.channels == [] && w.responses == [] && w.log == [] && w.polled == []
  }

  ghost predicate Agrees(w: World, cs: seq<ConnectionCommand>) {
    match w.conn
    case AwaitingInfo(_) => Untouched(w, cs)
    case InfoReceived(_, _, _, _) => SidsAgree(w, cs) && LogAgrees(w, cs)
    case NotInfoReceived => w.polled == [] && w.log == [] && w.channels == []
    case ConnectionLost => w.polled <= w.log
  }

  lemma StepAgrees(t: Timeouts, w: World, cs: seq<ConnectionCommand>, e: Event)
    requires Agrees(w, cs)
    requires var cs' := cs + (if e.ClientInput? then [e.client] else []); Subs(cs') + 1 < USIZE_LIMIT
    ensures Agrees(Apply(t, w, e), cs + if e.ClientInput? then [e.client] else [])
  {
    assert cs + [] == cs;
    match w.conn
    case AwaitingInfo(preliminary) => StepAgreesAwaiting(t, w, cs, e);
    case InfoReceived(_, _, _, _) => StepAgreesUp(t, w, cs, e);
    case NotInfoReceived =>
    case ConnectionLost =>
  }

  lemma StepAgreesAwaiting(t: Timeouts, w: World, cs: seq<ConnectionCommand>, e: Event)
    requires w.conn.AwaitingInfo? && Untouched(w, cs)
    requires Subs(cs) + 1 < USIZE_LIMIT
    ensures Agrees(Apply(t, w, e), cs + if e.ClientInput? then [e.client] else [])
  {
    hide SidsAgree, LogAgrees, Connected;
    assert cs + [] == cs;
    match e
    case ServerInput(command, now) =>
      if command.SInfo? {
        ReplayAgrees(w, w.conn.preliminary, now);
      }
    case ClientInput(command, now) =>
      assert Front(w.conn.preliminary + [(command, now)]) == w.conn.preliminary;
    case _ =>
  }

  lemma ServerStepAgrees(w: World, cs: seq<ConnectionCommand>, c: ServerCommand, now: Instant)
    requires Up(w) && SidsAgree(w, cs) && LogAgrees(w, cs)
    ensures Up(OnServer(w, c, now))
    ensures SidsAgree(OnServer(w, c, now), cs) && LogAgrees(OnServer(w, c, now), cs)
  {
    hide Live, WithoutTimers, FramesOf, ResponsesOf, Decimal;
  }

  lemma StepAgreesUp(t: Timeouts, w: World, cs: seq<ConnectionCommand>, e: Event)
    requires Up(w) && SidsAgree(w, cs) && LogAgrees(w, cs)
    requires var cs' := cs + (if e.ClientInput? then [e.client] else []); Subs(cs') + 1 < USIZE_LIMIT
    ensures Agrees(Apply(t, w, e), cs + if e.ClientInput? then [e.client] else [])
  {
    hide Live, WithoutTimers, FramesOf, ResponsesOf, Decimal, OnClient, OnServer;
    assert cs + [] == cs;
    match e
    case ServerInput(command, now) => ServerStepAgrees(w, cs, command, now);
    case ClientInput(command, now) =>
      ClientStepLog(w, cs, command, now);
      ClientStepSids(w, cs, command, now);
    case PollTransmit =>
      if w.conn.transmits != [] {
        assert w.polled + [w.conn.transmits[0]] + w.conn.transmits[1..] == w.polled + w.conn.transmits;
      }
    case SendPing(now) =>
      EnqueueExtendsLog(w, CPing, [CConnect(HELLO)] + FramesOf(cs));
    case SendPong(now) =>
      EnqueueExtendsLog(w, CPong, [CConnect(HELLO)] + FramesOf(cs));
    case KeepAlive(now) =>
      assert w.polled <= w.polled + w.conn.transmits;
  }

  lemma {:induction false} RunAgrees(t: Timeouts, es: seq<Event>)
    requires Subs(ClientInputs(es)) + 1 < USIZE_LIMIT
    ensures Agrees(Run(t, es), ClientInputs(es))
    decreases |es|
  {
    hide Apply, Agrees;
    if es == [] {
      InitialAgrees();
    } else {
      var cs := ClientInputs(Front(es));
      if Last(es).ClientInput? {
        assert Front(cs + [Last(es).client]) == cs;
        SubsMonotone(cs + [Last(es).client]);
      } else {
        assert cs + [] == cs;
      }
      RunAgrees(t, Front(es));
      StepAgrees(t, Run(t, Front(es)), cs, Last(es));
    }
  }

  lemma InitialAgrees()
    ensures Agrees(INITIAL, [])
  {
  }

  // ------------------------------------------------------------ main results

  // SIDs and subscribers, in every connected state below counter overflow.
  lemma SidsExactly(t: Timeouts, es: seq<Event>)
    requires Subs(ClientInputs(es)) + 1 < USIZE_LIMIT && Up(Run(t, es))
    ensures var w := Run(t, es);
            var cs := ClientInputs(es);
            && w.conn.sidGenerator == 1 + Subs(cs)
            && |w.channels| == Subs(cs)
            && w.responses == ResponsesOf(cs)
            && (forall sid :: sid in w.conn.subscribers <==> Live(cs, sid))
            && (forall k: nat :: Decimal(k) in w.conn.subscribers ==> w.conn.subscribers[Decimal(k)] == k - 1)
  {
    RunAgrees(t, es);
  }

  // Conservation: what was polled and what is queued are together everything
  // enqueued, in order; apart from PING and PONG that is CONNECT followed by
  // the frames of all client commands, early and late, in the order given.
  lemma TransmitsExactly(t: Timeouts, es: seq<Event>)
    requires Subs(ClientInputs(es)) + 1 < USIZE_LIMIT && Up(Run(t, es))
    ensures var w := Run(t, es);
            && w.polled + w.conn.transmits == w.log
            && w.log != [] && w.log[0] == CConnect(HELLO)
            && WithoutTimers(w.log) == [CConnect(HELLO)] + FramesOf(ClientInputs(es))
  {
    RunAgrees(t, es);
  }

  // What the first command of every connection says, field by field.
  lemma GreetingExactly(t: Timeouts, es: seq<Event>)
    requires Up(Run(t, es))
    ensures var log := Run(t, es).log;
            && log != [] && log[0].CConnect?
            && var c := log[0].connect;
            && c.verbose && c.pedantic && !c.tlsRequired
            && c.lang == "Rust" && c.version == "1.0"
            && c.noResponders == None && c.headers == Some(true) && c.echo == None && c.protocol == None
            && c.authToken == None && c.user == None && c.pass == None && c.name == None
            && c.sig == None && c.jwt == None && c.nkey == None
  {
    hide Run;
    TransmitsConserved(t, es);
  }

  // Conservation needs no bound on the number of subscriptions.
  predicate Conserved(w: World) {
    match w.conn
    case AwaitingInfo(_) => w.polled == [] && w.log == []
    case InfoReceived(transmits, _, _, _) =>
      w.polled + transmits == w.log && w.log != [] && w.log[0] == CConnect(HELLO)
    case NotInfoReceived => w.polled == []
    case ConnectionLost => w.polled <= w.log
  }

  lemma EnqueueConserves(w: World, c: ClientCommand)
    requires Up(w) && Conserved(w)
    ensures Conserved(Enqueue(w, c))
  {
    assert w.polled + (w.conn.transmits + [c]) == w.log + [c];
  }

  lemma ClientConserves(w: World, c: ConnectionCommand, now: Instant)
    requires Conserved(w)
    ensures Conserved(OnClient(w, c, now))
  {
    if Up(w) {
      var sid := Decimal(w.conn.sidGenerator);
      match c
      case DoSubscribe(subject, options, _) =>
        var sub := CSubscribe(Subscribe(subject, options.queueGroup, sid));
        EnqueueConserves(w, sub);
        EnqueueConserves(Enqueue(w, sub), CUnsubscribe(Unsubscribe(sid, options.maxMsgs)));
      case DoUnsubscribe(sid, maxMsgs) => EnqueueConserves(w, CUnsubscribe(Unsubscribe(sid, maxMsgs)));
      case DoPublish(subject, payload) => EnqueueConserves(w, CPublish(Publish(subject, None, |payload|, payload)));
    }
  }

  lemma {:induction false} ReplayConserves(w: World, backlog: seq<(ConnectionCommand, Instant)>, now: Instant)
    requires Conserved(w)
    ensures Conserved(Replay(w, backlog, now))
    decreases |backlog|
  {
    hide OnClient, Conserved;
    if backlog != [] {
      ReplayConserves(w, Front(backlog), now);
      ClientConserves(Replay(w, Front(backlog), now), Last(backlog).0, now);
    }
  }

  lemma StepConserves(t: Timeouts, w: World, e: Event)
    requires Conserved(w)
    ensures Conserved(Apply(t, w, e))
  {
    hide OnClient, Replay;
    match e
    case ServerInput(command, now) =>
      if w.conn.AwaitingInfo? {
        ReplayConserves(Connected(w), w.conn.preliminary, now);
      }
    case ClientInput(command, now) => ClientConserves(w, command, now);
    case PollTransmit =>
      if Up(w) && w.conn.transmits != [] {
        assert w.polled + [w.conn.transmits[0]] + w.conn.transmits[1..] == w.polled + w.conn.transmits;
      }
    case SendPing(_) => if Up(w) { EnqueueConserves(w, CPing); }
    case SendPong(_) => if Up(w) { EnqueueConserves(w, CPong); }
    case KeepAlive(_) =>
      if Up(w) {
        assert w.polled <= w.polled + w.conn.transmits;
      }
  }

  // While connected, polled plus queued is everything enqueued, CONNECT first.
  // Nothing is polled before INFO, and nothing ever when the first server
  // command was not INFO. A lost connection has sent a prefix of its log.
  lemma {:induction false} TransmitsConserved(t: Timeouts, es: seq<Event>)
    ensures var w := Run(t, es);
            && Conserved(w)
            && (Up(w) ==> w.polled + w.conn.transmits == w.log && w.log != [] && w.log[0] == CConnect(HELLO))
            && (!Greeted(es) ==> w.polled == [])
            && w.polled <= w.log
    decreases |es|
  {
    hide Apply;
    StateExactly(t, es);
    if es != [] {
      TransmitsConserved(t, Front(es));
      StepConserves(t, Run(t, Front(es)), Last(es));
    }
    var w := Run(t, es);
    if Up(w) {
      assert w.polled <= w.polled + w.conn.transmits;
    }
  }

  // ------------------------------------------------- SIDs, without a bound

  // Response k opened channel k and carries the SID of a counter that wraps.
  predicate NumberedAt(responses: seq<Response>, k: nat) {
    k < |responses| && responses[k].channel == k && responses[k].sid == Decimal((k + 1) % USIZE_LIMIT)
  }

  // A subscriber's channel is one that was handed out with its SID.
  predicate Owned(w: World, sid: bytes)
    requires Up(w)
  {
    sid in w.conn.subscribers ==>
      && w.conn.subscribers[sid] < |w.responses|
      && w.responses[w.conn.subscribers[sid]].sid == sid
  }

  ghost predicate Issued(w: World) {
    && |w.channels| == |w.responses|
    && (forall k: nat :: k < |w.responses| ==> NumberedAt(w.responses, k))
    && (w.conn.AwaitingInfo? ==> w.responses == [])
    && (Up(w) ==>
          && w.conn.sidGenerator == (|w.responses| + 1) % USIZE_LIMIT
          && forall sid :: Owned(w, sid))
  }

  function SubCount(log: seq<ClientCommand>): nat {
    if log == [] then 0 else SubCount(Front(log)) + if Last(log).CSubscribe? then 1 else 0
  }

  lemma SubCountOneMore(log: seq<ClientCommand>, c: ClientCommand)
    ensures SubCount(log + [c]) == SubCount(log) + if c.CSubscribe? then 1 else 0
  {
    assert Front(log + [c]) == log;
  }

  // Position i of the log holds the SUB of the response with the same number;
  // if that has a limit, the position behind holds its UNSUB with the limit.
  predicate AnsweredAt(log: seq<ClientCommand>, responses: seq<Response>, i: nat)
    requires i < |log| && log[i].CSubscribe?
  {
    var k := SubCount(log[..i]);
    && k < |responses|
    && log[i].sub.sid == responses[k].sid
    && (responses[k].maxMsgs.Some? ==>
          i + 1 < |log| && log[i + 1] == CUnsubscribe(Unsubscribe(responses[k].sid, responses[k].maxMsgs)))
  }

  ghost predicate Answered(log: seq<ClientCommand>, responses: seq<Response>) {
    && SubCount(log) == |responses|
    && forall i: nat :: i < |log| && log[i].CSubscribe? ==> AnsweredAt(log, responses, i)
  }

  lemma OtherKeepsAnswered(log: seq<ClientCommand>, responses: seq<Response>, c: ClientCommand)
    requires Answered(log, responses) && !c.CSubscribe?
    ensures Answered(log + [c], responses)
  {
    hide SubCount;
    SubCountOneMore(log, c);
    forall i: nat | i < |log| && log[i].CSubscribe?
      ensures AnsweredAt(log + [c], responses, i)
    {
      assert AnsweredAt(log, responses, i);
      assert (log + [c])[..i] == log[..i];
    }
  }

  lemma SubKeepsAnswered(
    log: seq<ClientCommand>, responses: seq<Response>, c: ClientCommand, tail: seq<ClientCommand>, r: Response)
    requires Answered(log, responses) && c.CSubscribe? && c.sub.sid == r.sid
    requires tail == if r.maxMsgs.Some? then [CUnsubscribe(Unsubscribe(r.sid, r.maxMsgs))] else []
    ensures Answered(log + [c] + tail, responses + [r])
  {
    hide SubCount;
    var log' := log + [c] + tail;
    SubCountOneMore(log, c);
    if r.maxMsgs.Some? {
      SubCountOneMore(log + [c], tail[0]);
    } else {
      assert log' == log + [c];
    }
    forall i: nat | i < |log'| && log'[i].CSubscribe?
      ensures AnsweredAt(log', responses + [r], i)
    {
      if i < |log| {
        assert AnsweredAt(log, responses, i);
        assert log'[..i] == log[..i];
      } else {
        assert log'[..i] == log;
      }
    }
  }

  lemma ClientKeepsAnswered(w: World, c: ConnectionCommand, now: Instant)
    requires Answered(w.log, w.responses)
    ensures Answered(OnClient(w, c, now).log, OnClient(w, c, now).responses)
  {
    hide Answered, Decimal;
    if Up(w) {
      match c
      case DoSubscribe(subject, options, sender) =>
        var sid := Decimal(w.conn.sidGenerator);
        SubKeepsAnswered(
          w.log, w.responses, CSubscribe(Subscribe(subject, options.queueGroup, sid)),
          if options.maxMsgs.Some? then [CUnsubscribe(Unsubscribe(sid, options.maxMsgs))] else [],
          Response(sender, sid, |w.channels|, options.maxMsgs));
        assert w.log + [CSubscribe(Subscribe(subject, options.queueGroup, sid))] + []
            == w.log + [CSubscribe(Subscribe(subject, options.queueGroup, sid))];
      case DoUnsubscribe(sid, maxMsgs) =>
        OtherKeepsAnswered(w.log, w.responses, CUnsubscribe(Unsubscribe(sid, maxMsgs)));
      case DoPublish(subject, payload) =>
        OtherKeepsAnswered(w.log, w.responses, CPublish(Publish(subject, None, |payload|, payload)));
    }
  }

  lemma CounterWraps(n: nat)
    ensures ((n + 1) % USIZE_LIMIT + 1) % USIZE_LIMIT == (n + 2) % USIZE_LIMIT
  {
  }

  lemma ClientKeepsIssued(w: World, c: ConnectionCommand, now: Instant)
    requires Issued(w)
    ensures Issued(OnClient(w, c, now))
  {
    hide Decimal;
    var w' := OnClient(w, c, now);
    if Up(w) {
      CounterWraps(|w.responses|);
      forall k: nat | k < |w'.responses|
        ensures NumberedAt(w'.responses, k)
      {
        assert k < |w.responses| ==> NumberedAt(w.responses, k);
      }
      forall sid
        ensures Owned(w', sid)
      {
        assert Owned(w, sid);
      }
    }
  }

  ghost predicate Accounted(w: World) {
    Issued(w) && Answered(w.log, w.responses)
  }

  lemma {:induction false} ReplayKeepsAccount(w: World, backlog: seq<(ConnectionCommand, Instant)>, now: Instant)
    requires Accounted(w)
    ensures Accounted(Replay(w, backlog, now))
    decreases |backlog|
  {
    hide OnClient, Issued, Answered;
    if backlog != [] {
      ReplayKeepsAccount(w, Front(backlog), now);
      ClientKeepsIssued(Replay(w, Front(backlog), now), Last(backlog).0, now);
      ClientKeepsAnswered(Replay(w, Front(backlog), now), Last(backlog).0, now);
    }
  }

  lemma ConnectedIsAccounted(w: World)
    requires w.conn.AwaitingInfo? && Accounted(w)
    ensures Accounted(Connected(w))
  {
    hide Answered;
    OtherKeepsAnswered(w.log, w.responses, CConnect(HELLO));
  }

  lemma EnqueueKeepsAccount(w: World, c: ClientCommand)
    requires Up(w) && Accounted(w) && !c.CSubscribe?
    ensures Accounted(Enqueue(w, c))
  {
    hide Answered;
    OtherKeepsAnswered(w.log, w.responses, c);
    forall sid
      ensures Owned(Enqueue(w, c), sid)
    {
      assert Owned(w, sid);
    }
  }

  // What the account speaks of.
  predicate SameAccount(w: World, w': World) {
    && w'.log == w.log && w'.responses == w.responses && |w'.channels| == |w.channels|
    && (w'.conn.AwaitingInfo? ==> w.conn.AwaitingInfo?)
    && (Up(w') ==> Up(w) && w'.conn.sidGenerator == w.conn.sidGenerator
                   && w'.conn.subscribers == w.conn.subscribers)
  }

  lemma SameIsAccounted(w: World, w': World)
    requires Accounted(w) && SameAccount(w, w')
    ensures Accounted(w')
  {
    hide Answered;
    if Up(w') {
      forall sid
        ensures Owned(w', sid)
      {
        assert Owned(w, sid);
      }
    }
  }

  lemma StepKeepsAccount(t: Timeouts, w: World, e: Event)
    requires Accounted(w)
    ensures Accounted(Apply(t, w, e))
  {
    hide OnClient, Replay, Issued, Answered, Accounted, Connected;
    var w' := Apply(t, w, e);
    if e.ClientInput? {
      AccountParts(w);
      ClientKeepsIssued(w, e.client, e.now);
      ClientKeepsAnswered(w, e.client, e.now);
      AccountOf(w');
    } else if e.ServerInput? && w.conn.AwaitingInfo? && e.server.SInfo? {
      ConnectedIsAccounted(w);
      ReplayKeepsAccount(Connected(w), w.conn.preliminary, e.now);
    } else if e.SendPing? && PingActs(t, w, e.now) {
      EnqueueKeepsAccount(w, CPing);
      SameIsAccounted(Enqueue(w, CPing), w');
    } else if e.SendPong? && PongActs(t, w, e.now) {
      EnqueueKeepsAccount(w, CPong);
      SameIsAccounted(Enqueue(w, CPong), w');
    } else {
      SameIsAccounted(w, w');
    }
  }

  lemma AccountParts(w: World)
    requires Accounted(w)
    ensures Issued(w) && Answered(w.log, w.responses)
  {
  }

  lemma AccountOf(w: World)
    requires Issued(w) && Answered(w.log, w.responses)
    ensures Accounted(w)
  {
  }

  lemma {:induction false} RunIsAccounted(t: Timeouts, es: seq<Event>)
    ensures Accounted(Run(t, es))
    decreases |es|
  {
    hide Apply;
    if es != [] {
      RunIsAccounted(t, Front(es));
      StepKeepsAccount(t, Run(t, Front(es)), Last(es));
    }
  }

  // However many subscriptions there were: the k-th response opened channel k
  // and carries SID k, modulo the counter's width; no channel is ever closed,
  // and each SUB in the log belongs to one response.
  lemma ResponsesAreNumbered(t: Timeouts, es: seq<Event>)
    ensures var w := Run(t, es);
            && |w.channels| == |w.responses| == SubCount(w.log)
            && forall k: nat :: k < |w.responses| ==>
                 w.responses[k].channel == k && w.responses[k].sid == Decimal((k + 1) % USIZE_LIMIT)
  {
    hide Run, SubCount, Decimal;
    RunIsAccounted(t, es);
    var w := Run(t, es);
    forall k: nat | k < |w.responses|
      ensures w.responses[k].channel == k && w.responses[k].sid == Decimal((k + 1) % USIZE_LIMIT)
    {
      assert NumberedAt(w.responses, k);
    }
  }

  // A subscriber always has a channel, and it is one its SID was issued with.
  lemma SubscribersHaveChannels(t: Timeouts, es: seq<Event>, sid: bytes)
    requires Up(Run(t, es)) && sid in Run(t, es).conn.subscribers
    ensures var w := Run(t, es);
            && w.conn.subscribers[sid] < |w.channels|
            && w.conn.subscribers[sid] < |w.responses|
            && w.responses[w.conn.subscribers[sid]].sid == sid
  {
    hide Run, Answered;
    RunIsAccounted(t, es);
    assert Owned(Run(t, es), sid);
  }

  // Whatever was polled or enqueued around it, at every position of the log:
  // the k-th SUB carries the SID of the k-th response, and one that was asked
  // for with a limit is immediately followed by its UNSUB with that limit.
  lemma LimitsFollowSubscriptions(t: Timeouts, es: seq<Event>, i: nat)
    requires i < |Run(t, es).log| && Run(t, es).log[i].CSubscribe?
    ensures var w := Run(t, es);
            var k := SubCount(w.log[..i]);
            && k < |w.responses|
            && w.log[i].sub.sid == w.responses[k].sid
            && (w.responses[k].maxMsgs.Some? ==>
                  && i + 1 < |w.log|
                  && w.log[i + 1] == CUnsubscribe(Unsubscribe(w.responses[k].sid, w.responses[k].maxMsgs)))
  {
    hide Run, SubCount, Issued;
    RunIsAccounted(t, es);
    assert AnsweredAt(Run(t, es).log, Run(t, es).responses, i);
  }

  // A SID that was issued and given up is never a subscriber's again.
  lemma GivenUpStaysGivenUp(t: Timeouts, es: seq<Event>, more: seq<Event>, k: nat)
    requires Subs(ClientInputs(es + more)) + 1 < USIZE_LIMIT
    requires Up(Run(t, es)) && Up(Run(t, es + more))
    requires 1 <= k <= Subs(ClientInputs(es)) && Decimal(k) !in Run(t, es).conn.subscribers
    ensures Decimal(k) !in Run(t, es + more).conn.subscribers
  {
    hide Run, Live, Decimal, ClientInputs;
    ClientInputsAppend(es, more);
    SubsOfPrefix(ClientInputs(es), ClientInputs(more));
    SidsExactly(t, es);
    SidsExactly(t, es + more);
    DeadStaysDead(ClientInputs(es), ClientInputs(more), k);
  }

  lemma {:induction false} SubsOfPrefix(cs: seq<ConnectionCommand>, more: seq<ConnectionCommand>)
    ensures Subs(cs) <= Subs(cs + more)
    decreases |more|
  {
    if more == [] {
      assert cs + more == cs;
    } else {
      assert Front(cs + more) == cs + Front(more);
      SubsOfPrefix(cs, Front(more));
    }
  }

  lemma {:induction false} ClientInputsAppend(a: seq<Event>, b: seq<Event>)
    ensures ClientInputs(a + b) == ClientInputs(a) + ClientInputs(b)
    decreases |b|
  {
    if b == [] {
      assert a + b == a;
    } else {
      assert Front(a + b) == a + Front(b);
      ClientInputsAppend(a, Front(b));
    }
  }

  // ------------------------------------------------------ early equals late

  function Steps(w: World, cs: seq<ConnectionCommand>): World {
    if cs == [] then w else OnClient(Steps(w, Front(cs)), Last(cs), 0)
  }

  // While connected, a client command's timestamp has no effect.
  lemma TimeIsIrrelevant(w: World, c: ConnectionCommand, now: Instant)
    requires Up(w)
    ensures OnClient(w, c, now) == OnClient(w, c, 0) && Up(OnClient(w, c, now))
  {
    hide Decimal, Issue;
  }

  lemma {:induction false} ReplayIsSteps(w: World, backlog: seq<(ConnectionCommand, Instant)>, now: Instant)
    requires Up(w)
    ensures Up(Steps(w, Requested(backlog)))
    ensures Replay(w, backlog, now) == Steps(w, Requested(backlog))
    decreases |backlog|
  {
    hide OnClient;
    if backlog != [] {
      assert Front(Requested(backlog)) == Requested(Front(backlog));
      ReplayIsSteps(w, Front(backlog), now);
      TimeIsIrrelevant(Replay(w, Front(backlog), now), Last(backlog).0, now);
    }
  }

  lemma {:induction false} EarlyRun(t: Timeouts, es: seq<Event>)
    requires FirstServer(es).None?
    ensures var w := Run(t, es);
            w.conn.AwaitingInfo? && Requested(w.conn.preliminary) == ClientInputs(es)
            && w == INITIAL.(conn := w.conn)
    decreases |es|
  {
    if es != [] {
      EarlyRun(t, Front(es));
      var w := Run(t, Front(es));
      if Last(es).ClientInput? {
        var p := w.conn.preliminary + [(Last(es).client, Last(es).now)];
        assert Front(p) == w.conn.preliminary;
      }
    }
  }

  lemma HelloRun(t: Timeouts, hello: Event)
    requires hello.ServerInput? && hello.server.SInfo?
    ensures Run(t, [hello]) == Connected(INITIAL)
  {
    assert [] + [hello] == [hello];
    RunOne(t, [], hello);
  }

  lemma ApplyClient(t: Timeouts, w: World, e: Event)
    requires e.ClientInput?
    ensures Apply(t, w, e) == OnClient(w, e.client, e.now)
  {
  }

  lemma {:induction false} LateRun(t: Timeouts, hello: Event, late: seq<Event>)
    requires hello.ServerInput? && hello.server.SInfo?
    requires forall e :: e in late ==> e.ClientInput?
    ensures Run(t, [hello] + late) == Steps(Connected(INITIAL), ClientInputs(late))
    ensures Up(Run(t, [hello] + late))
    decreases |late|
  {
    hide OnClient, Connected, Run, Apply;
    if late == [] {
      assert [hello] + late == [hello];
      HelloRun(t, hello);
      ConnectedIsUp(INITIAL);
    } else {
      assert Last(late) in late;
      assert forall e :: e in Front(late) ==> e in late;
      LateRun(t, hello, Front(late));
      assert [hello] + late == ([hello] + Front(late)) + [Last(late)];
      RunOne(t, [hello] + Front(late), Last(late));
      ApplyClient(t, Run(t, [hello] + Front(late)), Last(late));
      TimeIsIrrelevant(Run(t, [hello] + Front(late)), Last(late).client, Last(late).now);
      assert Front(ClientInputs(late)) == ClientInputs(Front(late));
    }
  }

  // Client commands given before INFO, among any polls and timer calls, have
  // exactly the effect of the same commands given after it: the same queue,
  // SID counter, subscribers, channels and responses.
  lemma EarlyEqualsLate(t: Timeouts, early: seq<Event>, hello: Event, hello': Event, late: seq<Event>)
    requires FirstServer(early).None?
    requires hello.ServerInput? && hello.server.SInfo? && hello'.ServerInput? && hello'.server.SInfo?
    requires forall e :: e in late ==> e.ClientInput?
    requires ClientInputs(early) == ClientInputs(late)
    ensures Run(t, early + [hello]) == Run(t, [hello'] + late)
  {
    EarlyRun(t, early);
    LateRun(t, hello', late);
    RunOne(t, early, hello);
    var w := Run(t, early);
    assert Connected(w) == Connected(INITIAL);
    ReplayIsSteps(Connected(w), w.conn.preliminary, hello.now);
  }
}
