// The connection: a state machine without I/O, driven by explicit events.
// The functions say what each event does to the connection and to its
// environment; class NatsBinding does it in place.
module Connection {
  import opened Bytes
  import opened Commands
  import opened Text
  import opened Wrappers

  // Instants and durations count the same unit from a common origin.
  type Instant = nat

  datatype Timeouts = Timeouts(pingInterval: nat, pongDelay: nat, keepAlive: nat)

  // `Instant::duration_since` saturates at zero.
  function DurationSince(now: Instant, earlier: Instant): nat {
    if earlier <= now then now - earlier else 0
  }

  datatype SubscriptionOptions = SubscriptionOptions(maxMsgs: Option<nat>, queueGroup: Option<bytes>)

  // `sender` names the one-shot channel the response goes to.
  datatype ConnectionCommand =
    | DoSubscribe(subject: bytes, options: SubscriptionOptions, sender: nat)
    | DoUnsubscribe(sid: bytes, maxMsgs: Option<nat>)
    | DoPublish(subject: bytes, payload: bytes)

  datatype KeepAliveState = KeepAliveState(
    lastPingSentAt: Option<Instant>,
    lastPingReceivedAt: Option<Instant>,
    lastPongReceivedAt: Option<Instant>)

  datatype ConnState =
    | AwaitingInfo(preliminary: seq<(ConnectionCommand, Instant)>)
    | InfoReceived(
        transmits: seq<ClientCommand>,
        keepAlive: KeepAliveState,
        sidGenerator: nat,
        subscribers: map<bytes, nat>)
    | NotInfoReceived
    | ConnectionLost

  // A subscriber's channel is known by its position in `channels`.
  datatype Response = Response(sender: nat, sid: bytes, channel: nat, maxMsgs: Option<nat>)

  // The connection and what its environment has seen of it: the messages each
  // subscriber channel received, the responses sent, everything ever enqueued
  // for transmission and everything polled so far.
  datatype World = World(
    conn: ConnState,
    channels: seq<seq<Message>>,
    responses: seq<Response>,
    log: seq<ClientCommand>,
    polled: seq<ClientCommand>)

  const INITIAL: World := World(AwaitingInfo([]), [], [], [], [])

  const HELLO: Connect := Connect(
    true, true, false, None, None, None, None, "Rust", "1.0",
    None, None, None, None, None, Some(true), None)

  predicate Up(w: World) {
    w.conn.InfoReceived?
  }

  function Enqueue(w: World, c: ClientCommand): World
    requires Up(w)
  {
    w.(conn := w.conn.(transmits := w.conn.transmits + [c]), log := w.log + [c])
  }

  // ---------------------------------------------------------- client commands

  function OnClient(w: World, command: ConnectionCommand, now: Instant): World {
    match w.conn
    case AwaitingInfo(preliminary) => w.(conn := AwaitingInfo(preliminary + [(command, now)]))
    case InfoReceived(_, _, _, _) =>
      (match command
       case DoSubscribe(subject, options, sender) => OnSubscribe(w, subject, options, sender)
       case DoUnsubscribe(sid, maxMsgs) =>
         var removed := w.(conn := w.conn.(subscribers := w.conn.subscribers - {sid}));
         Enqueue(removed, CUnsubscribe(Unsubscribe(sid, maxMsgs)))
       case DoPublish(subject, payload) =>
         Enqueue(w, CPublish(Publish(subject, None, |payload|, payload))))
    case NotInfoReceived => w
    case ConnectionLost => w
  }

  // A new SID, a new channel, a response to whoever asked.
  function Issue(w: World, sid: bytes, maxMsgs: Option<nat>, sender: nat): World
    requires Up(w)
  {
    w.(
      conn := w.conn.(
        sidGenerator := (w.conn.sidGenerator + 1) % USIZE_LIMIT,
        subscribers := w.conn.subscribers[sid := |w.channels|]),
      channels := w.channels + [[]],
      responses := w.responses + [Response(sender, sid, |w.channels|, maxMsgs)])
  }

  function OnSubscribe(w: World, subject: bytes, options: SubscriptionOptions, sender: nat): World
    requires Up(w)
  {
    var sid := Decimal(w.conn.sidGenerator);
    var issued := Issue(w, sid, options.maxMsgs, sender);
    var subscribed := Enqueue(issued, CSubscribe(Subscribe(subject, options.queueGroup, sid)));
    if options.maxMsgs.None? then subscribed
    else Enqueue(subscribed, CUnsubscribe(Unsubscribe(sid, options.maxMsgs)))
  }

  // ---------------------------------------------------------- server commands

  // The backlog, stepped through in order.
  function Replay(w: World, backlog: seq<(ConnectionCommand, Instant)>, now: Instant): World {
    if backlog == [] then w
    else OnClient(Replay(w, backlog[..|backlog| - 1], now), backlog[|backlog| - 1].0, now)
  }

  function Connected(w: World): World {
    Enqueue(w.(conn := InfoReceived([], KeepAliveState(None, None, None), 1, map[])), CConnect(HELLO))
  }

  // The second conjunct always holds in a run (Runs.SubscribersHaveChannels).
  function Deliver(w: World, sid: bytes, message: Message): World
    requires Up(w)
  {
    if sid in w.conn.subscribers && w.conn.subscribers[sid] < |w.channels| then
      var channel := w.conn.subscribers[sid];
      w.(channels := w.channels[channel := w.channels[channel] + [message]])
    else w
  }

  function OnServer(w: World, command: ServerCommand, now: Instant): World {
    match w.conn
    case AwaitingInfo(preliminary) =>
      if command.SInfo? then Replay(Connected(w), preliminary, now) else w.(conn := NotInfoReceived)
    case InfoReceived(_, keepAlive, _, _) =>
      (match command
       case SInfo(_) => w
       case SOk => w
       case SErr(_) => w
       case SMsg(m) => Deliver(w, m.sid, FromMsg(m))
       case SHMsg(m) => Deliver(w, m.sid, FromHMsg(m))
       case SPing => w.(conn := w.conn.(keepAlive := keepAlive.(lastPingReceivedAt := Some(now))))
       case SPong => w.(conn := w.conn.(keepAlive := keepAlive.(lastPongReceivedAt := Some(now)))))
    case NotInfoReceived => w
    case ConnectionLost => w
  }

  // ------------------------------------------------------ transmits and timers

  function OnPoll(w: World): World {
    if Up(w) && w.conn.transmits != [] then
      w.(conn := w.conn.(transmits := w.conn.transmits[1..]), polled := w.polled + [w.conn.transmits[0]])
    else w
  }

  predicate PingActs(t: Timeouts, w: World, now: Instant) {
    Up(w) &&
    match w.conn.keepAlive.lastPingSentAt
    case Some(sentAt) => DurationSince(now, sentAt) >= t.pingInterval
    case None => true
  }

  predicate PongActs(t: Timeouts, w: World, now: Instant) {
    Up(w) && w.conn.keepAlive.lastPingReceivedAt.Some?
    && DurationSince(now, w.conn.keepAlive.lastPingReceivedAt.value) >= t.pongDelay
  }

  predicate KeepAliveActs(t: Timeouts, w: World, now: Instant) {
    Up(w) && w.conn.keepAlive.lastPongReceivedAt.Some?
    && DurationSince(now, w.conn.keepAlive.lastPongReceivedAt.value) >= t.keepAlive
  }

  function OnSendPing(t: Timeouts, w: World, now: Instant): World {
    if !PingActs(t, w, now) then w
    else
      var e := Enqueue(w, CPing);
      e.(conn := e.conn.(keepAlive := e.conn.keepAlive.(lastPingSentAt := Some(now))))
  }

  function OnSendPong(t: Timeouts, w: World, now: Instant): World {
    if !PongActs(t, w, now) then w
    else
      var e := Enqueue(w, CPong);
      e.(conn := e.conn.(keepAlive := e.conn.keepAlive.(lastPingReceivedAt := None)))
  }

  function OnKeepAlive(t: Timeouts, w: World, now: Instant): World {
    if KeepAliveActs(t, w, now) then w.(conn := ConnectionLost) else w
  }

  function PollSendPing(t: Timeouts, w: World, now: Instant): Option<Instant> {
    if !Up(w) then None
    else match w.conn.keepAlive.lastPingSentAt
         case Some(sentAt) => Some(sentAt + t.pingInterval)
         case None => Some(now)
  }

  function PollSendPong(t: Timeouts, w: World): Option<Instant> {
    if !Up(w) then None
    else match w.conn.keepAlive.lastPingReceivedAt
         case Some(receivedAt) => Some(receivedAt + t.pongDelay)
         case None => None
  }

  function PollKeepAlive(t: Timeouts, w: World): Option<Instant> {
    if !Up(w) then None
    else match w.conn.keepAlive.lastPongReceivedAt
         case Some(receivedAt) => Some(receivedAt + t.keepAlive)
         case None => None
  }

  // ------------------------------------------------------------- in place

  datatype Phase = PAwaitingInfo | PInfoReceived | PNotInfoReceived | PConnectionLost

  class NatsBinding {
    const timeouts: Timeouts
    var phase: Phase
    var preliminary: seq<(ConnectionCommand, Instant)>
    var bufferedTransmits: seq<ClientCommand>
    var lastPingSentAt: Option<Instant>
    var lastPingReceivedAt: Option<Instant>
    var lastPongReceivedAt: Option<Instant>
    var sidGenerator: nat
    var sid2subscriber: map<bytes, nat>
    // The other ends of the channels.
    var channels: seq<seq<Message>>
    var responses: seq<Response>
    // History.
    ghost var log: seq<ClientCommand>
    ghost var polled: seq<ClientCommand>

    ghost function Model(): World
      reads this
    {
      World(
        match phase
        case PAwaitingInfo => AwaitingInfo(preliminary)
        case PInfoReceived =>
          InfoReceived(
            bufferedTransmits,
            KeepAliveState(lastPingSentAt, lastPingReceivedAt, lastPongReceivedAt),
            sidGenerator,
            sid2subscriber)
        case PNotInfoReceived => NotInfoReceived
        case PConnectionLost => ConnectionLost,
        channels, responses, log, polled)
    }

    constructor (timeouts: Timeouts)
      ensures Model() == INITIAL && this.timeouts == timeouts
    {
      this.timeouts := timeouts;
      phase := PAwaitingInfo;
      preliminary, bufferedTransmits := [], [];
      lastPingSentAt, lastPingReceivedAt, lastPongReceivedAt := None, None, None;
      sidGenerator, sid2subscriber := 1, map[];
      channels, responses := [], [];
      log, polled := [], [];
    }

    method PushBack(c: ClientCommand)
      requires phase == PInfoReceived
      modifies this
      ensures Model() == Enqueue(old(Model()), c)
    {
      bufferedTransmits := bufferedTransmits + [c];
      log := log + [c];
    }

    method StepClient(command: ConnectionCommand, now: Instant)
      modifies this
      ensures Model() == OnClient(old(Model()), command, now)
    {
      match phase
      case PAwaitingInfo =>
        preliminary := preliminary + [(command, now)];
      case PInfoReceived =>
        match command {
          case DoSubscribe(subject, options, sender) =>
            var sid := sidGenerator;
            sidGenerator := (sidGenerator + 1) % USIZE_LIMIT;
            var channel := |channels|;
            channels := channels + [[]];
            sid2subscriber := sid2subscriber[Decimal(sid) := channel];
            responses := responses + [Response(sender, Decimal(sid), channel, options.maxMsgs)];
            PushBack(CSubscribe(Subscribe(subject, options.queueGroup, Decimal(sid))));
            if options.maxMsgs.Some? {
              PushBack(CUnsubscribe(Unsubscribe(Decimal(sid), options.maxMsgs)));
            }
          case DoUnsubscribe(sid, maxMsgs) =>
            sid2subscriber := sid2subscriber - {sid};
            PushBack(CUnsubscribe(Unsubscribe(sid, maxMsgs)));
          case DoPublish(subject, payload) =>
            PushBack(CPublish(Publish(subject, None, |payload|, payload)));
        }
      case PNotInfoReceived =>
      case PConnectionLost =>
    }

    method Route(sid: bytes, message: Message)
      requires phase == PInfoReceived
      modifies this
      ensures Model() == Deliver(old(Model()), sid, message)
    {
      if sid in sid2subscriber {
        var channel := sid2subscriber[sid];
        if channel < |channels| {
          channels := channels[channel := channels[channel] + [message]];
        }
      }
    }

    method ComeUp()
      modifies this
      ensures Model() == Connected(old(Model()))
    {
      preliminary := [];
      phase := PInfoReceived;
      bufferedTransmits := [];
      lastPingSentAt, lastPingReceivedAt, lastPongReceivedAt := None, None, None;
      sidGenerator, sid2subscriber := 1, map[];
      PushBack(CConnect(HELLO));
    }

    // INFO: the connection comes up and the backlog is replayed.
    method Establish(now: Instant)
      requires phase == PAwaitingInfo
      modifies this
      ensures Model() == Replay(Connected(old(Model())), old(preliminary), now)
    {
      hide OnClient, Connected;
      var backlog := preliminary;
      ComeUp();
      ghost var start := Model();
      assert backlog[..0] == [];
      var i := 0;
      while i < |backlog|
        invariant i <= |backlog|
        invariant Model() == Replay(start, backlog[..i], now)
      {
        StepClient(backlog[i].0, now);
        assert backlog[..i + 1][..i] == backlog[..i];
        i := i + 1;
      }
      assert backlog[..i] == backlog;
    }

    method HandleServerInput(command: ServerCommand, now: Instant)
      modifies this
      ensures Model() == OnServer(old(Model()), command, now)
    {
      match phase
      case PAwaitingInfo =>
        if command.SInfo? {
          Establish(now);
        } else {
          phase := PNotInfoReceived;
        }
      case PInfoReceived =>
        match command {
          case SInfo(_) =>
          case SOk =>
          case SErr(_) =>
          case SMsg(m) => Route(m.sid, FromMsg(m));
          case SHMsg(m) => Route(m.sid, FromHMsg(m));
          case SPing => lastPingReceivedAt := Some(now);
          case SPong => lastPongReceivedAt := Some(now);
        }
      case PNotInfoReceived =>
      case PConnectionLost =>
    }

    method HandleClientInput(command: ConnectionCommand, now: Instant)
      modifies this
      ensures Model() == OnClient(old(Model()), command, now)
    {
      StepClient(command, now);
    }

    method PollTransmit() returns (command: Option<ClientCommand>)
      modifies this`bufferedTransmits, this`polled
      ensures Model() == OnPoll(old(Model()))
      ensures command.Some? <==> phase == PInfoReceived && old(bufferedTransmits) != []
      ensures old(bufferedTransmits) == (if command.Some? then [command.value] else []) + bufferedTransmits
      ensures polled == old(polled) + (if command.Some? then [command.value] else [])
    {
      if phase != PInfoReceived || bufferedTransmits == [] {
        return None;
      }
      command := Some(bufferedTransmits[0]);
      bufferedTransmits := bufferedTransmits[1..];
      polled := polled + [command.value];
    }

    method HandleSendPingTimeout(now: Instant)
      modifies this
      ensures Model() == OnSendPing(timeouts, old(Model()), now)
    {
      if phase != PInfoReceived {
        return;
      }
      if lastPingSentAt.None? || DurationSince(now, lastPingSentAt.value) >= timeouts.pingInterval {
        PushBack(CPing);
        lastPingSentAt := Some(now);
      }
    }

    method HandleSendPongTimeout(now: Instant)
      modifies this
      ensures Model() == OnSendPong(timeouts, old(Model()), now)
    {
      if phase != PInfoReceived {
        return;
      }
      if lastPingReceivedAt.Some? && DurationSince(now, lastPingReceivedAt.value) >= timeouts.pongDelay {
        PushBack(CPong);
        lastPingReceivedAt := None;
      }
    }

    method HandleKeepAliveTimeout(now: Instant)
      modifies this
      ensures Model() == OnKeepAlive(timeouts, old(Model()), now)
    {
      if phase != PInfoReceived {
        return;
      }
      if lastPongReceivedAt.Some? && DurationSince(now, lastPongReceivedAt.value) >= timeouts.keepAlive {
        phase := PConnectionLost;
      }
    }

    method PollSendPingTimeout(now: Instant) returns (deadline: Option<Instant>)
      ensures deadline == PollSendPing(timeouts, Model(), now)
    {
      if phase != PInfoReceived {
        return None;
      }
      if lastPingSentAt.Some? {
        return Some(lastPingSentAt.value + timeouts.pingInterval);
      }
      return Some(now);
    }

    method PollSendPongTimeout() returns (deadline: Option<Instant>)
      ensures deadline == PollSendPong(timeouts, Model())
    {
      if phase == PInfoReceived && lastPingReceivedAt.Some? {
        return Some(lastPingReceivedAt.value + timeouts.pongDelay);
      }
      return None;
    }

    method PollKeepAliveTimeout() returns (deadline: Option<Instant>)
      ensures deadline == PollKeepAlive(timeouts, Model())
    {
      if phase == PInfoReceived && lastPongReceivedAt.Some? {
        return Some(lastPongReceivedAt.value + timeouts.keepAlive);
      }
      return None;
    }
  }
}
