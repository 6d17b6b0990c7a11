// The three keep-alive timers, over whole runs.
module Timers {
  import opened Bytes
  import opened Commands
  import opened Connection
  import opened Runs
  import Text
  import opened Wrappers

  // The event made the queue's log grow by exactly this command.
  predicate Sends(t: Timeouts, w: World, e: Event, c: ClientCommand) {
    (e.SendPing? || e.SendPong?) && Apply(t, w, e).log == w.log + [c]
  }

  // -------------------------------------------------------------------- PING

  // The instants at which a PING was enqueued.
  function PingTimes(t: Timeouts, es: seq<Event>): seq<Instant> {
    if es == [] then []
    else
      PingTimes(t, Front(es))
      + if Last(es).SendPing? && Sends(t, Run(t, Front(es)), Last(es), CPing) then [Last(es).now] else []
  }

  lemma LogGrew<T>(log: seq<T>, c: T)
    ensures log + [c] != log
  {
    assert |log + [c]| == |log| + 1;
  }

  lemma LogsDiffer<T>(log: seq<T>, c: T, d: T)
    requires c != d
    ensures log + [c] != log + [d]
  {
    assert (log + [c])[|log|] == c && (log + [d])[|log|] == d;
  }

  lemma PingEvent(t: Timeouts, w: World, e: Event)
    ensures e.SendPing? && Sends(t, w, e, CPing) <==> e.SendPing? && PingActs(t, w, e.now)
    ensures Up(w) && Up(Apply(t, w, e)) ==>
              Apply(t, w, e).conn.keepAlive.lastPingSentAt
              == if e.SendPing? && PingActs(t, w, e.now) then Some(e.now) else w.conn.keepAlive.lastPingSentAt
  {
    LogGrew(w.log, CPing);
  }

  // A connection that came up with this event has sent no PING yet.
  lemma ComesUpSilent(t: Timeouts, w: World, e: Event)
    requires !Up(w) && Up(Apply(t, w, e))
    ensures Apply(t, w, e).conn.keepAlive == KeepAliveState(None, None, None)
    ensures w.conn.AwaitingInfo?
  {
    hide OnClient, Replay;
    if e.ServerInput? && w.conn.AwaitingInfo? {
      ReplayStaysUp(Connected(w), w.conn.preliminary, e.now);
    } else if e.ClientInput? {
      ClientNeverConnects(w, e.client, e.now);
    }
  }

  lemma ClientNeverConnects(w: World, c: ConnectionCommand, now: Instant)
    requires !Up(w)
    ensures !Up(OnClient(w, c, now))
  {
  }

  // The stamp is the last PING's.
  lemma {:induction false} PingStamp(t: Timeouts, es: seq<Event>)
    ensures var times := PingTimes(t, es);
            && (Run(t, es).conn.AwaitingInfo? ==> times == [])
            && (Up(Run(t, es)) ==>
                  Run(t, es).conn.keepAlive.lastPingSentAt == if times == [] then None else Some(Last(times)))
    decreases |es|
  {
    hide Apply;
    if es != [] {
      var w, e := Run(t, Front(es)), Last(es);
      PingStamp(t, Front(es));
      PingEvent(t, w, e);
      if Up(Run(t, es)) && !Up(w) {
        ComesUpSilent(t, w, e);
      }
      if Run(t, es).conn.AwaitingInfo? {
        NeverBackToAwaiting(t, w, e);
      }
    }
  }

  lemma NeverBackToAwaiting(t: Timeouts, w: World, e: Event)
    requires Apply(t, w, e).conn.AwaitingInfo?
    ensures w.conn.AwaitingInfo?
  {
    hide Replay;
    if e.ServerInput? && w.conn.AwaitingInfo? && e.server.SInfo? {
      ReplayStaysUp(Connected(w), w.conn.preliminary, e.now);
    }
  }

  // `long` has passed since `since`, by a clock that may go backwards.
  predicate Passed(since: Instant, now: Instant, long: nat) {
    long == 0 || since + long <= now
  }

  // The PING handler acts exactly when, connected, no PING was sent yet or the
  // interval has passed since the latest.
  lemma PingIsExact(t: Timeouts, es: seq<Event>, now: Instant)
    ensures PingActs(t, Run(t, es), now) <==>
            && UpAfter(t, es)
            && (PingTimes(t, es) == [] || Passed(Last(PingTimes(t, es)), now, t.pingInterval))
  {
    PingStamp(t, es);
    StateExactly(t, es);
  }

  // Consecutive PINGs are at least one interval apart, whatever the clock does.
  lemma {:induction false} PingsAreSpaced(t: Timeouts, es: seq<Event>, i: nat)
    requires t.pingInterval > 0 && i + 1 < |PingTimes(t, es)|
    ensures PingTimes(t, es)[i + 1] >= PingTimes(t, es)[i] + t.pingInterval
    decreases |es|
  {
    hide Apply;
    var front := PingTimes(t, Front(es));
    if i + 1 < |front| {
      PingsAreSpaced(t, Front(es), i);
    } else {
      PingStamp(t, Front(es));
      PingEvent(t, Run(t, Front(es)), Last(es));
      assert i + 1 == |front| && Last(front) == front[i];
    }
  }

  lemma {:induction false} PingsCovered(t: Timeouts, es: seq<Event>, n: nat)
    requires t.pingInterval > 0 && n < |PingTimes(t, es)|
    ensures PingTimes(t, es)[n] >= PingTimes(t, es)[0] + n * t.pingInterval
    decreases n
  {
    if n > 0 {
      PingsCovered(t, es, n - 1);
      PingsAreSpaced(t, es, n - 1);
    }
  }

  // So at most 1 + (t1 - t0) / interval of them lie between the first and last.
  lemma PingRate(t: Timeouts, es: seq<Event>)
    requires t.pingInterval > 0 && PingTimes(t, es) != []
    ensures var times := PingTimes(t, es);
            times[0] + (|times| - 1) * t.pingInterval <= Last(times)
  {
    PingsCovered(t, es, |PingTimes(t, es)| - 1);
  }

  // -------------------------------------------------------------------- PONG

  // When the latest PING came in.
  function LastPing(es: seq<Event>): Option<Instant> {
    if es == [] then None
    else if Last(es).ServerInput? && Last(es).server.SPing? then Some(Last(es).now)
    else LastPing(Front(es))
  }

  function PongsSent(t: Timeouts, es: seq<Event>): nat {
    if es == [] then 0
    else PongsSent(t, Front(es)) + if Sends(t, Run(t, Front(es)), Last(es), CPong) then 1 else 0
  }

  // PINGs received while connected: all of them, and since the last PONG.
  ghost function PingsHeard(t: Timeouts, es: seq<Event>): nat {
    if es == [] then 0
    else
      PingsHeard(t, Front(es))
      + if Last(es).ServerInput? && Last(es).server.SPing? && UpAfter(t, Front(es)) then 1 else 0
  }

  ghost function HeardSincePong(t: Timeouts, es: seq<Event>): nat {
    if es == [] then 0
    else if Sends(t, Run(t, Front(es)), Last(es), CPong) then 0
    else
      HeardSincePong(t, Front(es))
      + if Last(es).ServerInput? && Last(es).server.SPing? && UpAfter(t, Front(es)) then 1 else 0
  }

  lemma PongEvent(t: Timeouts, w: World, e: Event)
    ensures Sends(t, w, e, CPong) <==> e.SendPong? && PongActs(t, w, e.now)
    ensures Up(w) && Up(Apply(t, w, e)) ==>
              Apply(t, w, e).conn.keepAlive.lastPingReceivedAt
              == if e.SendPong? && PongActs(t, w, e.now) then None
                 else if e.ServerInput? && e.server.SPing? then Some(e.now)
                 else w.conn.keepAlive.lastPingReceivedAt
  {
    LogGrew(w.log, CPong);
    LogsDiffer(w.log, CPing, CPong);
  }

  ghost predicate PongStamped(t: Timeouts, es: seq<Event>) {
    Up(Run(t, es)) ==>
      && Run(t, es).conn.keepAlive.lastPingReceivedAt == (if HeardSincePong(t, es) > 0 then LastPing(es) else None)
      && (HeardSincePong(t, es) > 0 ==> LastPing(es).Some?)
  }

  lemma {:induction false} NothingHeardEarly(t: Timeouts, es: seq<Event>)
    requires FirstServer(es).None?
    ensures PingsHeard(t, es) == 0 && HeardSincePong(t, es) == 0 && LastPing(es).None?
    decreases |es|
  {
    if es != [] {
      NothingHeardEarly(t, Front(es));
    }
  }

  // A reply is pending exactly when a PING was heard since the last PONG, and
  // it is counted from the latest one.
  lemma {:induction false} PongStamp(t: Timeouts, es: seq<Event>)
    ensures PongStamped(t, es)
    decreases |es|
  {
    hide Apply, FirstServer, UpAfter;
    if es != [] && Up(Run(t, es)) {
      var w, e := Run(t, Front(es)), Last(es);
      PongStamp(t, Front(es));
      StateExactly(t, Front(es));
      PongEvent(t, w, e);
      if !Up(w) {
        ComesUpSilent(t, w, e);
        ComesUpUnheard(t, es);
      }
    }
  }

  lemma ComesUpUnheard(t: Timeouts, es: seq<Event>)
    requires es != [] && Run(t, Front(es)).conn.AwaitingInfo? && Up(Run(t, es))
    ensures HeardSincePong(t, es) == 0 && PingsHeard(t, es) == 0
  {
    hide Apply;
    StateExactly(t, Front(es));
    NothingHeardEarly(t, Front(es));
  }

  // The PONG handler acts exactly when a PING was received, while connected,
  // since the last PONG, and the latest PING is at least `pong_delay` old.
  lemma PongIsExact(t: Timeouts, es: seq<Event>, now: Instant)
    ensures PongActs(t, Run(t, es), now) <==>
            && UpAfter(t, es) && HeardSincePong(t, es) > 0
            && LastPing(es).Some? && Passed(LastPing(es).value, now, t.pongDelay)
  {
    PongStamp(t, es);
    StateExactly(t, es);
  }

  function Pending(w: World): nat {
    if Up(w) && w.conn.keepAlive.lastPingReceivedAt.Some? then 1 else 0
  }

  lemma PongAccountStep(t: Timeouts, es: seq<Event>)
    requires es != []
    ensures PongsSent(t, es) - PongsSent(t, Front(es)) + Pending(Run(t, es))
         <= PingsHeard(t, es) - PingsHeard(t, Front(es)) + Pending(Run(t, Front(es)))
  {
    hide Apply, FirstServer, UpAfter;
    var w, e := Run(t, Front(es)), Last(es);
    StateExactly(t, Front(es));
    PongEvent(t, w, e);
    if Up(Run(t, es)) && !Up(w) {
      ComesUpSilent(t, w, e);
    }
  }

  // In every stretch of a run the PONGs sent, plus one if a reply is pending at
  // its end, are covered by the PINGs heard in it, plus one if a reply was
  // pending at its start. From the start of a run: PONGs never exceed PINGs.
  lemma {:induction false} PongAccount(t: Timeouts, es: seq<Event>, more: seq<Event>)
    ensures PongsSent(t, es + more) - PongsSent(t, es) + Pending(Run(t, es + more))
         <= PingsHeard(t, es + more) - PingsHeard(t, es) + Pending(Run(t, es))
    decreases |more|
  {
    hide PongsSent, PingsHeard, Run, Pending;
    if more == [] {
      assert es + more == es;
    } else {
      assert Front(es + more) == es + Front(more);
      PongAccount(t, es, Front(more));
      PongAccountStep(t, es + more);
    }
  }

  // Between two PONGs lies at least one PING heard.
  lemma PingBetweenPongs(t: Timeouts, es: seq<Event>, e: Event, more: seq<Event>)
    requires Sends(t, Run(t, es), e, CPong)
    requires PongsSent(t, es + [e] + more) > PongsSent(t, es + [e])
    ensures PingsHeard(t, es + [e] + more) > PingsHeard(t, es + [e])
  {
    hide PongsSent, PingsHeard, Apply;
    RunOne(t, es, e);
    PongEvent(t, Run(t, es), e);
    PongClears(t, Run(t, es), e);
    PongAccount(t, es + [e], more);
  }

  lemma PongClears(t: Timeouts, w: World, e: Event)
    requires e.SendPong? && PongActs(t, w, e.now)
    ensures Pending(Apply(t, w, e)) == 0
  {
  }

  // ------------------------------------------------- the log holds no others

  lemma EnqueueCounts(w: World, c: ClientCommand, timer: ClientCommand)
    requires Up(w)
    ensures multiset(Enqueue(w, c).log)[timer] == multiset(w.log)[timer] + if c == timer then 1 else 0
  {
  }

  lemma ClientSendsNoTimers(w: World, c: ConnectionCommand, now: Instant, timer: ClientCommand)
    requires IsTimer(timer)
    ensures multiset(OnClient(w, c, now).log)[timer] == multiset(w.log)[timer]
  {
    if Up(w) && c.DoSubscribe? {
      var o := c.options;
      var sub := CSubscribe(Subscribe(c.subject, o.queueGroup, Text.Decimal(w.conn.sidGenerator)));
      EnqueueCounts(w, sub, timer);
      EnqueueCounts(Enqueue(w, sub), CUnsubscribe(Unsubscribe(Text.Decimal(w.conn.sidGenerator), o.maxMsgs)), timer);
    }
  }

  lemma {:induction false} ReplaySendsNoTimers(
    w: World, backlog: seq<(ConnectionCommand, Instant)>, now: Instant, timer: ClientCommand)
    requires IsTimer(timer)
    ensures multiset(Replay(w, backlog, now).log)[timer] == multiset(w.log)[timer]
    decreases |backlog|
  {
    hide OnClient;
    if backlog != [] {
      ReplaySendsNoTimers(w, Front(backlog), now, timer);
      ClientSendsNoTimers(Replay(w, Front(backlog), now), Last(backlog).0, now, timer);
    }
  }

  lemma TimerStep(t: Timeouts, w: World, e: Event, timer: ClientCommand)
    requires IsTimer(timer)
    ensures multiset(Apply(t, w, e).log)[timer] == multiset(w.log)[timer] + if Sends(t, w, e, timer) then 1 else 0
  {
    hide OnClient, Replay;
    match e
    case ServerInput(command, now) =>
      if w.conn.AwaitingInfo? {
        ReplaySendsNoTimers(Connected(w), w.conn.preliminary, now, timer);
      }
    case ClientInput(command, now) => ClientSendsNoTimers(w, command, now, timer);
    case PollTransmit =>
    case SendPing(_) => LogGrew(w.log, timer);
    case SendPong(_) => LogGrew(w.log, timer);
    case KeepAlive(_) =>
  }

  lemma OnlySendPingPings(t: Timeouts, w: World, e: Event)
    requires Sends(t, w, e, CPing)
    ensures e.SendPing?
  {
    LogGrew(w.log, CPing);
    LogsDiffer(w.log, CPing, CPong);
  }

  // The PINGs and PONGs counted above are all there are in the log.
  lemma {:induction false} TimersInLog(t: Timeouts, es: seq<Event>)
    ensures multiset(Run(t, es).log)[CPing] == |PingTimes(t, es)|
    ensures multiset(Run(t, es).log)[CPong] == PongsSent(t, es)
    decreases |es|
  {
    hide Apply, Sends;
    if es != [] {
      var w, e := Run(t, Front(es)), Last(es);
      TimersInLog(t, Front(es));
      TimerStep(t, w, e, CPing);
      TimerStep(t, w, e, CPong);
      if Sends(t, w, e, CPing) {
        OnlySendPingPings(t, w, e);
      }
    }
  }

  // ------------------------------------------------------- deadlines agree

  function Stamp(e: Event): Option<Instant> {
    if e.PollTransmit? then None else Some(e.now)
  }

  // The latest instant the run has seen.
  function Clock(es: seq<Event>): Instant {
    if es == [] then 0
    else if Stamp(Last(es)).Some? && Stamp(Last(es)).value > Clock(Front(es)) then Stamp(Last(es)).value
    else Clock(Front(es))
  }

  predicate NotAfter(stamp: Option<Instant>, now: Instant) {
    stamp.Some? ==> stamp.value <= now
  }

  predicate StampsNotAfter(w: World, now: Instant) {
    Up(w) ==>
      && NotAfter(w.conn.keepAlive.lastPingSentAt, now)
      && NotAfter(w.conn.keepAlive.lastPingReceivedAt, now)
      && NotAfter(w.conn.keepAlive.lastPongReceivedAt, now)
  }

  lemma StampStep(t: Timeouts, w: World, e: Event, now: Instant)
    requires StampsNotAfter(w, now) && NotAfter(Stamp(e), now)
    ensures StampsNotAfter(Apply(t, w, e), now)
  {
    hide Replay, OnClient;
    if Up(Apply(t, w, e)) && !Up(w) {
      ComesUpSilent(t, w, e);
    } else if e.ClientInput? && Up(w) {
      ClientKeepsStamps(w, e.client, e.now);
    } else if e.ServerInput? && Up(w) {
      ServerStamps(w, e.server, e.now);
    }
  }

  lemma ClientKeepsStamps(w: World, c: ConnectionCommand, now: Instant)
    requires Up(w)
    ensures Up(OnClient(w, c, now)) && OnClient(w, c, now).conn.keepAlive == w.conn.keepAlive
  {
  }

  lemma ServerStamps(w: World, c: ServerCommand, now: Instant)
    requires Up(w)
    ensures var k := OnServer(w, c, now).conn.keepAlive;
            && k.lastPingSentAt == w.conn.keepAlive.lastPingSentAt
            && (k.lastPingReceivedAt == w.conn.keepAlive.lastPingReceivedAt || k.lastPingReceivedAt == Some(now))
            && (k.lastPongReceivedAt == w.conn.keepAlive.lastPongReceivedAt || k.lastPongReceivedAt == Some(now))
  {
  }

  lemma {:induction false} StampsAreInThePast(t: Timeouts, es: seq<Event>, now: Instant)
    requires Clock(es) <= now
    ensures StampsNotAfter(Run(t, es), now)
    decreases |es|
  {
    hide Apply;
    if es != [] {
      StampsAreInThePast(t, Front(es), now);
      StampStep(t, Run(t, Front(es)), Last(es), now);
    }
  }

  predicate Due(deadline: Option<Instant>, now: Instant) {
    deadline.Some? && deadline.value <= now
  }

  // A deadline polled at any instant not before the run's clock is the instant
  // at which the handler starts to act: from then on it acts, and before that
  // it does not. Having acted it leaves no deadline that has come: a driver
  // that sleeps until the deadline never spins and never comes late.
  lemma TimersAgree(t: Timeouts, es: seq<Event>, now: Instant, later: Instant)
    requires Clock(es) <= now <= later
    ensures var w := Run(t, es);
            && (PingActs(t, w, later) <==> Due(PollSendPing(t, w, now), later))
            && (PongActs(t, w, later) <==> Due(PollSendPong(t, w), later))
            && (KeepAliveActs(t, w, later) <==> Due(PollKeepAlive(t, w), later))
            && (t.pingInterval > 0 ==> !Due(PollSendPing(t, OnSendPing(t, w, now), now), now))
            && !Due(PollSendPong(t, OnSendPong(t, w, now)), now)
            && !Due(PollKeepAlive(t, OnKeepAlive(t, w, now)), now)
  {
    StampsAreInThePast(t, es, now);
    StampsAreInThePast(t, es, later);
  }

  // What the polls report while connected, from the events alone: the latest
  // PING sent and the interval, the latest PING heard since the last PONG and
  // the delay, the latest PONG heard and the keep-alive time.
  lemma DeadlinesExactly(t: Timeouts, es: seq<Event>, now: Instant)
    requires UpAfter(t, es)
    ensures var w := Run(t, es);
            var sent := PingTimes(t, es);
            && Up(w)
            && PollSendPing(t, w, now) == Some(if sent == [] then now else Last(sent) + t.pingInterval)
            && (HeardSincePong(t, es) == 0 ==> PollSendPong(t, w) == None)
            && (HeardSincePong(t, es) > 0 ==>
                  LastPing(es).Some? && PollSendPong(t, w) == Some(LastPing(es).value + t.pongDelay))
            && (LastPong(es).None? ==> PollKeepAlive(t, w) == None)
            && (LastPong(es).Some? ==> PollKeepAlive(t, w) == Some(LastPong(es).value + t.keepAlive))
  {
    hide Run, PingTimes, HeardSincePong, Lost;
    StateExactly(t, es);
    PingStamp(t, es);
    PongStamp(t, es);
  }
}
