// Both halves together: what a run transmits, printed, sent in pieces and
// decoded on the other side, is what the run transmitted.
module EndToEnd {
  import opened Bytes
  import opened Commands
  import opened Connection
  import opened Cuts
  import opened Decoder
  import opened Encoder
  import opened RoundTrip
  import opened Runs
  import opened Streams
  import opened Text
  import opened Wrappers

  predicate Positive(n: Option<nat>) {
    n.Some? ==> 0 < n.value < USIZE_LIMIT
  }

  // What a client must keep to: tokens without spaces and CRLF, payloads
  // without CRLF, nonzero limits.
  predicate GoodInput(c: ConnectionCommand) {
    match c
    case DoSubscribe(subject, options, _) => Token(subject) && OptToken(options.queueGroup) && Positive(options.maxMsgs)
    case DoUnsubscribe(sid, maxMsgs) => Token(sid) && Positive(maxMsgs)
    case DoPublish(subject, payload) => Token(subject) && CrlfFree(payload) && |payload| < USIZE_LIMIT
  }

  predicate Sendable(json: Json, c: ClientCommand) {
    WellFormed(json, c, []) && LineFits(json, c) && !c.CHPublish?
  }

  // The run's client inputs are good, and the first lines they lead to, and
  // CONNECT's, lie within the soft limit.
  ghost predicate GoodRun(json: Json, es: seq<Event>) {
    && Subs(ClientInputs(es)) + 1 < USIZE_LIMIT
    && (forall c :: c in ClientInputs(es) ==> GoodInput(c))
    && (forall f :: f in FramesOf(ClientInputs(es)) ==> LineFits(json, f))
    && Sendable(json, CConnect(HELLO))
  }

  lemma OneInputIsWellFormed(json: Json, c: ConnectionCommand, next: nat)
    requires GoodInput(c)
    ensures forall f :: f in FramesOfOne(c, next) ==> WellFormed(json, f, []) && !f.CHPublish?
  {
    hide Decimal, ValidUtf8;
    DecimalIsPlain(next);
  }

  lemma {:induction false} InputsAreWellFormed(json: Json, cs: seq<ConnectionCommand>)
    requires forall c :: c in cs ==> GoodInput(c)
    ensures forall f :: f in FramesOf(cs) ==> WellFormed(json, f, []) && !f.CHPublish?
    decreases |cs|
  {
    hide WellFormed, GoodInput, FramesOfOne;
    if cs != [] {
      assert Last(cs) in cs;
      assert forall c :: c in Front(cs) ==> c in cs;
      InputsAreWellFormed(json, Front(cs));
      OneInputIsWellFormed(json, Last(cs), Subs(Front(cs)) + 1);
    }
  }

  lemma {:induction false} NonTimersAreKept(log: seq<ClientCommand>, c: ClientCommand)
    requires c in log && !IsTimer(c)
    ensures c in WithoutTimers(log)
    decreases |log|
  {
    if c != Last(log) {
      assert c in Front(log);
      NonTimersAreKept(Front(log), c);
    }
  }

  lemma DownSendsNothing(t: Timeouts, w: World, e: Event)
    requires !Up(Apply(t, w, e))
    ensures Apply(t, w, e).log == w.log
  {
    hide Replay;
    if e.ServerInput? && w.conn.AwaitingInfo? && e.server.SInfo? {
      ReplayStaysUp(Connected(w), w.conn.preliminary, e.now);
    }
  }

  lemma {:induction false} MoreFrames(es: seq<Event>, c: ClientCommand)
    requires es != [] && c in FramesOf(ClientInputs(Front(es)))
    ensures c in FramesOf(ClientInputs(es))
  {
    hide FramesOfOne;
    var cs := ClientInputs(Front(es));
    if Last(es).ClientInput? {
      FramesOneMore(cs, Last(es).client);
    } else {
      assert cs + [] == cs;
    }
  }

  lemma FewerSubs(es: seq<Event>)
    requires es != []
    ensures Subs(ClientInputs(Front(es))) <= Subs(ClientInputs(es))
  {
    var cs := ClientInputs(Front(es));
    if Last(es).ClientInput? {
      assert Front(cs + [Last(es).client]) == cs;
    } else {
      assert cs + [] == cs;
    }
  }

  // Everything a run ever enqueued is CONNECT, a timer command or the frame of
  // a client input.
  lemma {:induction false} LogComesFromInputs(t: Timeouts, es: seq<Event>, c: ClientCommand)
    requires Subs(ClientInputs(es)) + 1 < USIZE_LIMIT && c in Run(t, es).log && !IsTimer(c)
    ensures c == CConnect(HELLO) || c in FramesOf(ClientInputs(es))
    decreases |es|
  {
    hide Apply, FramesOf, ClientInputs, Subs;
    var w := Run(t, es);
    if Up(w) {
      TransmitsExactly(t, es);
      NonTimersAreKept(w.log, c);
    } else if es != [] {
      DownSendsNothing(t, Run(t, Front(es)), Last(es));
      FewerSubs(es);
      LogComesFromInputs(t, Front(es), c);
      if c != CConnect(HELLO) {
        MoreFrames(es, c);
      }
    }
  }

  lemma PolledIsStreamable(json: Json, t: Timeouts, es: seq<Event>)
    requires GoodRun(json, es)
    ensures Streamable(json, Run(t, es).polled)
  {
    hide WellFormed, Run, FramesOf, ClientInputs, GoodInput, Line, Subs;
    var w := Run(t, es);
    TransmitsConserved(t, es);
    InputsAreWellFormed(json, ClientInputs(es));
    forall i | 0 <= i < |w.polled|
      ensures Sendable(json, w.polled[i])
    {
      var c := w.polled[i];
      assert w.log[i] == c && c in w.log;
      if IsTimer(c) {
        TimersAreSendable(json, c);
      } else {
        LogComesFromInputs(t, es, c);
      }
    }
  }

  lemma TimersAreSendable(json: Json, c: ClientCommand)
    requires IsTimer(c)
    ensures Sendable(json, c)
  {
  }

  // For every run, connected, lost or refused, and every way the network cuts
  // the bytes it sent: the server decodes exactly the commands that were
  // polled, in order, with nothing left over.
  lemma RunsAreTransported(json: Json, t: Timeouts, es: seq<Event>, chunks: seq<bytes>)
    requires GoodRun(json, es)
    requires Concat(chunks) == Bytestream(json, Run(t, es).polled)
    ensures Sound(ClientTable(json))
    ensures FeedAll(ClientTable(json), chunks) == Stream(Run(t, es).polled, Waiting, [])
  {
    hide Streamable, Run, GoodRun, FeedAll, Bytestream;
    PolledIsStreamable(json, t, es);
    AnyCutRoundTrip(json, Run(t, es).polled, chunks);
  }

  // When such a run is connected and drained, what the server decodes is,
  // apart from PING and PONG, CONNECT followed by the frames of all the
  // client's commands in the order they were given.
  lemma ServerSeesAllCommands(json: Json, t: Timeouts, es: seq<Event>, chunks: seq<bytes>)
    requires GoodRun(json, es)
    requires Up(Run(t, es)) && Run(t, es).conn.transmits == []
    requires Concat(chunks) == Bytestream(json, Run(t, es).polled)
    ensures Sound(ClientTable(json))
    ensures WithoutTimers(FeedAll(ClientTable(json), chunks).frames)
         == [CConnect(HELLO)] + FramesOf(ClientInputs(es))
  {
    hide Run, FeedAll, Bytestream, WithoutTimers;
    RunsAreTransported(json, t, es, chunks);
    TransmitsExactly(t, es);
    var w := Run(t, es);
    assert w.polled + [] == w.polled;
  }

  // ------------------------------------------------------------- the driver

  lemma {:induction false} BytestreamOneMore(json: Json, cs: seq<ClientCommand>, c: ClientCommand)
    ensures Bytestream(json, cs + [c]) == Bytestream(json, cs) + Encode(json, c, [])
    decreases |cs|
  {
    hide Encode, Bytestream;
    BytestreamUnfold(json, cs + [c]);
    if cs == [] {
      assert (cs + [c])[1..] == [] && (cs + [c])[0] == c;
      BytestreamEmpty(json);
    } else {
      assert (cs + [c])[1..] == cs[1..] + [c] && (cs + [c])[0] == cs[0];
      BytestreamOneMore(json, cs[1..], c);
      BytestreamUnfold(json, cs);
    }
  }

  function Drained(w: World): World {
    if Up(w) then w.(conn := w.conn.(transmits := []), polled := w.polled + w.conn.transmits) else w
  }

  // The client loop sends everything that is queued, in order, before it waits
  // again. Nothing else of the connection changes.
  method Drain(json: Json, binding: NatsBinding, dst: BytesMut)
    requires forall c :: c in binding.bufferedTransmits ==> !c.CHPublish?
    modifies binding`bufferedTransmits, binding`polled, dst
    ensures binding.Model() == Drained(old(binding.Model()))
    ensures binding.phase == PInfoReceived ==>
              && binding.bufferedTransmits == []
              && binding.polled == old(binding.polled) + old(binding.bufferedTransmits)
              && dst.data == old(dst.data) + Bytestream(json, old(binding.bufferedTransmits))
    ensures binding.phase != PInfoReceived ==>
              && binding.bufferedTransmits == old(binding.bufferedTransmits)
              && binding.polled == old(binding.polled)
              && dst.data == old(dst.data)
  {
    hide Encode, Bytestream, OnPoll;
    ghost var sent: seq<ClientCommand> := [];
    BytestreamEmpty(json);
    var going := true;
    while going
      invariant sent + binding.bufferedTransmits == old(binding.bufferedTransmits)
      invariant binding.polled == old(binding.polled) + sent
      invariant dst.data == old(dst.data) + Bytestream(json, sent)
      invariant binding.phase != PInfoReceived ==> sent == []
      invariant !going && binding.phase == PInfoReceived ==> binding.bufferedTransmits == []
      decreases going, |binding.bufferedTransmits|
    {
      var command := binding.PollTransmit();
      if command.None? {
        going := false;
      } else {
        assert command.value in old(binding.bufferedTransmits);
        EncodeCommand(json, command.value, [], dst);
        BytestreamOneMore(json, sent, command.value);
        sent := sent + [command.value];
      }
    }
    assert sent + [] == sent;
  }
}
