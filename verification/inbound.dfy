// From the server's bytes to the subscribers' channels: the decoder and the
// connection together, in the direction the client reads.
module Inbound {
  import opened Bytes
  import opened Commands
  import opened Connection
  import opened Decoder
  import opened Routing
  import opened Runs
  import opened ServerFrames
  import opened Streams
  import opened Text
  import opened Wrappers

  function ServerInputs(es: seq<Event>): seq<ServerCommand> {
    if es == [] then []
    else ServerInputs(Front(es)) + if Last(es).ServerInput? then [Last(es).server] else []
  }

  // The messages a server sends under a SID.
  function MessagesFor(cs: seq<ServerCommand>, sid: bytes): seq<Message> {
    if cs == [] then []
    else
      var m := Carried(Last(cs));
      MessagesFor(Front(cs), sid) + if m.Some? && m.value.sid == sid then [m.value] else []
  }

  // The commands they are sent in.
  function CommandsFor(cs: seq<ServerCommand>, sid: bytes): seq<ServerCommand> {
    if cs == [] then []
    else CommandsFor(Front(cs), sid) + if AddressedTo(Last(cs), sid) then [Last(cs)] else []
  }

  lemma {:induction false} MessagesContents(cs: seq<ServerCommand>, sid: bytes)
    ensures AllDelivered(CommandsFor(cs, sid), MessagesFor(cs, sid))
    decreases |cs|
  {
    if cs != [] {
      MessagesContents(Front(cs), sid);
    }
  }

  predicate StandsAt<T(==)>(part: seq<T>, whole: seq<T>, a: nat) {
    a + |part| <= |whole| && part == whole[a..a + |part|]
  }

  ghost predicate IsStretch<T>(part: seq<T>, whole: seq<T>) {
    exists a: nat :: StandsAt(part, whole, a)
  }

  predicate EndsWith<T(==)>(whole: seq<T>, part: seq<T>) {
    |part| <= |whole| && part == whole[|whole| - |part|..]
  }

  // ------------------------------------------------------------- no gaps

  lemma ServerInputsOneMore(es: seq<Event>, sid: bytes)
    requires es != []
    ensures MessagesFor(ServerInputs(es), sid)
         == MessagesFor(ServerInputs(Front(es)), sid)
            + var m := MessageOf(Last(es)); if m.Some? && m.value.sid == sid then [m.value] else []
  {
    var cs := ServerInputs(Front(es));
    if Last(es).ServerInput? {
      assert Front(cs + [Last(es).server]) == cs;
    } else {
      assert cs + [] == cs;
    }
  }

  // A subscription that starts to listen has received nothing before.
  lemma NothingBeforeListening(t: Timeouts, es: seq<Event>, k: nat)
    requires es != [] && !Listening(t, Front(es), k) && Listening(t, es, k)
    ensures Routed(t, Front(es), k) == []
  {
    hide Live, Decimal, Routed, Expired;
    var front := Front(es);
    LostUnfold(t, es);
    if !UpAfter(t, front) {
      NothingRoutedEarly(t, front, k);
    } else {
      assert es == front + [Last(es)];
      ClientInputsAppend(front, [Last(es)]);
      if k < Subs(ClientInputs(front)) {
        DeadStaysDead(ClientInputs(front), ClientInputs([Last(es)]), k + 1);
      }
      NothingRoutedYet(t, front, k);
    }
  }

  // A message never makes a subscription start to listen.
  lemma MessagesWakeNobody(t: Timeouts, es: seq<Event>, k: nat)
    requires es != [] && MessageOf(Last(es)).Some? && !Listening(t, Front(es), k)
    ensures !Listening(t, es, k)
  {
    hide Live, Decimal, Expired;
    LostUnfold(t, es);
    assert ClientInputs(Front(es)) + [] == ClientInputs(Front(es));
  }

  lemma {:induction false} RoutedWithoutGaps(t: Timeouts, es: seq<Event>, k: nat)
    ensures var sent := MessagesFor(ServerInputs(es), Decimal(k + 1));
            && IsStretch(Routed(t, es, k), sent)
            && (Listening(t, es, k) ==> EndsWith(sent, Routed(t, es, k)))
    decreases |es|
  {
    hide Listening, Decimal, MessagesFor, ServerInputs, IsStretch;
    var sent := MessagesFor(ServerInputs(es), Decimal(k + 1));
    if es == [] {
      StretchGrows([], [], sent);
      assert [] + sent == sent;
    } else {
      var front := Front(es);
      var before := MessagesFor(ServerInputs(front), Decimal(k + 1));
      ServerInputsOneMore(es, Decimal(k + 1));
      RoutedWithoutGaps(t, front, k);
      if Listening(t, front, k) {
        EndIsStretch(sent, Routed(t, es, k));
      } else {
        StretchGrows(Routed(t, front, k), before, sent[|before|..]);
        assert before + sent[|before|..] == sent;
        assert Routed(t, es, k) == Routed(t, front, k);
        if Listening(t, es, k) {
          NothingBeforeListening(t, es, k);
          if MessageOf(Last(es)).Some? {
            MessagesWakeNobody(t, es, k);
          }
        }
      }
    }
  }

  lemma StretchGrows<T>(part: seq<T>, whole: seq<T>, more: seq<T>)
    requires IsStretch(part, whole) || part == []
    ensures IsStretch(part, whole + more)
  {
    if part == [] {
      assert StandsAt(part, whole + more, 0);
    } else {
      var a: nat :| StandsAt(part, whole, a);
      assert StandsAt(part, whole + more, a);
    }
  }

  lemma EndIsStretch<T>(whole: seq<T>, part: seq<T>)
    requires EndsWith(whole, part)
    ensures IsStretch(part, whole)
  {
    assert StandsAt(part, whole, |whole| - |part|);
  }

  // The bytes of any server commands, cut at safe positions and decoded, fed
  // to a connection among whatever else happens to it: the connection sees
  // exactly these commands, and what a subscriber has received is one
  // contiguous stretch of the messages the server sent under its SID, in order
  // and without gaps; up to the latest one while the subscription is live.
  lemma InboundIsRouted(
    json: Json, t: Timeouts, es: seq<Event>, cs: seq<ServerCommand>, orders: seq<seq<bytes>>,
    chunks: seq<bytes>, k: nat)
    requires |cs| == |orders| && ServerStreamable(json, cs, orders)
    requires Concat(chunks) == ServerBytes(cs, orders)
    requires forall i: nat :: i <= |chunks| ==> SafeServerCut(cs, orders, |Concat(chunks[..i])|)
    requires Subs(ClientInputs(es)) + 1 < USIZE_LIMIT && k < |Run(t, es).channels|
    ensures Sound(ServerTable(json))
    ensures ServerInputs(es) == FeedAll(ServerTable(json), chunks).frames ==>
              var sent := MessagesFor(cs, Decimal(k + 1));
              && AllDelivered(CommandsFor(cs, Decimal(k + 1)), sent)
              && ServerInputs(es) == cs
              && Run(t, es).channels[k] == Routed(t, es, k)
              && IsStretch(Run(t, es).channels[k], sent)
              && (Listening(t, es, k) ==> EndsWith(sent, Run(t, es).channels[k]))
  {
    hide ServerTable, FeedAll, ServerStreamable, ServerBytes, SafeServerCut, Run, Routed, Listening, Decimal,
      MessagesFor, ServerInputs, Concat, CommandsFor, AllDelivered;
    MessagesContents(cs, Decimal(k + 1));
    ServerCutsExactly(json, cs, orders, chunks);
    RoutingIsExact(t, es);
    RoutedWithoutGaps(t, es, k);
  }

  // --------------------------------------------------- what one batch adds

  function Arrivals(cs: seq<ServerCommand>, times: seq<Instant>): seq<Event>
    requires |cs| == |times|
  {
    if cs == [] then [] else Arrivals(Front(cs), Front(times)) + [ServerInput(Last(cs), Last(times))]
  }

  lemma ServerInputKeepsListening(t: Timeouts, es: seq<Event>, c: ServerCommand, now: Instant, k: nat)
    requires FirstServer(es).Some?
    ensures var all := es + [ServerInput(c, now)];
            FirstServer(all) == FirstServer(es) && (Listening(t, all, k) <==> Listening(t, es, k))
  {
    hide Live, Decimal, Expired;
    var all := es + [ServerInput(c, now)];
    assert Front(all) == es;
    LostUnfold(t, all);
    assert !Expired(t, all, |all| - 1) by { NoExpiry(t, all, |all| - 1); }
    assert ClientInputs(es) + [] == ClientInputs(es);
  }

  lemma NoExpiry(t: Timeouts, es: seq<Event>, i: nat)
    requires i < |es| && !es[i].KeepAlive?
    ensures !Expired(t, es, i)
  {
  }

  lemma {:induction false} ArrivalsAreRouted(
    t: Timeouts, es: seq<Event>, cs: seq<ServerCommand>, times: seq<Instant>, k: nat)
    requires |cs| == |times| && FirstServer(es).Some?
    ensures var all := es + Arrivals(cs, times);
            && FirstServer(all) == FirstServer(es)
            && (Listening(t, all, k) <==> Listening(t, es, k))
            && ClientInputs(all) == ClientInputs(es)
            && Routed(t, all, k)
            == Routed(t, es, k) + if Listening(t, es, k) then MessagesFor(cs, Decimal(k + 1)) else []
    decreases |cs|
  {
    hide Listening, Decimal, FirstServer, Arrivals, Routed, ClientInputs, MessagesFor, Carried;
    if cs == [] {
      NoArrivals(k);
      assert es + Arrivals(cs, times) == es;
    } else {
      var before := es + Arrivals(Front(cs), Front(times));
      var e := ServerInput(Last(cs), Last(times));
      ArrivalsAreRouted(t, es, Front(cs), Front(times), k);
      ServerInputKeepsListening(t, before, Last(cs), Last(times), k);
      ArrivalsUnfold(cs, times);
      assert es + Arrivals(cs, times) == before + [e];
      RoutedOneMore(t, before, Last(cs), Last(times), k);
      MessagesUnfold(cs, Decimal(k + 1));
    }
  }

  lemma NoArrivals(k: nat)
    ensures Arrivals([], []) == [] && MessagesFor([], Decimal(k + 1)) == []
  {
  }

  lemma ArrivalsUnfold(cs: seq<ServerCommand>, times: seq<Instant>)
    requires |cs| == |times| && cs != []
    ensures Arrivals(cs, times) == Arrivals(Front(cs), Front(times)) + [ServerInput(Last(cs), Last(times))]
  {
  }

  lemma RoutedOneMore(t: Timeouts, es: seq<Event>, c: ServerCommand, now: Instant, k: nat)
    ensures var all := es + [ServerInput(c, now)];
            && ClientInputs(all) == ClientInputs(es)
            && Routed(t, all, k)
            == Routed(t, es, k)
               + if Listening(t, es, k) && Carried(c).Some? && Carried(c).value.sid == Decimal(k + 1)
                 then [Carried(c).value] else []
  {
    hide Listening, Decimal;
    assert Front(es + [ServerInput(c, now)]) == es;
    assert ClientInputs(es) + [] == ClientInputs(es);
  }

  lemma MessagesUnfold(cs: seq<ServerCommand>, sid: bytes)
    requires cs != []
    ensures MessagesFor(cs, sid)
         == MessagesFor(Front(cs), sid)
            + if Carried(Last(cs)).Some? && Carried(Last(cs)).value.sid == sid then [Carried(Last(cs)).value] else []
  {
  }

  lemma {:induction false} ChannelsNeedAServer(t: Timeouts, es: seq<Event>)
    requires Run(t, es).channels != []
    ensures FirstServer(es).Some?
  {
    if FirstServer(es).None? {
      EarlyRun(t, es);
    }
  }

  // Bytes of any server commands, cut at safe positions, decoded and fed at any
  // times to a connection that has issued SID k + 1: channel k grows by the
  // messages sent under that SID if the subscription is live and the connection
  // is up, and by nothing otherwise.
  lemma InboundIsDelivered(
    json: Json, t: Timeouts, es: seq<Event>, cs: seq<ServerCommand>, orders: seq<seq<bytes>>,
    chunks: seq<bytes>, times: seq<Instant>, k: nat)
    requires |cs| == |orders| == |times| && ServerStreamable(json, cs, orders)
    requires Concat(chunks) == ServerBytes(cs, orders)
    requires forall i: nat :: i <= |chunks| ==> SafeServerCut(cs, orders, |Concat(chunks[..i])|)
    requires Subs(ClientInputs(es)) + 1 < USIZE_LIMIT && k < |Run(t, es).channels|
    ensures Sound(ServerTable(json))
    ensures var frames := FeedAll(ServerTable(json), chunks).frames;
            && |frames| == |times|
            && AllDelivered(CommandsFor(cs, Decimal(k + 1)), MessagesFor(cs, Decimal(k + 1)))
            && var w := Run(t, es + Arrivals(frames, times));
            && k < |w.channels|
            && w.channels[k]
            == Run(t, es).channels[k] + if Listening(t, es, k) then MessagesFor(cs, Decimal(k + 1)) else []
  {
    hide ServerTable, FeedAll, ServerStreamable, ServerBytes, SafeServerCut, Run, Routed, Listening, Decimal,
      MessagesFor, Concat, Arrivals, CommandsFor, AllDelivered;
    MessagesContents(cs, Decimal(k + 1));
    ServerCutsExactly(json, cs, orders, chunks);
    ChannelsNeedAServer(t, es);
    ArrivalsAreRouted(t, es, cs, times, k);
    ChannelsStayOpen(t, es, Arrivals(cs, times));
    RoutingIsExact(t, es);
    RoutingIsExact(t, es + Arrivals(cs, times));
  }
}
