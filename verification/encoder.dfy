// The printer for client commands. Each method appends to the buffer it is
// given; the functions say what the appended bytes are.
module Encoder {
  import opened Bytes
  import opened Commands
  import opened Decoder
  import opened Headers
  import opened Text
  import opened Wrappers

  function Opt(s: Option<bytes>): seq<bytes> {
    if s.Some? then [s.value] else []
  }

  // The fields of the first line, and its text behind the verb.
  function PubFields(p: Publish): seq<bytes> {
    [p.subject] + Opt(p.replyTo) + [Decimal(p.size)]
  }

  function HPubFields(p: HPublish): seq<bytes> {
    [p.subject] + Opt(p.replyTo) + [Decimal(p.headerBytes), Decimal(p.totalBytes)]
  }

  function SubFields(s: Subscribe): seq<bytes> {
    [s.subject] + Opt(s.queueGroup) + [s.sid]
  }

  function UnsubFields(u: Unsubscribe): seq<bytes> {
    [u.sid] + (if u.maxMsgs.Some? then [Decimal(u.maxMsgs.value)] else [])
  }

  function Verb(c: ClientCommand): bytes {
    match c
    case CConnect(_) => CONNECT
    case CPublish(_) => PUB
    case CHPublish(_) => HPUB
    case CSubscribe(_) => SUB
    case CUnsubscribe(_) => UNSUB
    case CPing => PING
    case CPong => PONG
  }

  function Line(json: Json, c: ClientCommand): bytes {
    match c
    case CConnect(connect) => json.printConnect(connect)
    case CPublish(p) => Join(PubFields(p), SPACE)
    case CHPublish(p) => Join(HPubFields(p), SPACE)
    case CSubscribe(s) => Join(SubFields(s), SPACE)
    case CUnsubscribe(u) => Join(UnsubFields(u), SPACE)
    case CPing => []
    case CPong => []
  }

  // What follows the first line. `order` is how the hash map is enumerated.
  function Tail(c: ClientCommand, order: seq<bytes>): bytes {
    match c
    case CPublish(p) => p.payload + CRLF
    case CHPublish(p) => PrintBlock(order, p.headers) + p.payload + CRLF
    case _ => []
  }

  function Encode(json: Json, c: ClientCommand, order: seq<bytes>): bytes {
    Verb(c) + Line(json, c) + CRLF + Tail(c, order)
  }

  predicate OrderFits(c: ClientCommand, order: seq<bytes>) {
    c.CHPublish? ==> Enumerates(order, c.hpub.headers)
  }

  // ------------------------------------------------------------ the methods

  method EncodeConnect(json: Json, c: Connect, dst: BytesMut)
    modifies dst
    ensures dst.data == old(dst.data) + Encode(json, CConnect(c), [])
  {
    dst.Put(CONNECT);
    dst.Put(json.printConnect(c));
    dst.Put(CRLF);
  }

  lemma JoinTwo(a: bytes, b: bytes, d: byte)
    ensures Join([a, b], d) == a + [d] + b
  {
  }

  lemma JoinThree(a: bytes, b: bytes, c: bytes, d: byte)
    ensures Join([a, b, c], d) == a + [d] + b + [d] + c
  {
    assert [a, b, c][1..] == [b, c];
    JoinTwo(b, c, d);
  }

  lemma JoinFour(a: bytes, b: bytes, c: bytes, e: bytes, d: byte)
    ensures Join([a, b, c, e], d) == a + [d] + b + [d] + c + [d] + e
  {
    assert [a, b, c, e][1..] == [b, c, e];
    JoinThree(b, c, e, d);
  }

  lemma NoTail(json: Json, c: ClientCommand)
    requires !c.CPublish? && !c.CHPublish?
    ensures Encode(json, c, []) == Verb(c) + Line(json, c) + CRLF
  {
  }

  lemma PublishText(json: Json, p: Publish)
    ensures Encode(json, CPublish(p), [])
         == PUB + p.subject + [SPACE] + (if p.replyTo.Some? then p.replyTo.value + [SPACE] else [])
            + (Decimal(p.size) + CRLF) + p.payload + CRLF
  {
    hide Join, Decimal;
    if p.replyTo.Some? {
      assert PubFields(p) == [p.subject, p.replyTo.value, Decimal(p.size)];
      JoinThree(p.subject, p.replyTo.value, Decimal(p.size), SPACE);
    } else {
      assert PubFields(p) == [p.subject, Decimal(p.size)];
      JoinTwo(p.subject, Decimal(p.size), SPACE);
    }
  }

  method EncodePublish(json: Json, p: Publish, dst: BytesMut)
    modifies dst
    ensures dst.data == old(dst.data) + Encode(json, CPublish(p), [])
  {
    hide Encode, Decimal;
    PublishText(json, p);
    match p.replyTo
    case Some(replyTo) =>
      dst.Put(PUB + p.subject + [SPACE] + replyTo + [SPACE] + Decimal(p.size) + CRLF);
      dst.Put(p.payload);
      dst.Put(CRLF);
    case None =>
      dst.Put(PUB + p.subject + [SPACE] + Decimal(p.size) + CRLF);
      dst.Put(p.payload);
      dst.Put(CRLF);
  }

  method EncodeSubscribe(json: Json, s: Subscribe, dst: BytesMut)
    modifies dst
    ensures dst.data == old(dst.data) + Encode(json, CSubscribe(s), [])
  {
    hide Join;
    match s.queueGroup
    case Some(group) =>
      dst.Put(SUB + s.subject + [SPACE] + group + [SPACE] + s.sid + CRLF);
      assert SubFields(s) == [s.subject, group, s.sid];
      JoinThree(s.subject, group, s.sid, SPACE);
      NoTail(json, CSubscribe(s));
    case None =>
      dst.Put(SUB + s.subject + [SPACE] + s.sid + CRLF);
      assert SubFields(s) == [s.subject, s.sid];
      JoinTwo(s.subject, s.sid, SPACE);
      NoTail(json, CSubscribe(s));
  }

  method EncodeUnsubscribe(json: Json, u: Unsubscribe, dst: BytesMut)
    modifies dst
    ensures dst.data == old(dst.data) + Encode(json, CUnsubscribe(u), [])
  {
    match u.maxMsgs
    case Some(maxMsgs) =>
      dst.Put(UNSUB + u.sid + [SPACE] + Decimal(maxMsgs) + CRLF);
      assert UnsubFields(u) == [u.sid, Decimal(maxMsgs)];
      JoinTwo(u.sid, Decimal(maxMsgs), SPACE);
      NoTail(json, CUnsubscribe(u));
    case None =>
      dst.Put(UNSUB + u.sid + CRLF);
      assert UnsubFields(u) == [u.sid];
      NoTail(json, CUnsubscribe(u));
  }

  method EncodeBare(json: Json, c: ClientCommand, dst: BytesMut)
    requires c.CPing? || c.CPong?
    modifies dst
    ensures dst.data == old(dst.data) + Encode(json, c, [])
  {
    dst.Put(Verb(c) + CRLF);
  }

  // The text of some header lines.
  function HeaderText(hs: seq<Header>): bytes {
    Terminated(PrintLines(hs))
  }

  lemma HeaderTextAppend(a: seq<Header>, b: seq<Header>)
    ensures HeaderText(a + b) == HeaderText(a) + HeaderText(b)
  {
    hide Terminated, PrintHeader;
    PrintLinesAppend(a, b);
    TerminatedAppend(PrintLines(a), PrintLines(b));
  }

  lemma PrintLinesAppend(a: seq<Header>, b: seq<Header>)
    ensures PrintLines(a + b) == PrintLines(a) + PrintLines(b)
  {
    hide PrintLines, PrintHeader;
  }

  // One `{key}: {value}` line per value of one key.
  method WriteValues(name: bytes, values: seq<bytes>, dst: BytesMut)
    modifies dst
    ensures dst.data == old(dst.data) + HeaderText(LinesOf(name, values))
  {
    var i := 0;
    assert values[..0] == [];
    while i < |values|
      invariant i <= |values|
      invariant dst.data == old(dst.data) + HeaderText(LinesOf(name, values[..i]))
    {
      dst.Put(name + [COLON, SPACE] + values[i] + CRLF);
      OneMoreValue(name, values, i);
      i := i + 1;
    }
    assert values[..i] == values;
  }

  lemma OneMoreValue(name: bytes, values: seq<bytes>, i: nat)
    requires i < |values|
    ensures HeaderText(LinesOf(name, values[..i + 1]))
         == HeaderText(LinesOf(name, values[..i])) + (name + [COLON, SPACE] + values[i] + CRLF)
  {
    var one := LinesOf(name, [values[i]]);
    assert LinesOf(name, values[..i + 1]) == LinesOf(name, values[..i]) + one;
    HeaderTextAppend(LinesOf(name, values[..i]), one);
    assert PrintLines(one) == [PrintHeader(Header(name, values[i]))];
    assert Terminated(PrintLines(one)) == PrintHeader(Header(name, values[i])) + CRLF;
  }

  lemma {:induction false} FlattenAppend(a: seq<bytes>, b: seq<bytes>, m: HeaderMap)
    ensures Flatten(a + b, m) == Flatten(a, m) + Flatten(b, m)
    decreases |a|
  {
    hide Lines;
    if a == [] {
      assert a + b == b;
    } else {
      assert (a + b)[1..] == a[1..] + b;
      FlattenAppend(a[1..], b, m);
    }
  }

  lemma OneMoreName(order: seq<bytes>, m: HeaderMap, i: nat)
    requires i < |order|
    ensures HeaderText(Flatten(order[..i + 1], m))
         == HeaderText(Flatten(order[..i], m)) + HeaderText(Lines(order[i], m))
  {
    hide HeaderText, Lines;
    assert order[..i + 1] == order[..i] + [order[i]];
    FlattenAppend(order[..i], [order[i]], m);
    assert [order[i]][1..] == [];
    assert Flatten([order[i]], m) == Lines(order[i], m) + [];
    assert Lines(order[i], m) + [] == Lines(order[i], m);
    HeaderTextAppend(Flatten(order[..i], m), Lines(order[i], m));
  }

  method WriteHeaders(order: seq<bytes>, headers: HeaderMap, dst: BytesMut)
    requires Enumerates(order, headers)
    modifies dst
    ensures dst.data == old(dst.data) + HeaderText(Flatten(order, headers))
  {
    hide HeaderText, Flatten;
    NoHeaders(headers);
    var i := 0;
    assert order[..0] == [];
    while i < |order|
      invariant i <= |order|
      invariant dst.data == old(dst.data) + HeaderText(Flatten(order[..i], headers))
    {
      assert order[i] in order;
      assert Existing(headers, order[i]) == headers[order[i]];
      WriteValues(order[i], headers[order[i]], dst);
      OneMoreName(order, headers, i);
      i := i + 1;
    }
    assert order[..i] == order;
  }

  lemma NoHeaders(m: HeaderMap)
    ensures HeaderText(Flatten([], m)) == []
  {
  }

  lemma HPubText(json: Json, p: HPublish, order: seq<bytes>)
    ensures Encode(json, CHPublish(p), order)
         == HPUB + p.subject + [SPACE] + (if p.replyTo.Some? then p.replyTo.value + [SPACE] else [])
            + (Decimal(p.headerBytes) + [SPACE] + Decimal(p.totalBytes) + CRLF)
            + (NATS_VERSION + CRLF + HeaderText(Flatten(order, p.headers)) + CRLF) + p.payload + CRLF
  {
    hide Join, Decimal, Terminated, PrintLines, Flatten;
    HPubLine(p);
  }

  method EncodeHPublish(json: Json, p: HPublish, order: seq<bytes>, dst: BytesMut)
    requires Enumerates(order, p.headers)
    modifies dst
    ensures dst.data == old(dst.data) + Encode(json, CHPublish(p), order)
  {
    hide Encode, Decimal, HeaderText, Flatten;
    HPubText(json, p, order);
    ghost var before := dst.data;
    dst.Put(HPUB + p.subject + [SPACE]);
    if p.replyTo.Some? {
      dst.Put(p.replyTo.value + [SPACE]);
    }
    dst.Put(Decimal(p.headerBytes) + [SPACE] + Decimal(p.totalBytes) + CRLF);
    ghost var line := HPUB + p.subject + [SPACE] + (if p.replyTo.Some? then p.replyTo.value + [SPACE] else [])
                      + (Decimal(p.headerBytes) + [SPACE] + Decimal(p.totalBytes) + CRLF);
    assert dst.data == before + line;
    dst.Put(NATS_VERSION + CRLF);
    WriteHeaders(order, p.headers, dst);
    dst.Put(CRLF);
    ghost var block := NATS_VERSION + CRLF + HeaderText(Flatten(order, p.headers)) + CRLF;
    assert dst.data == before + line + block;
    dst.Put(p.payload);
    dst.Put(CRLF);
  }

  lemma HPubLine(p: HPublish)
    ensures Join(HPubFields(p), SPACE)
         == p.subject + [SPACE] + (if p.replyTo.Some? then p.replyTo.value + [SPACE] else [])
            + (Decimal(p.headerBytes) + [SPACE] + Decimal(p.totalBytes))
  {
    var hb, tb := Decimal(p.headerBytes), Decimal(p.totalBytes);
    if p.replyTo.Some? {
      assert HPubFields(p) == [p.subject, p.replyTo.value, hb, tb];
      JoinFour(p.subject, p.replyTo.value, hb, tb, SPACE);
    } else {
      assert HPubFields(p) == [p.subject, hb, tb];
      JoinThree(p.subject, hb, tb, SPACE);
    }
  }

  // `encode`: dispatch on the command.
  method EncodeCommand(json: Json, c: ClientCommand, order: seq<bytes>, dst: BytesMut)
    requires OrderFits(c, order)
    modifies dst
    ensures dst.data == old(dst.data) + Encode(json, c, order)
  {
    match c
    case CConnect(connect) => EncodeConnect(json, connect, dst);
    case CPublish(p) => EncodePublish(json, p, dst);
    case CHPublish(p) => EncodeHPublish(json, p, order, dst);
    case CSubscribe(s) => EncodeSubscribe(json, s, dst);
    case CUnsubscribe(u) => EncodeUnsubscribe(json, u, dst);
    case CPing => EncodeBare(json, c, dst);
    case CPong => EncodeBare(json, c, dst);
  }
}
