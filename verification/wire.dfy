// The bytes on the wire, spelled out.
module Wire {
  import opened Spelling
  import opened Bytes
  import opened Commands
  import opened Decoder
  import opened Encoder
  import opened Headers
  import opened Text
  import opened Wrappers

  // ------------------------------------------------------------- the verbs

  lemma VerbSpelling()
    ensures PING == Ascii("PING") && PONG == Ascii("PONG")
    ensures HPUB == Ascii("HPUB ") && PUB == Ascii("PUB ")
    ensures SUB == Ascii("SUB ") && UNSUB == Ascii("UNSUB ")
    ensures CONNECT == Ascii("CONNECT ")
    ensures HMSG == Ascii("HMSG ") && MSG == Ascii("MSG ")
    ensures OK == Ascii("+OK") && ERR == Ascii("-ERR ")
    ensures INFO == Ascii("INFO ")
  {
  }

  lemma VerbsAreUpperCase()
    ensures NoLowerCase(PING) && NoLowerCase(PONG) && NoLowerCase(HPUB) && NoLowerCase(PUB)
    ensures NoLowerCase(SUB) && NoLowerCase(UNSUB) && NoLowerCase(CONNECT)
    ensures NoLowerCase(HMSG) && NoLowerCase(MSG) && NoLowerCase(OK) && NoLowerCase(ERR) && NoLowerCase(INFO)
  {
  }

  lemma SeparatorSpelling()
    ensures CRLF == Ascii("\r\n") && [SPACE] == Ascii(" ")
    ensures [COLON] + [SPACE] == Ascii(": ")
    ensures NATS_VERSION + CRLF == Ascii("NATS/1.0\r\n")
  {
  }

  // ------------------------------------------------------ what is printed

  // A field and the space behind it, when it is there.
  function OptField(s: Option<bytes>): bytes {
    if s.Some? then s.value + Ascii(" ") else []
  }

  // One "name: value" line per value.
  function HeaderLines(name: bytes, values: seq<bytes>): bytes {
    if values == [] then []
    else name + Ascii(": ") + values[0] + Ascii("\r\n") + HeaderLines(name, values[1..])
  }

  function AllHeaderLines(order: seq<bytes>, m: HeaderMap): bytes
    requires forall n :: n in order ==> n in m
  {
    if order == [] then [] else HeaderLines(order[0], m[order[0]]) + AllHeaderLines(order[1..], m)
  }

  lemma PingPongWire(json: Json)
    ensures Encode(json, CPing, []) == Ascii("PING\r\n")
    ensures Encode(json, CPong, []) == Ascii("PONG\r\n")
  {
    assert Encode(json, CPing, []) == [0x50, 0x49, 0x4E, 0x47, 0x0D, 0x0A];
    assert Encode(json, CPong, []) == [0x50, 0x4F, 0x4E, 0x47, 0x0D, 0x0A];
  }

  lemma ConnectWire(json: Json, c: Connect)
    ensures Encode(json, CConnect(c), []) == Ascii("CONNECT ") + json.printConnect(c) + Ascii("\r\n")
  {
    VerbSpelling();
    SeparatorSpelling();
  }

  lemma SubWire(json: Json, s: Subscribe)
    ensures Encode(json, CSubscribe(s), [])
         == Ascii("SUB ") + s.subject + Ascii(" ") + OptField(s.queueGroup) + s.sid + Ascii("\r\n")
  {
    hide Join;
    VerbSpelling();
    SeparatorSpelling();
    if s.queueGroup.Some? {
      assert SubFields(s) == [s.subject, s.queueGroup.value, s.sid];
      JoinThree(s.subject, s.queueGroup.value, s.sid, SPACE);
    } else {
      assert SubFields(s) == [s.subject, s.sid];
      JoinTwo(s.subject, s.sid, SPACE);
    }
  }

  lemma UnsubWire(json: Json, u: Unsubscribe)
    ensures Encode(json, CUnsubscribe(u), [])
         == Ascii("UNSUB ") + u.sid + (if u.maxMsgs.Some? then Ascii(" ") + Decimal(u.maxMsgs.value) else [])
            + Ascii("\r\n")
  {
    hide Decimal;
    VerbSpelling();
    SeparatorSpelling();
    if u.maxMsgs.Some? {
      assert UnsubFields(u) == [u.sid, Decimal(u.maxMsgs.value)];
      JoinTwo(u.sid, Decimal(u.maxMsgs.value), SPACE);
    } else {
      assert UnsubFields(u) == [u.sid];
    }
  }

  lemma PubWire(json: Json, p: Publish)
    ensures Encode(json, CPublish(p), [])
         == Ascii("PUB ") + p.subject + Ascii(" ") + OptField(p.replyTo) + Decimal(p.size) + Ascii("\r\n")
            + p.payload + Ascii("\r\n")
  {
    hide Decimal, Encode;
    VerbSpelling();
    SeparatorSpelling();
    PublishText(json, p);
  }

  lemma HPubLineWire(json: Json, p: HPublish)
    ensures HPUB + Line(json, CHPublish(p)) + CRLF
         == Ascii("HPUB ") + p.subject + Ascii(" ") + OptField(p.replyTo)
            + Decimal(p.headerBytes) + Ascii(" ") + Decimal(p.totalBytes) + Ascii("\r\n")
  {
    hide Join, Decimal;
    VerbSpelling();
    SeparatorSpelling();
    var header, total := Decimal(p.headerBytes), Decimal(p.totalBytes);
    if p.replyTo.Some? {
      assert HPubFields(p) == [p.subject, p.replyTo.value, header, total];
      JoinFour(p.subject, p.replyTo.value, header, total, SPACE);
    } else {
      assert HPubFields(p) == [p.subject, header, total];
      JoinThree(p.subject, header, total, SPACE);
    }
  }

  lemma {:induction false} LinesWire(name: bytes, values: seq<bytes>)
    ensures HeaderText(LinesOf(name, values)) == HeaderLines(name, values)
    decreases |values|
  {
    SeparatorSpelling();
    if values != [] {
      LinesWire(name, values[1..]);
      assert LinesOf(name, values) == [Header(name, values[0])] + LinesOf(name, values[1..]);
      HeaderTextAppend([Header(name, values[0])], LinesOf(name, values[1..]));
      assert PrintLines([Header(name, values[0])]) == [PrintHeader(Header(name, values[0]))];
      assert PrintHeader(Header(name, values[0])) == name + Ascii(": ") + values[0];
    }
  }

  lemma {:induction false} AllLinesWire(order: seq<bytes>, m: HeaderMap)
    requires forall n :: n in order ==> n in m
    ensures HeaderText(Flatten(order, m)) == AllHeaderLines(order, m)
    decreases |order|
  {
    hide HeaderText, LinesOf, HeaderLines;
    if order == [] {
      NoHeaders(m);
    } else {
      AllLinesWire(order[1..], m);
      HeaderTextAppend(Lines(order[0], m), Flatten(order[1..], m));
      LinesWire(order[0], m[order[0]]);
    }
  }

  lemma BlockWire(order: seq<bytes>, m: HeaderMap)
    requires Enumerates(order, m)
    ensures PrintBlock(order, m) == Ascii("NATS/1.0\r\n") + AllHeaderLines(order, m) + Ascii("\r\n")
  {
    hide Terminated, PrintLines, Flatten, AllHeaderLines;
    SeparatorSpelling();
    AllLinesWire(order, m);
  }

  lemma HPubWire(json: Json, p: HPublish, order: seq<bytes>)
    requires Enumerates(order, p.headers)
    ensures Encode(json, CHPublish(p), order)
         == Ascii("HPUB ") + p.subject + Ascii(" ") + OptField(p.replyTo)
            + Decimal(p.headerBytes) + Ascii(" ") + Decimal(p.totalBytes) + Ascii("\r\n")
            + (Ascii("NATS/1.0\r\n") + AllHeaderLines(order, p.headers) + Ascii("\r\n"))
            + p.payload + Ascii("\r\n")
  {
    hide Line, Decimal, PrintBlock, AllHeaderLines, Enumerates;
    SeparatorSpelling();
    HPubLineWire(json, p);
    BlockWire(order, p.headers);
  }
}
