// Which server commands, laid out as the protocol says, the client reads back.
module ServerExact {
  import opened Bodies
  import opened Bytes
  import opened Commands
  import opened Decoder
  import opened Encoder
  import opened Exact
  import opened Headers
  import opened RoundTrip
  import opened ServerFrames
  import opened Text
  import opened Wrappers

  lemma MsgFrameIsWellFormed(body: bytes, m: Msg, n: nat)
    requires DecodeMsg(body) == Advance(SMsg(m), n)
    ensures WellFormedMsg(m)
  {
    hide ValidUtf8, Split, ParseUsize;
    var metadata := NextSlice(body, 0).value.0;
    var fields := Split(metadata, SPACE);
    FieldIsPlain(metadata, fields[0]);
    FieldIsPlain(metadata, fields[1]);
    FieldIsPlain(metadata, fields[2]);
  }

  lemma ErrFrameIsWellFormed(text: bytes, tail: bytes)
    requires DecodeErr([QUOTE] + text + [QUOTE] + CRLF + tail) == Advance(SErr(text), |text| + 4)
    ensures ValidUtf8(text) && CrlfFree(text)
  {
    hide ValidUtf8, CrlfFree, DecodeErr;
    var line := [QUOTE] + text + [QUOTE];
    ErrSliceIsLine(line, tail, SErr(text));
    assert line[1..|line| - 1] == text;
    UnquotedIsCrlfFree(text);
  }

  lemma ErrSliceIsLine(line: bytes, tail: bytes, c: ServerCommand)
    requires DecodeErr(line + CRLF + tail) == Advance(c, |line| + 2)
    ensures CrlfFree(line)
    ensures |line| >= 2 && c == SErr(line[1..|line| - 1]) && ValidUtf8(line[1..|line| - 1])
  {
    hide ValidUtf8, CrlfFree;
    SliceIsLine(line, tail);
  }

  lemma UnquotedIsCrlfFree(text: bytes)
    requires CrlfFree([QUOTE] + text + [QUOTE])
    ensures CrlfFree(text)
  {
    var line := [QUOTE] + text + [QUOTE];
    forall i | 0 <= i < |text| - 1
      ensures !CrlfAt(text, i)
    {
      assert !CrlfAt(line, i + 1);
    }
  }

  lemma InfoFrameIsWellFormed(json: Json, info: Info, tail: bytes)
    requires DecodeInfo(json, info.text + CRLF + tail) == Advance(SInfo(info), |info.text| + 2)
    ensures CrlfFree(info.text) && json.parseInfo(info.text) == Some(info)
  {
    SliceIsLine(info.text, tail);
  }

  // -------------------------------------------------------------------- HMSG

  lemma HMsgBlocksFrame(
    body: bytes, next: nat, subject: bytes, sid: bytes, replyTo: Option<bytes>, header: bytes, total: bytes,
    m: HMsg, n: nat)
    requires next <= |body|
    requires HMsgBlocks(body, next, subject, sid, replyTo, header, total) == Advance(SHMsg(m), n)
    ensures subject == m.subject && sid == m.sid && replyTo == m.replyTo
    ensures ValidUtf8(subject) && ValidUtf8(sid) && OptUtf8(replyTo)
    ensures m.headerBytes <= m.totalBytes < USIZE_LIMIT
    ensures HMsgSlices(body, next, subject, sid, replyTo, m.headerBytes, m.totalBytes) == Advance(SHMsg(m), n)
  {
    hide ValidUtf8, ParseUsize, ParseHeaders;
  }

  lemma HMsgFrame(body: bytes, m: HMsg, n: nat)
    requires DecodeHMsg(body) == Advance(SHMsg(m), n)
    ensures Token(m.subject) && Token(m.sid) && OptToken(m.replyTo)
    ensures m.headerBytes <= m.totalBytes < USIZE_LIMIT
    ensures var next := NextSlice(body, 0).value.1;
            HMsgSlices(body, next, m.subject, m.sid, m.replyTo, m.headerBytes, m.totalBytes) == Advance(SHMsg(m), n)
  {
    hide ValidUtf8, Split, HMsgBlocks, HMsgSlices;
    var (metadata, next) := NextSlice(body, 0).value;
    var fields := Split(metadata, SPACE);
    FieldIsPlain(metadata, fields[0]);
    FieldIsPlain(metadata, fields[1]);
    FieldIsPlain(metadata, fields[2]);
    if |fields| == 5 {
      HMsgBlocksFrame(body, next, fields[0], fields[1], Some(fields[2]), fields[3], fields[4], m, n);
    } else {
      HMsgBlocksFrame(body, next, fields[0], fields[1], None, fields[2], fields[3], m, n);
    }
  }

  lemma HMsgBlocksOf(body: bytes, next: nat, m: HMsg, n: nat)
    requires next <= |body| && m.headerBytes <= m.totalBytes
    requires HMsgSlices(body, next, m.subject, m.sid, m.replyTo, m.headerBytes, m.totalBytes) == Advance(SHMsg(m), n)
    ensures n == next + m.totalBytes + 2
    ensures next + m.totalBytes <= |body|
    ensures ParseHeaders(body[next..next + m.headerBytes], m.headerBytes) == Ok(m.headers)
    ensures m.payload == body[next + m.headerBytes..next + m.totalBytes]
  {
    hide ValidUtf8, ParseHeaders;
  }

  lemma HMsgFrameIsWellFormed(m: HMsg, order: seq<bytes>, rest: bytes)
    requires Enumerates(order, m.headers)
    requires var line := Join(HMsgFields(m), SPACE);
             var tail := PrintBlock(order, m.headers) + m.payload + CRLF + rest;
             DecodeHMsg(line + CRLF + tail)
             == Advance(SHMsg(m), |line| + 2 + |PrintBlock(order, m.headers)| + |m.payload| + 2)
    ensures WellFormedHMsg(m, order)
  {
    hide ValidUtf8, Join, DecodeHMsg, HMsgSlices, PrintBlock, ParseHeaders, WellFormedHeaders, Token, Split;
    var line := Join(HMsgFields(m), SPACE);
    var block := PrintBlock(order, m.headers);
    var body := line + CRLF + (block + m.payload + CRLF + rest);
    var n := |line| + 2 + |block| + |m.payload| + 2;
    HMsgFrame(body, m, n);
    HMsgFieldsComeBack(m);
    FirstSlice(line, block + m.payload + CRLF + rest);
    HMsgBlocksOf(body, |line| + 2, m, n);
    assert m.headerBytes == |block|;
    assert body[|line| + 2..|line| + 2 + |block|] == block;
    HeadersExactlyWellFormed(order, m.headers);
  }

  // ------------------------------------------------------------ all commands

  predicate ServerOrderFits(c: ServerCommand, order: seq<bytes>) {
    c.SHMsg? ==> Enumerates(order, c.hmsg.headers)
  }

  lemma ServerBodyFrameIsWellFormed(json: Json, c: ServerCommand, order: seq<bytes>, rest: bytes)
    requires ServerOrderFits(c, order)
    requires ServerBodyOf(json, c, ServerLine(c) + CRLF + (ServerTail(c, order) + rest))
          == Advance(c, |ServerLine(c)| + 2 + |ServerTail(c, order)|)
    ensures WellFormedServer(json, c, order)
  {
    hide DecodeHMsg, DecodeMsg, DecodeErr, DecodeInfo, DecodeBare, PrintBlock, Join, ValidUtf8, WellFormedHeaders;
    var tail := ServerTail(c, order) + rest;
    match c
    case SInfo(info) => InfoFrameIsWellFormed(json, info, tail);
    case SMsg(m) =>
      MsgFrameIsWellFormed(ServerLine(c) + CRLF + tail, m, |ServerLine(c)| + 2 + |ServerTail(c, order)|);
    case SHMsg(m) =>
      assert tail == PrintBlock(order, m.headers) + m.payload + CRLF + rest;
      HMsgFrameIsWellFormed(m, order, rest);
    case SErr(text) => ErrFrameIsWellFormed(text, tail);
    case _ =>
  }

  lemma ServerFrameHasLine(json: Json, c: ServerCommand, order: seq<bytes>, rest: bytes)
    requires Decode(ServerTable(json), Layout(c, order) + rest) == Frame(c, |Layout(c, order)|)
    ensures ServerBodyOf(json, c, ServerLine(c) + CRLF + (ServerTail(c, order) + rest))
         == Advance(c, |ServerLine(c)| + 2 + |ServerTail(c, order)|)
  {
    hide ServerBodyOf, ServerTable, Dispatch, ServerVerb, ServerLine, ServerTail;
    var src := Layout(c, order) + rest;
    var body := ServerLine(c) + CRLF + (ServerTail(c, order) + rest);
    assert src == ServerVerb(c) + body;
    ServerDispatchByVerb(json, c, ServerVerb(c), body, FindCrlf(src[..Window(src)], 0));
  }

  lemma ServerFrameFits(json: Json, c: ServerCommand, order: seq<bytes>, rest: bytes)
    requires WellFormedServer(json, c, order)
    requires Decode(ServerTable(json), Layout(c, order) + rest).Frame?
    ensures ServerLineFits(c)
  {
    hide ServerTable, Dispatch, ServerVerb, ServerLine, ServerTail, WellFormedServer;
    ServerLineIsCrlfFree(json, c, order);
    ServerVerbHasNoCr(c);
    var head := ServerVerb(c) + ServerLine(c);
    CrlfFreeAfterNoCr(ServerVerb(c), ServerLine(c));
    var src := Layout(c, order) + rest;
    var k := FindCrlf(src[..Window(src)], 0);
    assert CrlfAt(src, k);
    assert src == head + CRLF + (ServerTail(c, order) + rest);
    FirstSlice(head, ServerTail(c, order) + rest);
    assert FindCrlf(src, 0) == |head|;
    assert k >= |head|;
  }

  // A server command laid out as the protocol says is read back unchanged, with
  // any bytes behind it, exactly when it is well formed and its first line fits
  // the window. For a MSG well-formedness forbids CRLF in the payload, which
  // the protocol allows.
  lemma ServerTransportsExactly(json: Json, c: ServerCommand, order: seq<bytes>, rest: bytes)
    requires ServerOrderFits(c, order)
    ensures Decode(ServerTable(json), Layout(c, order) + rest) == Frame(c, |Layout(c, order)|)
       <==> WellFormedServer(json, c, order) && ServerLineFits(c)
  {
    hide ServerTable, Decode, Layout, WellFormedServer, ServerLineFits, ServerBodyOf;
    if WellFormedServer(json, c, order) && ServerLineFits(c) {
      ServerRoundTrip(json, c, order, rest);
    }
    if Decode(ServerTable(json), Layout(c, order) + rest) == Frame(c, |Layout(c, order)|) {
      ServerFrameHasLine(json, c, order, rest);
      ServerBodyFrameIsWellFormed(json, c, order, rest);
      ServerFrameFits(json, c, order, rest);
    }
  }

  // ---------------------------------------------------- payloads with CRLF

  lemma FirstCrlfIn(payload: bytes) returns (head: bytes, tail: bytes)
    requires !CrlfFree(payload)
    ensures payload == head + CRLF + tail && CrlfFree(head)
  {
    assert payload[0..] == payload;
    var (slice, end) := NextSlice(payload, 0).value;
    head, tail := slice, payload[end..];
    SplitAt(payload, 0, end);
  }

  // A MSG with good tokens and the right size is read back exactly when its
  // payload has no CRLF; otherwise it is rejected as malformed.
  lemma MsgExactly(json: Json, m: Msg, rest: bytes)
    requires MsgTokens(m) && ServerLineFits(SMsg(m))
    ensures Decode(ServerTable(json), Layout(SMsg(m), []) + rest)
         == if CrlfFree(m.payload) then Frame(SMsg(m), |Layout(SMsg(m), [])|) else Fail(BadMsg, 0)
  {
    hide ServerTable, Decode, Layout, Join, MsgTokens, ServerLine;
    if CrlfFree(m.payload) {
      ServerRoundTrip(json, SMsg(m), [], rest);
    } else {
      CutMsgIsRejected(json, m, rest);
    }
  }

  lemma CutMsgIsRejected(json: Json, m: Msg, rest: bytes)
    requires MsgTokens(m) && ServerLineFits(SMsg(m)) && !CrlfFree(m.payload)
    ensures Decode(ServerTable(json), Layout(SMsg(m), []) + rest) == Fail(BadMsg, 0)
  {
    hide ServerTable, Decode, DecodeMsg, Join, CrlfFree, Token, OptToken;
    var c := SMsg(m);
    var line := ServerLine(c);
    MsgFieldsComeBack(m);
    var after := m.payload + CRLF + rest;
    CutMsgBody(m, rest);
    ServerDecodeLine(json, c, MSG, line, after);
    MsgLayout(m, rest);
  }

  lemma MsgLayout(m: Msg, rest: bytes)
    ensures Layout(SMsg(m), []) + rest == MSG + ServerLine(SMsg(m)) + CRLF + (m.payload + CRLF + rest)
  {
    hide ServerLine;
    var head := MSG + ServerLine(SMsg(m)) + CRLF;
    assert Layout(SMsg(m), []) == head + (m.payload + CRLF);
  }

  // The decoder takes the payload to end at its first CRLF and finds the size
  // wrong.
  lemma CutMsgBody(m: Msg, rest: bytes)
    requires MsgTokens(m) && !CrlfFree(m.payload)
    ensures DecodeMsg(Join(MsgFields(m), SPACE) + CRLF + (m.payload + CRLF + rest)) == FatalError(BadMsg)
  {
    hide DecodeMsg, Join, Token, OptToken, CrlfFree;
    var head, tail := FirstCrlfIn(m.payload);
    MsgMetadata(m, head, tail + CRLF + rest);
    assert m.payload + CRLF + rest == head + CRLF + (tail + CRLF + rest);
  }

  // "MSG A 1 2" with the payload CRLF: four bytes of payload and terminator,
  // legal in the protocol, rejected here.
  lemma MsgWithCrlfExample(json: Json)
    ensures var m := Msg([0x41], [0x31], None, 2, CRLF);
            Decode(ServerTable(json), Layout(SMsg(m), [])) == Fail(BadMsg, 0)
  {
    hide Decode, Layout, ServerTable, ServerLine;
    var m := Msg([0x41], [0x31], None, 2, CRLF);
    ExampleMsg(m);
    MsgExactly(json, m, []);
    assert Layout(SMsg(m), []) + [] == Layout(SMsg(m), []);
  }

  lemma ExampleMsg(m: Msg)
    requires m == Msg([0x41], [0x31], None, 2, CRLF)
    ensures MsgTokens(m) && ServerLineFits(SMsg(m)) && !CrlfFree(m.payload)
  {
    AsciiIsUtf8(m.subject);
    AsciiIsUtf8(m.sid);
    assert CrlfAt(m.payload, 0);
    assert Decimal(2) == [0x32];
    assert MsgFields(m) == [m.subject, m.sid, Decimal(2)];
    JoinThree(m.subject, m.sid, Decimal(2), SPACE);
  }
}
