// The decoder undoes the encoder: one command, any prefix of one command, and
// whole streams of commands.
module RoundTrip {
  import opened Bodies
  import opened Bytes
  import opened Commands
  import opened Decoder
  import opened Encoder
  import opened Headers
  import opened Streams
  import opened Text
  import opened Wrappers

  // --------------------------------------------------------- well-formedness

  predicate Token(s: bytes) {
    ValidUtf8(s) && SPACE !in s && CrlfFree(s)
  }

  predicate OptToken(s: Option<bytes>) {
    s.Some? ==> Token(s.value)
  }

  predicate WellFormedPub(p: Publish) {
    Token(p.subject) && OptToken(p.replyTo) && p.size == |p.payload| < USIZE_LIMIT && CrlfFree(p.payload)
  }

  // What the protocol asks of an HPUB.
  predicate FramedHPub(p: HPublish, order: seq<bytes>) {
    && Token(p.subject) && OptToken(p.replyTo)
    && Enumerates(order, p.headers) && WellFormedHeaders(p.headers)
    && p.headerBytes == |PrintBlock(order, p.headers)|
    && p.totalBytes == p.headerBytes + |p.payload| < USIZE_LIMIT
  }

  // Beyond that: a payload in UTF-8.
  predicate WellFormedHPub(p: HPublish, order: seq<bytes>) {
    FramedHPub(p, order) && ValidUtf8(p.payload)
  }

  predicate WellFormedSub(s: Subscribe) {
    Token(s.subject) && OptToken(s.queueGroup) && Token(s.sid)
  }

  predicate WellFormedUnsub(u: Unsubscribe) {
    Token(u.sid) && (u.maxMsgs.Some? ==> 0 < u.maxMsgs.value < USIZE_LIMIT)
  }

  predicate WellFormed(json: Json, c: ClientCommand, order: seq<bytes>) {
    match c
    case CConnect(connect) => json.Faithful(connect)
    case CPublish(p) => WellFormedPub(p)
    case CHPublish(p) => WellFormedHPub(p, order)
    case CSubscribe(s) => WellFormedSub(s)
    case CUnsubscribe(u) => WellFormedUnsub(u)
    case CPing => true
    case CPong => true
  }

  // The first CRLF must lie within the soft limit.
  predicate LineFits(json: Json, c: ClientCommand) {
    |Verb(c)| + |Line(json, c)| + 2 <= BUFSIZE_LIMIT
  }

  // ------------------------------------------------- reaching the right entry

  function BodyOf(json: Json, c: ClientCommand, body: bytes): BodyResult<ClientCommand, ClientError> {
    match c
    case CConnect(_) => DecodeConnect(json, body)
    case CPublish(_) => DecodePub(body)
    case CHPublish(_) => DecodeHPub(body)
    case CSubscribe(_) => DecodeSub(body)
    case CUnsubscribe(_) => DecodeUnsub(body)
    case CPing => DecodeBare(CPing, body)
    case CPong => DecodeBare(CPong, body)
  }

  lemma SkipEntry<T, E>(codec: Codec<T, E>, src: bytes, newline: nat, i: nat, at: nat)
    requires i < |codec.table| && at < |codec.table[i].prefix| <= |src|
    requires Lower(src[at]) != Lower(codec.table[i].prefix[at])
    ensures Dispatch(codec, src, newline, i) == Dispatch(codec, src, newline, i + 1)
  {
    var prefix := codec.table[i].prefix;
    assert src[..|prefix|][at] == src[at];
  }

  lemma TakeEntry<T, E>(codec: Codec<T, E>, word: bytes, body: bytes, newline: nat, i: nat)
    requires i < |codec.table| && EqIgnoreCase(word, codec.table[i].prefix)
    ensures Dispatch(codec, word + body, newline, i)
         == Settle(codec.table[i].decodeBody(body), |word|, |word + body|)
  {
    var src := word + body;
    assert src[..|word|] == word && src[|word|..] == body;
  }

  lemma ClientPrefixes(json: Json)
    ensures var t := ClientTable(json).table;
            && |t| == 7
            && t[0].prefix == PING && t[1].prefix == PONG && t[2].prefix == HPUB && t[3].prefix == PUB
            && t[4].prefix == SUB && t[5].prefix == UNSUB && t[6].prefix == CONNECT
  {
  }

  // Entries before the fifth are told apart from the later ones by the first letter.
  lemma SkipToSub(json: Json, src: bytes, newline: nat)
    requires |src| >= 5 && Lower(src[0]) in {0x73, 0x75, 0x63}
    ensures Dispatch(ClientTable(json), src, newline, 0) == Dispatch(ClientTable(json), src, newline, 4)
  {
    hide ClientTable, Dispatch;
    ClientPrefixes(json);
    var t := ClientTable(json);
    SkipEntry(t, src, newline, 0, 0);
    SkipEntry(t, src, newline, 1, 0);
    SkipEntry(t, src, newline, 2, 0);
    SkipEntry(t, src, newline, 3, 0);
  }

  lemma SkipToPub(json: Json, src: bytes, newline: nat)
    requires |src| >= 5 && Lower(src[0]) == 0x70 && Lower(src[1]) == 0x75
    ensures Dispatch(ClientTable(json), src, newline, 0) == Dispatch(ClientTable(json), src, newline, 3)
  {
    hide ClientTable, Dispatch;
    ClientPrefixes(json);
    var t := ClientTable(json);
    SkipEntry(t, src, newline, 0, 1);
    SkipEntry(t, src, newline, 1, 1);
    SkipEntry(t, src, newline, 2, 0);
  }

  lemma EntryBodies(json: Json, body: bytes)
    ensures var t := ClientTable(json).table;
            && t[0].decodeBody(body) == DecodeBare(CPing, body)
            && t[1].decodeBody(body) == DecodeBare(CPong, body)
            && t[2].decodeBody(body) == DecodeHPub(body)
            && t[3].decodeBody(body) == DecodePub(body)
            && t[4].decodeBody(body) == DecodeSub(body)
            && t[5].decodeBody(body) == DecodeUnsub(body)
            && t[6].decodeBody(body) == DecodeConnect(json, body)
  {
    hide DecodeBare, DecodeHPub, DecodePub, DecodeSub, DecodeUnsub, DecodeConnect;
  }

  lemma SameLetters(word: bytes, verb: bytes)
    requires EqIgnoreCase(word, verb)
    ensures |word| == |verb|
    ensures forall i :: 0 <= i < |word| ==> Lower(word[i]) == Lower(verb[i])
  {
  }

  // Each verb is matched by its own entry and by none before it, in whatever case
  // it is written.
  lemma DispatchByVerb(json: Json, c: ClientCommand, word: bytes, body: bytes, newline: nat)
    requires |body| >= 2 && EqIgnoreCase(word, Verb(c))
    ensures Dispatch(ClientTable(json), word + body, newline, 0)
         == Settle(BodyOf(json, c, body), |word|, |word + body|)
  {
    hide DecodeBare, DecodeHPub, DecodePub, DecodeSub, DecodeUnsub, DecodeConnect, Dispatch, Settle, ClientTable;
    ClientPrefixes(json);
    EntryBodies(json, body);
    var t := ClientTable(json);
    var src := word + body;
    SameLetters(word, Verb(c));
    assert forall i :: 0 <= i < |word| ==> src[i] == word[i];
    match c
    case CPing =>
      TakeEntry(t, word, body, newline, 0);
    case CPong =>
      SkipEntry(t, src, newline, 0, 1);
      TakeEntry(t, word, body, newline, 1);
    case CHPublish(_) =>
      SkipEntry(t, src, newline, 0, 0);
      SkipEntry(t, src, newline, 1, 0);
      TakeEntry(t, word, body, newline, 2);
    case CPublish(_) =>
      SkipToPub(json, src, newline);
      TakeEntry(t, word, body, newline, 3);
    case CSubscribe(_) =>
      SkipToSub(json, src, newline);
      TakeEntry(t, word, body, newline, 4);
    case CUnsubscribe(_) =>
      SkipToSub(json, src, newline);
      SkipEntry(t, src, newline, 4, 0);
      TakeEntry(t, word, body, newline, 5);
    case CConnect(_) =>
      SkipToSub(json, src, newline);
      SkipEntry(t, src, newline, 4, 0);
      SkipEntry(t, src, newline, 5, 0);
      TakeEntry(t, word, body, newline, 6);
  }

  lemma FirstCrlfInWindow(line: bytes, tail: bytes)
    requires CrlfFree(line) && |line| + 2 <= BUFSIZE_LIMIT
    ensures var src := line + CRLF + tail; FindCrlf(src[..Window(src)], 0) == |line| < Window(src)
  {
    var src := line + CRLF + tail;
    var w := src[..Window(src)];
    assert CrlfAt(w, |line|);
    forall i | 0 <= i < |line|
      ensures !CrlfAt(w, i)
    {
      if i + 1 < |line| {
        assert !CrlfAt(line, i);
      }
    }
    FirstCrlfIsUnique(w, 0, |line|);
  }

  lemma VerbHasNoCr(c: ClientCommand)
    ensures CR !in Verb(c) && 4 <= |Verb(c)| <= 8
  {
  }

  lemma WordHasNoCr(word: bytes, verb: bytes)
    requires EqIgnoreCase(word, verb) && CR !in verb
    ensures CR !in word
  {
    forall i | 0 <= i < |word|
      ensures word[i] != CR
    {
      assert Lower(word[i]) == Lower(verb[i]) && verb[i] in verb;
    }
  }

  // What a complete first line in the window comes down to.
  lemma DecodeLine(json: Json, c: ClientCommand, word: bytes, line: bytes, tail: bytes)
    requires EqIgnoreCase(word, Verb(c)) && CrlfFree(line) && |word| + |line| + 2 <= BUFSIZE_LIMIT
    ensures Decode(ClientTable(json), word + line + CRLF + tail)
         == Settle(BodyOf(json, c, line + CRLF + tail), |word|, |word + line + CRLF + tail|)
  {
    hide BodyOf, Settle, Dispatch, ClientTable;
    VerbHasNoCr(c);
    WordHasNoCr(word, Verb(c));
    CrlfFreeAfterNoCr(word, line);
    FirstCrlfInWindow(word + line, tail);
    var body := line + CRLF + tail;
    assert word + line + CRLF + tail == word + body;
    DispatchByVerb(json, c, word, body, |word + line|);
  }

  // ------------------------------------------------------- body round trips

  lemma FirstSlice(line: bytes, tail: bytes)
    requires CrlfFree(line)
    ensures NextSlice(line + CRLF + tail, 0) == Some((line, |line| + 2))
  {
    assert [] + line + CRLF + tail == line + CRLF + tail;
    NextSliceOfTerminated([], line, tail);
  }

  lemma FieldsComeBack(fields: seq<bytes>)
    requires |fields| >= 1
    requires forall f :: f in fields ==> SPACE !in f && CrlfFree(f)
    ensures Split(Join(fields, SPACE), SPACE) == fields
    ensures CrlfFree(Join(fields, SPACE))
  {
    SplitJoin(fields, SPACE);
    JoinIsCrlfFree(fields, SPACE);
  }

  lemma LineIsCrlfFree(json: Json, c: ClientCommand, order: seq<bytes>)
    requires WellFormed(json, c, order)
    ensures CrlfFree(Line(json, c))
  {
    hide Split, Join, ValidUtf8, PrintBlock, WellFormedHeaders;
    match c
    case CConnect(_) =>
    case CPublish(p) => PubFieldsComeBack(p);
    case CHPublish(p) => HPubFieldsComeBack(p);
    case CSubscribe(s) => FieldsComeBack(SubFields(s));
    case CUnsubscribe(u) => UnsubFieldsComeBack(u);
    case CPing =>
    case CPong =>
  }

  lemma PubFieldsComeBack(p: Publish)
    requires Token(p.subject) && OptToken(p.replyTo)
    ensures Split(Join(PubFields(p), SPACE), SPACE) == PubFields(p)
    ensures CrlfFree(Join(PubFields(p), SPACE))
  {
    hide ValidUtf8, Split, Join, Decimal;
    DecimalIsPlain(p.size);
    FieldsComeBack(PubFields(p));
  }

  lemma HPubFieldsComeBack(p: HPublish)
    requires Token(p.subject) && OptToken(p.replyTo)
    ensures Split(Join(HPubFields(p), SPACE), SPACE) == HPubFields(p)
    ensures CrlfFree(Join(HPubFields(p), SPACE))
  {
    hide ValidUtf8, Split, Join, Decimal;
    DecimalIsPlain(p.headerBytes);
    DecimalIsPlain(p.totalBytes);
    FieldsComeBack(HPubFields(p));
  }

  lemma UnsubFieldsComeBack(u: Unsubscribe)
    requires Token(u.sid)
    ensures Split(Join(UnsubFields(u), SPACE), SPACE) == UnsubFields(u)
    ensures CrlfFree(Join(UnsubFields(u), SPACE))
  {
    hide ValidUtf8, Split, Join, Decimal;
    if u.maxMsgs.Some? {
      DecimalIsPlain(u.maxMsgs.value);
    }
    FieldsComeBack(UnsubFields(u));
  }

  lemma PubBody(p: Publish, rest: bytes)
    requires WellFormedPub(p)
    ensures var line := Join(PubFields(p), SPACE);
            DecodePub(line + CRLF + (p.payload + CRLF + rest)) == Advance(CPublish(p), |line| + |p.payload| + 4)
  {
    hide ValidUtf8, Split, Join, Decimal;
    PubFieldsComeBack(p);
    DecimalIsPlain(p.size);
    ParseDecimal(p.size);
    var line := Join(PubFields(p), SPACE);
    var body := line + CRLF + (p.payload + CRLF + rest);
    FirstSlice(line, p.payload + CRLF + rest);
    assert body == (line + CRLF) + p.payload + CRLF + rest;
    NextSliceOfTerminated(line + CRLF, p.payload, rest);
  }

  lemma SubBody(s: Subscribe, rest: bytes)
    requires WellFormedSub(s)
    ensures var line := Join(SubFields(s), SPACE);
            DecodeSub(line + CRLF + rest) == Advance(CSubscribe(s), |line| + 2)
  {
    hide ValidUtf8, Split, Join;
    FieldsComeBack(SubFields(s));
    FirstSlice(Join(SubFields(s), SPACE), rest);
  }

  lemma UnsubBody(u: Unsubscribe, rest: bytes)
    requires WellFormedUnsub(u)
    ensures var line := Join(UnsubFields(u), SPACE);
            DecodeUnsub(line + CRLF + rest) == Advance(CUnsubscribe(u), |line| + 2)
  {
    hide ValidUtf8, Split, Decimal;
    UnsubFieldsComeBack(u);
    FirstSlice(Join(UnsubFields(u), SPACE), rest);
    if u.maxMsgs.Some? {
      DecimalIsPlain(u.maxMsgs.value);
      ParseDecimal(u.maxMsgs.value);
    }
  }

  // The part of an HPUB body behind the metadata line, once all of it is there.
  lemma HPubComplete(p: HPublish, order: seq<bytes>, before: bytes, rest: bytes)
    requires WellFormedHPub(p, order)
    ensures var body := before + PrintBlock(order, p.headers) + p.payload + CRLF + rest;
            HPubSlices(body, |before|, p.subject, p.replyTo, p.headerBytes, p.totalBytes)
            == Advance(CHPublish(p), |before| + p.totalBytes + 2)
  {
    hide ValidUtf8, PrintBlock, ParseHeaders;
    var block := PrintBlock(order, p.headers);
    var body := before + block + p.payload + CRLF + rest;
    assert body[|before|..|before| + |block|] == block;
    assert body[|before| + |block|..|before| + |block| + |p.payload|] == p.payload;
    HeaderBlockRoundTrip(order, p.headers);
  }

  lemma HPubMetadata(p: HPublish, order: seq<bytes>, tail: bytes)
    requires FramedHPub(p, order)
    ensures var line := Join(HPubFields(p), SPACE);
            var body := line + CRLF + tail;
            DecodeHPub(body) == HPubSlices(body, |line| + 2, p.subject, p.replyTo, p.headerBytes, p.totalBytes)
  {
    hide ValidUtf8, Split, Join, Decimal, HPubSlices, WellFormedHeaders, PrintBlock;
    HPubFieldsComeBack(p);
    DecimalIsPlain(p.headerBytes);
    DecimalIsPlain(p.totalBytes);
    ParseDecimal(p.headerBytes);
    ParseDecimal(p.totalBytes);
    FirstSlice(Join(HPubFields(p), SPACE), tail);
  }

  lemma HPubBody(p: HPublish, order: seq<bytes>, rest: bytes)
    requires WellFormedHPub(p, order)
    ensures var line := Join(HPubFields(p), SPACE);
            DecodeHPub(line + CRLF + (PrintBlock(order, p.headers) + p.payload + CRLF + rest))
            == Advance(CHPublish(p), |line| + 2 + p.totalBytes + 2)
  {
    hide ValidUtf8, Join, HPubSlices, DecodeHPub, WellFormed, PrintBlock;
    var line := Join(HPubFields(p), SPACE);
    var tail := PrintBlock(order, p.headers) + p.payload + CRLF + rest;
    HPubMetadata(p, order, tail);
    HPubComplete(p, order, line + CRLF, rest);
    assert line + CRLF + tail == (line + CRLF) + PrintBlock(order, p.headers) + p.payload + CRLF + rest;
  }

  lemma BodyRoundTrip(json: Json, c: ClientCommand, order: seq<bytes>, rest: bytes)
    requires WellFormed(json, c, order)
    ensures BodyOf(json, c, Line(json, c) + CRLF + (Tail(c, order) + rest))
         == Advance(c, |Line(json, c)| + 2 + |Tail(c, order)|)
  {
    hide DecodeHPub, DecodePub, DecodeSub, DecodeUnsub, PrintBlock, Join, ValidUtf8, WellFormedHeaders;
    var line := Line(json, c);
    LineIsCrlfFree(json, c, order);
    match c
    case CConnect(_) => FirstSlice(line, Tail(c, order) + rest);
    case CPublish(p) =>
      assert Tail(c, order) + rest == p.payload + CRLF + rest;
      PubBody(p, rest);
    case CHPublish(p) =>
      assert Tail(c, order) + rest == PrintBlock(order, p.headers) + p.payload + CRLF + rest;
      HPubBody(p, order, rest);
    case CSubscribe(s) =>
      assert [] + rest == rest;
      SubBody(s, rest);
    case CUnsubscribe(u) =>
      assert [] + rest == rest;
      UnsubBody(u, rest);
    case CPing => FirstSlice(line, Tail(c, order) + rest);
    case CPong => FirstSlice(line, Tail(c, order) + rest);
  }

  // ------------------------------------------------------------ one command

  // Decoding an encoding, whatever follows it and in whatever order the header
  // map was enumerated, returns the command and leaves exactly what followed.
  lemma CommandRoundTrip(json: Json, c: ClientCommand, order: seq<bytes>, rest: bytes)
    requires WellFormed(json, c, order) && LineFits(json, c)
    ensures Decode(ClientTable(json), Encode(json, c, order) + rest) == Frame(c, |Encode(json, c, order)|)
  {
    hide BodyOf, ClientTable, Decode, WellFormed, Verb, Line, Tail;
    var line, tail := Line(json, c), Tail(c, order) + rest;
    LineIsCrlfFree(json, c, order);
    DecodeLine(json, c, Verb(c), line, tail);
    BodyRoundTrip(json, c, order, rest);
    assert Encode(json, c, order) + rest == Verb(c) + line + CRLF + tail;
  }

  // No encoding is a prefix of another one, so a stream splits in one way only.
  lemma EncodingIsPrefixFree(
    json: Json, c: ClientCommand, order: seq<bytes>, d: ClientCommand, order': seq<bytes>, rest: bytes)
    requires WellFormed(json, c, order) && LineFits(json, c)
    requires WellFormed(json, d, order') && LineFits(json, d)
    requires Encode(json, c, order) + rest == Encode(json, d, order')
    ensures c == d && rest == []
  {
    CommandRoundTrip(json, c, order, rest);
    CommandRoundTrip(json, d, order', []);
    assert Encode(json, d, order') + [] == Encode(json, d, order');
    assert |rest| == 0;
  }

  // ----------------------------------------------------------------- streams

  function EncodeAll(json: Json, cs: seq<ClientCommand>, orders: seq<seq<bytes>>): bytes
    requires |cs| == |orders|
  {
    if cs == [] then [] else Encode(json, cs[0], orders[0]) + EncodeAll(json, cs[1..], orders[1..])
  }

  // Commands sent back to back come back one by one, and nothing is left over.
  lemma {:induction false} StreamRoundTrip(json: Json, cs: seq<ClientCommand>, orders: seq<seq<bytes>>)
    requires |cs| == |orders|
    requires forall i :: 0 <= i < |cs| ==> WellFormed(json, cs[i], orders[i]) && LineFits(json, cs[i])
    ensures Sound(ClientTable(json))
    ensures DecodeAll(ClientTable(json), EncodeAll(json, cs, orders)) == Stream(cs, Waiting, [])
    decreases |cs|
  {
    hide Decode, Encode, ClientTable, WellFormed, LineFits;
    ClientTableIsSound(json);
    if cs == [] {
      EmptyStream(ClientTable(json));
    } else {
      var tail := EncodeAll(json, cs[1..], orders[1..]);
      var first := Encode(json, cs[0], orders[0]);
      CommandRoundTrip(json, cs[0], orders[0], tail);
      StreamRoundTrip(json, cs[1..], orders[1..]);
      assert (first + tail)[|first|..] == tail;
      assert [cs[0]] + cs[1..] == cs;
    }
  }

  // ---------------------------------------------------------- half a command

  lemma NothingToFind(s: bytes, from: nat)
    requires CrlfFree(s) && from <= |s|
    ensures FindCrlf(s, from) == |s|
    decreases |s| - from
  {
    if from < |s| {
      assert from < |s| - 1 ==> !CrlfAt(s, from);
      NothingToFind(s, from + 1);
    }
  }

  lemma NoLineYet<T, E>(codec: Codec<T, E>, verb: bytes, line: bytes, k: nat)
    requires CR !in verb && CrlfFree(line) && |verb| + |line| + 2 <= BUFSIZE_LIMIT
    requires k < |verb| + |line| + 2
    ensures Decode(codec, (verb + line + CRLF)[..k]) == NeedMore
  {
    hide Dispatch;
    CrlfFreeAfterNoCr(verb, line);
    CrlfFreeHalfTerminated(verb + line);
    var half := verb + line + [CR];
    var src := (verb + line + CRLF)[..k];
    assert src == half[..k];
    CrlfFreePrefix(half, k);
    assert src[..Window(src)] == src;
    NothingToFind(src, 0);
  }

  lemma CrlfFreeStrictPrefix(payload: bytes, j: nat)
    requires CrlfFree(payload) && j < |payload| + 2
    ensures CrlfFree((payload + CRLF)[..j])
  {
    CrlfFreeHalfTerminated(payload);
    assert (payload + CRLF)[..j] == (payload + [CR])[..j];
    CrlfFreePrefix(payload + [CR], j);
  }

  lemma HalfPubBody(p: Publish, j: nat)
    requires WellFormedPub(p) && j < |p.payload| + 2
    ensures DecodePub(Join(PubFields(p), SPACE) + CRLF + (p.payload + CRLF)[..j]) == FrameTooShort
  {
    hide ValidUtf8, Split, Join, Decimal;
    PubFieldsComeBack(p);
    DecimalIsPlain(p.size);
    ParseDecimal(p.size);
    var line := Join(PubFields(p), SPACE);
    var half := (p.payload + CRLF)[..j];
    var body := line + CRLF + half;
    FirstSlice(line, half);
    CrlfFreeStrictPrefix(p.payload, j);
    assert body[|line| + 2..] == half;
  }

  lemma CutInTail(json: Json, c: ClientCommand, order: seq<bytes>, k: nat)
    requires |Verb(c)| + |Line(json, c)| + 2 <= k <= |Encode(json, c, order)|
    ensures Encode(json, c, order)[..k]
         == Verb(c) + Line(json, c) + CRLF + Tail(c, order)[..k - (|Verb(c)| + |Line(json, c)| + 2)]
  {
    var head := Verb(c) + Line(json, c) + CRLF;
    assert Encode(json, c, order) == head + Tail(c, order);
  }

  // A half-received command is waited for: never an error, never a frame.
  lemma WaitingIsSafe(json: Json, c: ClientCommand, order: seq<bytes>, k: nat)
    requires WellFormed(json, c, order) && LineFits(json, c) && !c.CHPublish?
    requires k < |Encode(json, c, order)|
    ensures Decode(ClientTable(json), Encode(json, c, order)[..k]) == NeedMore
  {
    hide ClientTable, Decode, DecodePub, WellFormedPub, Join, Verb;
    var line := Line(json, c);
    LineIsCrlfFree(json, c, order);
    VerbHasNoCr(c);
    var head := Verb(c) + line + CRLF;
    if k < |head| {
      NoLineYet(ClientTable(json), Verb(c), line, k);
      assert Encode(json, c, order)[..k] == head[..k];
    } else {
      assert c.CPublish?;
      CutInTail(json, c, order, k);
      DecodeLine(json, c, Verb(c), line, Tail(c, order)[..k - |head|]);
      HalfPubBody(c.pub, k - |head|);
    }
  }

  lemma CutKeepsParts(before: bytes, a: bytes, b: bytes, c: bytes, j: nat)
    requires |a| <= j <= |a + b + c|
    ensures var body := before + (a + b + c)[..j];
            && body[|before|..|before| + |a|] == a
            && (j >= |a + b| ==> body[|before| + |a|..|before| + |a| + |b|] == b)
  {
    var body := before + (a + b + c)[..j];
    assert forall i :: 0 <= i < |a| ==> body[|before| + i] == a[i];
    assert j >= |a + b| ==> forall i :: 0 <= i < |b| ==> body[|before| + |a| + i] == b[i];
  }

  lemma HalfHPubBody(p: HPublish, order: seq<bytes>, before: bytes, j: nat)
    requires WellFormedHPub(p, order) && j < p.totalBytes + 2
    ensures var body := before + (PrintBlock(order, p.headers) + p.payload + CRLF)[..j];
            var r := HPubSlices(body, |before|, p.subject, p.replyTo, p.headerBytes, p.totalBytes);
            if |body| < p.totalBytes then r == FrameTooShort
            else r == BodyPanic(SliceOutOfRange) || (r.Advance? && r.consume > |body|)
  {
    hide ValidUtf8, PrintBlock, ParseHeaders;
    var block := PrintBlock(order, p.headers);
    var half := (block + p.payload + CRLF)[..j];
    var body := before + half;
    HeaderBlockRoundTrip(order, p.headers);
    if j >= |block| {
      CutKeepsParts(before, block, p.payload, CRLF, j);
    }
  }

  // A half-received HPUB is waited for exactly as long as its first line is
  // incomplete or fewer than `total_bytes` bytes follow the verb. Between that
  // and the last byte the code panics: the metadata line counts towards
  // `total_bytes` although only the two blocks should.
  lemma HalfHPubExactly(json: Json, p: HPublish, order: seq<bytes>, k: nat)
    requires WellFormedHPub(p, order) && LineFits(json, CHPublish(p))
    requires k < |Encode(json, CHPublish(p), order)|
    ensures var o := Decode(ClientTable(json), Encode(json, CHPublish(p), order)[..k]);
            var lineEnd := |HPUB| + |Line(json, CHPublish(p))| + 2;
            if k < lineEnd || k < |HPUB| + p.totalBytes then o == NeedMore
            else o == Panic(SliceOutOfRange) || o == Panic(AdvancePastEnd)
  {
    hide ClientTable, Decode, DecodeHPub, HPubSlices, Join, PrintBlock, ValidUtf8, WellFormedHeaders;
    var c := CHPublish(p);
    var line := Line(json, c);
    LineIsCrlfFree(json, c, order);
    var head := Verb(c) + line + CRLF;
    VerbHasNoCr(c);
    if k < |head| {
      NoLineYet(ClientTable(json), Verb(c), line, k);
      assert Encode(json, c, order)[..k] == head[..k];
    } else {
      var half := Tail(c, order)[..k - |head|];
      CutInTail(json, c, order, k);
      DecodeLine(json, c, Verb(c), line, half);
      HPubMetadata(p, order, half);
      HalfHPubBody(p, order, line + CRLF, k - |head|);
    }
  }
}
