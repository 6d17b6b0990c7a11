// HPUB and HMSG met before they are complete: the one panic that more bytes
// would avoid, in terms of the bytes in the buffer.
module HalfFrames {
  import opened Bodies
  import opened Bytes
  import opened Commands
  import opened Decoder
  import opened Headers
  import opened Text
  import opened Wrappers

  // A slice or an advance ran past the end of the buffer.
  predicate TooEarly<T, E>(o: Outcome<T, E>) {
    o.Panic? && o.cause != InvalidUtf8
  }

  // As TooEarly, for a body decoder's result on a body of this length.
  predicate Overruns<T, E>(r: BodyResult<T, E>, length: nat) {
    (r.BodyPanic? && r.cause != InvalidUtf8) || (r.Advance? && r.consume > length)
  }

  // The two sizes a metadata line announces, header block and total.
  function Sizes(metadata: bytes): Option<(nat, nat)> {
    var fields := Split(metadata, SPACE);
    if |fields| < 2 then None
    else
      var header, total := fields[|fields| - 2], fields[|fields| - 1];
      if !ValidUtf8(header) || !ValidUtf8(total) || ParseUsize(header).None? || ParseUsize(total).None? then None
      else Some((ParseUsize(header).value, ParseUsize(total).value))
  }

  // `total` bytes are there, counted from behind the verb, but not the two
  // blocks and the final CRLF, which only start behind the metadata line.
  predicate CountedTooEarly(body: bytes, next: nat, header: nat, total: nat) {
    header <= total <= |body| < next + total + 2
  }

  // The parts of the two blocks that are there raise no other objection.
  predicate HPubSoFarGood(body: bytes, next: nat, subject: bytes, replyTo: Option<bytes>, header: nat, total: nat)
    requires next <= |body| && header <= total
  {
    next + header <= |body| ==>
      && ValidUtf8(body[next..next + header])
      && (next + total <= |body| ==>
            && ValidUtf8(body[next + header..next + total])
            && ValidUtf8(subject) && OptUtf8(replyTo)
            && ParseHeaders(body[next..next + header], header).Ok?)
  }

  predicate HalfHPubBody(body: bytes) {
    match NextSlice(body, 0)
    case None => false
    case Some((metadata, next)) =>
      var fields := Split(metadata, SPACE);
      && (|fields| == 3 || |fields| == 4)
      && Sizes(metadata).Some?
      && var (header, total) := Sizes(metadata).value;
      && CountedTooEarly(body, next, header, total)
      && HPubSoFarGood(body, next, fields[0], if |fields| == 4 then Some(fields[1]) else None, header, total)
  }

  predicate HMsgSoFarGood(
    body: bytes, next: nat, subject: bytes, sid: bytes, replyTo: Option<bytes>, header: nat, total: nat)
    requires next <= |body| && header <= total
  {
    next + total <= |body| ==>
      && ValidUtf8(subject) && ValidUtf8(sid) && OptUtf8(replyTo)
      && ParseHeaders(body[next..next + header], header).Ok?
  }

  predicate HalfHMsgBody(body: bytes) {
    match NextSlice(body, 0)
    case None => false
    case Some((metadata, next)) =>
      var fields := Split(metadata, SPACE);
      && (|fields| == 4 || |fields| == 5)
      && Sizes(metadata).Some?
      && var (header, total) := Sizes(metadata).value;
      && CountedTooEarly(body, next, header, total)
      && HMsgSoFarGood(
           body, next, fields[0], fields[1], if |fields| == 5 then Some(fields[2]) else None, header, total)
  }

  // The buffer starts with the verb, its first line lies in the window, and
  // the body behind the verb is such a front.
  predicate HalfHPub(src: bytes) {
    FindCrlf(src[..Window(src)], 0) < Window(src) && HasPrefix(src, HPUB) && HalfHPubBody(src[|HPUB|..])
  }

  predicate HalfHMsg(src: bytes) {
    FindCrlf(src[..Window(src)], 0) < Window(src) && HasPrefix(src, HMSG) && HalfHMsgBody(src[|HMSG|..])
  }

  // ----------------------------------------------------------------- bodies

  lemma HPubSlicesOverrun(body: bytes, next: nat, subject: bytes, replyTo: Option<bytes>, header: nat, total: nat)
    requires next <= |body|
    ensures Overruns(HPubSlices(body, next, subject, replyTo, header, total), |body|)
       <==> CountedTooEarly(body, next, header, total) && HPubSoFarGood(body, next, subject, replyTo, header, total)
  {
    hide ValidUtf8, ParseHeaders;
  }

  lemma HPubBlocksOverrun(
    body: bytes, next: nat, subject: bytes, replyTo: Option<bytes>, header: bytes, total: bytes)
    requires next <= |body|
    ensures Overruns(HPubBlocks(body, next, subject, replyTo, header, total), |body|)
       <==> && ValidUtf8(header) && ValidUtf8(total) && ParseUsize(header).Some? && ParseUsize(total).Some?
            && CountedTooEarly(body, next, ParseUsize(header).value, ParseUsize(total).value)
            && HPubSoFarGood(body, next, subject, replyTo, ParseUsize(header).value, ParseUsize(total).value)
  {
    hide ValidUtf8, ParseUsize, HPubSlices, HPubSoFarGood, CountedTooEarly;
    if ParseUsize(header).Some? && ParseUsize(total).Some? {
      HPubSlicesOverrun(body, next, subject, replyTo, ParseUsize(header).value, ParseUsize(total).value);
    }
  }

  lemma HPubBodyOverruns(body: bytes)
    ensures Overruns(DecodeHPub(body), |body|) <==> HalfHPubBody(body)
  {
    hide ValidUtf8, ParseUsize, Split, HPubBlocks, HPubSoFarGood, CountedTooEarly;
    if NextSlice(body, 0).Some? {
      var (metadata, next) := NextSlice(body, 0).value;
      var fields := Split(metadata, SPACE);
      if |fields| == 4 {
        HPubBlocksOverrun(body, next, fields[0], Some(fields[1]), fields[2], fields[3]);
      } else if |fields| == 3 {
        HPubBlocksOverrun(body, next, fields[0], None, fields[1], fields[2]);
      }
    }
  }

  lemma HMsgSlicesOverrun(
    body: bytes, next: nat, subject: bytes, sid: bytes, replyTo: Option<bytes>, header: nat, total: nat)
    requires next <= |body|
    ensures Overruns(HMsgSlices(body, next, subject, sid, replyTo, header, total), |body|)
       <==> && CountedTooEarly(body, next, header, total)
            && HMsgSoFarGood(body, next, subject, sid, replyTo, header, total)
  {
    hide ValidUtf8, ParseHeaders;
  }

  lemma HMsgBlocksOverrun(
    body: bytes, next: nat, subject: bytes, sid: bytes, replyTo: Option<bytes>, header: bytes, total: bytes)
    requires next <= |body|
    ensures Overruns(HMsgBlocks(body, next, subject, sid, replyTo, header, total), |body|)
       <==> && ValidUtf8(header) && ValidUtf8(total) && ParseUsize(header).Some? && ParseUsize(total).Some?
            && CountedTooEarly(body, next, ParseUsize(header).value, ParseUsize(total).value)
            && HMsgSoFarGood(body, next, subject, sid, replyTo, ParseUsize(header).value, ParseUsize(total).value)
  {
    hide ValidUtf8, ParseUsize, HMsgSlices, HMsgSoFarGood, CountedTooEarly;
    if ParseUsize(header).Some? && ParseUsize(total).Some? {
      HMsgSlicesOverrun(body, next, subject, sid, replyTo, ParseUsize(header).value, ParseUsize(total).value);
    }
  }

  lemma HMsgBodyOverruns(body: bytes)
    ensures Overruns(DecodeHMsg(body), |body|) <==> HalfHMsgBody(body)
  {
    hide ValidUtf8, ParseUsize, Split, HMsgBlocks, HMsgSoFarGood, CountedTooEarly;
    if NextSlice(body, 0).Some? {
      var (metadata, next) := NextSlice(body, 0).value;
      var fields := Split(metadata, SPACE);
      if |fields| == 5 {
        HMsgBlocksOverrun(body, next, fields[0], fields[1], Some(fields[2]), fields[3], fields[4]);
      } else if |fields| == 4 {
        HMsgBlocksOverrun(body, next, fields[0], fields[1], None, fields[2], fields[3]);
      }
    }
  }

  // ----------------------------------------------------------------- buffers

  lemma HeaderEntries(json: Json)
    ensures var t := ClientTable(json).table;
            && |t| == 7 && t[0].prefix == PING && t[1].prefix == PONG && t[2].prefix == HPUB
            && forall body :: t[2].decodeBody(body) == DecodeHPub(body)
    ensures var t := ServerTable(json).table;
            && |t| == 7 && t[0].prefix == PING && t[1].prefix == PONG && t[2].prefix == HMSG
            && forall body :: t[2].decodeBody(body) == DecodeHMsg(body)
  {
    hide DecodeHPub, DecodeHMsg;
  }

  // A verb that starts with H, in either case, is matched by the third entry.
  lemma ThirdEntry<T, E>(codec: Codec<T, E>, src: bytes, newline: nat)
    requires |codec.table| == 7 && codec.table[0].prefix == PING && codec.table[1].prefix == PONG
    requires |codec.table[2].prefix| == 5 && codec.table[2].prefix[0] == 0x48
    requires HasPrefix(src, codec.table[2].prefix)
    ensures Dispatch(codec, src, newline, 0) == Settle(codec.table[2].decodeBody(src[5..]), 5, |src|)
  {
    hide Settle;
    assert src[..5][0] == src[0] && Lower(src[0]) == 0x68;
    assert src[..4][0] == src[0];
    assert !EqIgnoreCase(src[..4], PING) && !EqIgnoreCase(src[..4], PONG);
    assert Dispatch(codec, src, newline, 0) == Dispatch(codec, src, newline, 1);
    assert Dispatch(codec, src, newline, 1) == Dispatch(codec, src, newline, 2);
  }

  lemma SettleOverruns<T, E>(r: BodyResult<T, E>, prefix: nat, length: nat)
    requires prefix <= length
    ensures TooEarly(Settle(r, prefix, length)) <==> Overruns(r, length - prefix)
  {
  }

  // The client decoder panics too early exactly on the front of an HPUB whose
  // announced total is reached before the frame is complete.
  lemma HPubTooEarlyExactly(json: Json, src: bytes)
    ensures TooEarly(Decode(ClientTable(json), src)) <==> HalfHPub(src)
  {
    hide DecodeHPub, HalfHPubBody, ClientTable, Dispatch, Settle, HasPrefix;
    HeaderEntries(json);
    if Decode(ClientTable(json), src).Panic? {
      OnlyHPubPanics(json, src);
    }
    if HasPrefix(src, HPUB) {
      ThirdEntry(ClientTable(json), src, FindCrlf(src[..Window(src)], 0));
      PrefixFits(src, HPUB);
      SettleOverruns(DecodeHPub(src[5..]), 5, |src|);
      HPubBodyOverruns(src[5..]);
    }
  }

  lemma PrefixFits(src: bytes, prefix: bytes)
    requires HasPrefix(src, prefix)
    ensures |prefix| <= |src|
  {
  }

  // The server decoder, likewise, on the front of an HMSG.
  lemma HMsgTooEarlyExactly(json: Json, src: bytes)
    ensures TooEarly(Decode(ServerTable(json), src)) <==> HalfHMsg(src)
  {
    hide DecodeHMsg, HalfHMsgBody, ServerTable, Dispatch, Settle, HasPrefix;
    HeaderEntries(json);
    if Decode(ServerTable(json), src).Panic? {
      OnlyHMsgPanics(json, src);
    }
    if HasPrefix(src, HMSG) {
      ThirdEntry(ServerTable(json), src, FindCrlf(src[..Window(src)], 0));
      PrefixFits(src, HMSG);
      SettleOverruns(DecodeHMsg(src[5..]), 5, |src|);
      HMsgBodyOverruns(src[5..]);
    }
  }
}
