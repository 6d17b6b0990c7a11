// The body decoders in the code's own form: the two iterators, asked for one
// part after the other. Each method computes what the function of its verb says.
module InPlace {
  import opened Bodies
  import opened Bytes
  import opened Commands
  import opened Text
  import opened Wrappers

  method PubBody(buffer: bytes) returns (r: BodyResult<ClientCommand, ClientError>)
    ensures r == DecodePub(buffer)
  {
    hide Split, ValidUtf8, ParseUsize, NextSlice;
    var crlfIter := new SliceSpliterator(buffer);
    var first := crlfIter.Next();
    if first.None? {
      return FrameTooShort;
    }
    var metadata := first.value.0;
    var metaSplits := new CharSpliterator(metadata, SPACE);
    assert metadata[0..] == metadata;
    var f1 := metaSplits.Next();
    var f2 := metaSplits.Next();
    var f3 := metaSplits.Next();
    var subject: bytes, replyTo: Option<bytes>, size: bytes;
    match (f1, f2, f3) {
      case (Some((s, _)), Some((reply, last)), None) =>
        subject, replyTo, size := s, Some(reply), metadata[last..];
      case (Some((s, last)), None, None) =>
        subject, replyTo, size := s, None, metadata[last..];
      case _ =>
        return FatalError(BadPub);
    }
    if !ValidUtf8(size) || ParseUsize(size).None? {
      return FatalError(BadPub);
    }
    var n := ParseUsize(size).value;
    var second := crlfIter.Next();
    if second.None? {
      return FrameTooShort;
    }
    var (payload, end) := second.value;
    if !ValidUtf8(subject) || !OptUtf8(replyTo) || n != |payload| {
      return FatalError(BadPub);
    }
    r := Advance(CPublish(Publish(subject, replyTo, n, payload)), end);
  }

  method SubBody(buffer: bytes) returns (r: BodyResult<ClientCommand, ClientError>)
    ensures r == DecodeSub(buffer)
  {
    hide Split, ValidUtf8, NextSlice;
    var crlfIter := new SliceSpliterator(buffer);
    var first := crlfIter.Next();
    if first.None? {
      return FrameTooShort;
    }
    var (message, end) := first.value;
    var spliterator := new CharSpliterator(message, SPACE);
    assert message[0..] == message;
    var f1 := spliterator.Next();
    var f2 := spliterator.Next();
    var f3 := spliterator.Next();
    var subject: bytes, queue: Option<bytes>, sid: bytes;
    match (f1, f2, f3) {
      case (Some((s, _)), Some((q, last)), None) =>
        subject, queue, sid := s, Some(q), message[last..];
      case (Some((s, last)), None, None) =>
        subject, queue, sid := s, None, message[last..];
      case _ =>
        return FatalError(BadSub);
    }
    if !ValidUtf8(subject) || !OptUtf8(queue) || !ValidUtf8(sid) {
      return FatalError(BadSub);
    }
    r := Advance(CSubscribe(Subscribe(subject, queue, sid)), end);
  }

  method UnsubBody(buffer: bytes) returns (r: BodyResult<ClientCommand, ClientError>)
    ensures r == DecodeUnsub(buffer)
  {
    hide Split, ValidUtf8, ParseNonZero, NextSlice;
    var crlfIter := new SliceSpliterator(buffer);
    var first := crlfIter.Next();
    if first.None? {
      return FrameTooShort;
    }
    var (metadata, end) := first.value;
    var metaIter := new CharSpliterator(metadata, SPACE);
    assert metadata[0..] == metadata;
    var f1 := metaIter.Next();
    var f2 := metaIter.Next();
    var sid: bytes, maxMsgs: Option<bytes>;
    match (f1, f2) {
      case (Some((s, last)), None) => sid, maxMsgs := s, Some(metadata[last..]);
      case (None, None) => sid, maxMsgs := metadata, None;
      case _ => return FatalError(BadUnsub);
    }
    if !ValidUtf8(sid) || !OptUtf8(maxMsgs) {
      return FatalError(BadUnsub);
    }
    if maxMsgs.None? {
      return Advance(CUnsubscribe(Unsubscribe(sid, None)), end);
    }
    if ParseNonZero(maxMsgs.value).None? {
      return FatalError(BadUnsub);
    }
    r := Advance(CUnsubscribe(Unsubscribe(sid, ParseNonZero(maxMsgs.value))), end);
  }

  method HPubBody(buffer: bytes) returns (r: BodyResult<ClientCommand, ClientError>)
    ensures r == DecodeHPub(buffer)
  {
    hide Split, ValidUtf8, ParseUsize, NextSlice, HPubBlocks;
    var crlfIter := new SliceSpliterator(buffer);
    var first := crlfIter.Next();
    if first.None? {
      return FrameTooShort;
    }
    var (metadata, metadataLen) := first.value;
    var metaIter := new CharSpliterator(metadata, SPACE);
    assert metadata[0..] == metadata;
    var f1 := metaIter.Next();
    var f2 := metaIter.Next();
    var f3 := metaIter.Next();
    var f4 := metaIter.Next();
    match (f1, f2, f3, f4) {
      case (Some((subject, _)), Some((reply, _)), Some((header, last)), None) =>
        r := HPubBlocks(buffer, metadataLen, subject, Some(reply), header, metadata[last..]);
      case (Some((subject, _)), Some((header, last)), None, None) =>
        r := HPubBlocks(buffer, metadataLen, subject, None, header, metadata[last..]);
      case _ =>
        r := FrameTooShort;
    }
  }

  method MsgBody(buffer: bytes) returns (r: BodyResult<ServerCommand, ServerError>)
    ensures r == DecodeMsg(buffer)
  {
    hide Split, ValidUtf8, ParseUsize, NextSlice;
    var blockIter := new SliceSpliterator(buffer);
    var first := blockIter.Next();
    var second := blockIter.Next();
    if first.None? || second.None? {
      return FrameTooShort;
    }
    var metadata := first.value.0;
    var (payload, end) := second.value;
    var spliterator := new CharSpliterator(metadata, SPACE);
    assert metadata[0..] == metadata;
    ghost var all := Split(metadata, SPACE);
    var f1 := spliterator.Next();
    var f2 := spliterator.Next();
    var f3 := spliterator.Next();
    var f4 := spliterator.Next();
    assert f3.Some? && f4.None? ==> |all| == 4;
    assert f2.Some? && f3.None? ==> |all| == 3;
    var subject: bytes, sid: bytes, replyTo: Option<bytes>, size: bytes;
    if f1.Some? && f2.Some? && f3.Some? && f4.None? {
      subject, sid, replyTo, size := f1.value.0, f2.value.0, Some(f3.value.0), metadata[f3.value.1..];
    } else if f1.Some? && f2.Some? && f3.None? && f4.None? {
      subject, sid, replyTo, size := f1.value.0, f2.value.0, None, metadata[f2.value.1..];
    } else {
      return FatalError(BadMsg);
    }
    if !ValidUtf8(subject) || !ValidUtf8(sid) || !ValidUtf8(size) || ParseUsize(size).None? || !OptUtf8(replyTo)
       || |payload| != ParseUsize(size).value
    {
      return FatalError(BadMsg);
    }
    r := Advance(SMsg(Msg(subject, sid, replyTo, |payload|, payload)), end);
  }

  method HMsgBody(buffer: bytes) returns (r: BodyResult<ServerCommand, ServerError>)
    ensures r == DecodeHMsg(buffer)
  {
    hide Split, ValidUtf8, ParseUsize, NextSlice, HMsgBlocks;
    var crlfIter := new SliceSpliterator(buffer);
    var first := crlfIter.Next();
    if first.None? {
      return FrameTooShort;
    }
    var (metadata, metadataLen) := first.value;
    var metaIter := new CharSpliterator(metadata, SPACE);
    assert metadata[0..] == metadata;
    ghost var all := Split(metadata, SPACE);
    var f1 := metaIter.Next();
    var f2 := metaIter.Next();
    var f3 := metaIter.Next();
    var f4 := metaIter.Next();
    var f5 := metaIter.Next();
    assert f4.Some? && f5.None? ==> |all| == 5;
    assert f3.Some? && f4.None? ==> |all| == 4;
    if f1.Some? && f2.Some? && f3.Some? && f4.Some? && f5.None? {
      var (header, last) := f4.value;
      var reply := Some(f3.value.0);
      r := HMsgBlocks(buffer, metadataLen, f1.value.0, f2.value.0, reply, header, metadata[last..]);
    } else if f1.Some? && f2.Some? && f3.Some? && f4.None? && f5.None? {
      var (header, last) := f3.value;
      r := HMsgBlocks(buffer, metadataLen, f1.value.0, f2.value.0, None, header, metadata[last..]);
    } else {
      r := FrameTooShort;
    }
  }
}
