// What each decoder does with every line, well formed or not. A line is given by
// its space-separated fields; nothing here names a splitter or a verb constant.
module Grammar {
  import opened Bodies
  import opened Bytes
  import opened Commands
  import opened Decoder
  import opened Encoder
  import opened Headers
  import opened RoundTrip
  import opened Spelling
  import opened Text
  import opened Wire
  import opened Wrappers

  // ----------------------------------------------------------------- lines

  predicate Fields(fs: seq<bytes>) {
    |fs| >= 1 && forall f :: f in fs ==> 0x20 !in f && CrlfFree(f)
  }

  predicate AllUtf8(fs: seq<bytes>) {
    forall f :: f in fs ==> ValidUtf8(f)
  }

  // The fields with one space between them.
  function Spaced(fs: seq<bytes>): bytes
    requires |fs| >= 1
  {
    if |fs| == 1 then fs[0] else fs[0] + Ascii(" ") + Spaced(fs[1..])
  }

  lemma {:induction false} SpacedIsJoin(fs: seq<bytes>)
    requires |fs| >= 1
    ensures Spaced(fs) == Join(fs, SPACE)
    decreases |fs|
  {
    if |fs| > 1 {
      SpacedIsJoin(fs[1..]);
      SeparatorSpelling();
    }
  }

  lemma SpacedSplits(fs: seq<bytes>)
    requires Fields(fs)
    ensures Split(Spaced(fs), SPACE) == fs && CrlfFree(Spaced(fs))
  {
    hide Split, Join, Spaced, CrlfFree;
    SpacedIsJoin(fs);
    SplitJoin(fs, SPACE);
    JoinIsCrlfFree(fs, SPACE);
  }

  // Every line without CRLF has fields.
  lemma EveryLineIsSpaced(line: bytes) returns (fs: seq<bytes>)
    requires CrlfFree(line)
    ensures Fields(fs) && Spaced(fs) == line
  {
    hide Split, Join, Spaced, CrlfFree;
    fs := Split(line, SPACE);
    JoinSplit(line, SPACE);
    SplitIsCrlfFree(line, SPACE);
    SpacedIsJoin(fs);
  }

  lemma {:induction false} NumberIsUtf8(s: bytes)
    requires ParseUsize(s).Some?
    ensures ValidUtf8(s)
  {
    forall c | c in s
      ensures c < 0x80
    {
      var i :| 0 <= i < |s| && s[i] == c;
      var digits := if s[0] == PLUS then s[1..] else s;
      assert i > 0 || s[0] != PLUS ==> IsDigit(digits[if s[0] == PLUS then i - 1 else i]);
    }
    AsciiIsUtf8(s);
  }

  lemma ClientLine(json: Json, c: ClientCommand, word: bytes, line: bytes, tail: bytes)
    requires Spells(word, Verb(c)) && NoLowerCase(Verb(c)) && CrlfFree(line) && |word| + |line| + 2 <= 65535
    ensures Decode(ClientTable(json), word + line + Ascii("\r\n") + tail)
         == Settle(BodyOf(json, c, line + CRLF + tail), |Verb(c)|, |Verb(c)| + |line| + 2 + |tail|)
  {
    hide Decode, ClientTable, BodyOf, Settle, EqIgnoreCase, Verb;
    SeparatorSpelling();
    EqIgnoreCaseExactly(word, Verb(c));
    DecodeLine(json, c, word, line, tail);
  }

  // ---------------------------------------------------------- client lines

  // PING and PONG: anything between the verb and CRLF is waited on for ever.
  lemma PingLine(json: Json, word: bytes, line: bytes, rest: bytes)
    requires Spells(word, Ascii("PING")) && CrlfFree(line) && |word| + |line| + 2 <= 65535
    ensures Decode(ClientTable(json), word + line + Ascii("\r\n") + rest)
         == if line == [] then Frame(CPing, 6) else NeedMore
  {
    hide Decode, ClientTable, Spells;
    VerbSpelling();
    ClientLine(json, CPing, word, line, rest);
    FirstSlice(line, rest);
  }

  lemma PongLine(json: Json, word: bytes, line: bytes, rest: bytes)
    requires Spells(word, Ascii("PONG")) && CrlfFree(line) && |word| + |line| + 2 <= 65535
    ensures Decode(ClientTable(json), word + line + Ascii("\r\n") + rest)
         == if line == [] then Frame(CPong, 6) else NeedMore
  {
    hide Decode, ClientTable, Spells;
    VerbSpelling();
    ClientLine(json, CPong, word, line, rest);
    FirstSlice(line, rest);
  }

  // CONNECT: whatever text the JSON parser takes.
  lemma ConnectLine(json: Json, word: bytes, line: bytes, rest: bytes)
    requires Spells(word, Ascii("CONNECT ")) && CrlfFree(line) && |word| + |line| + 2 <= 65535
    ensures Decode(ClientTable(json), word + line + Ascii("\r\n") + rest)
         == match json.parseConnect(line)
            case Some(c) => Frame(CConnect(c), 8 + |line| + 2)
            case None => Fail(BadConnect, 0)
  {
    hide Decode, ClientTable, Spells;
    VerbSpelling();
    var any: Connect := *;
    ClientLine(json, CConnect(any), word, line, rest);
    FirstSlice(line, rest);
  }

  lemma SubReached(json: Json, word: bytes, line: bytes, tail: bytes)
    requires Spells(word, Ascii("SUB ")) && CrlfFree(line) && |word| + |line| + 2 <= 65535
    ensures Decode(ClientTable(json), word + line + Ascii("\r\n") + tail)
         == Settle(DecodeSub(line + CRLF + tail), 4, 4 + |line| + 2 + |tail|)
  {
    hide Decode, ClientTable, Spells, CrlfFree, DecodeSub, Settle;
    VerbSpelling();
    ClientLine(json, CSubscribe(Subscribe([], None, [])), word, line, tail);
  }

  lemma SubBodyOfFields(fs: seq<bytes>, rest: bytes)
    requires Fields(fs)
    ensures DecodeSub(Spaced(fs) + CRLF + rest)
         == if !AllUtf8(fs) then FatalError(BadSub)
            else if |fs| == 2 then Advance(CSubscribe(Subscribe(fs[0], None, fs[1])), |Spaced(fs)| + 2)
            else if |fs| == 3 then Advance(CSubscribe(Subscribe(fs[0], Some(fs[1]), fs[2])), |Spaced(fs)| + 2)
            else FatalError(BadSub)
  {
    hide Spaced, Split, ValidUtf8, CrlfFree, NextSlice;
    SpacedSplits(fs);
    FirstSlice(Spaced(fs), rest);
    FewUtf8(fs);
  }

  // SUB: subject, at most one queue group, SID.
  lemma SubLine(json: Json, word: bytes, fs: seq<bytes>, rest: bytes)
    requires Spells(word, Ascii("SUB ")) && Fields(fs) && |word| + |Spaced(fs)| + 2 <= 65535
    ensures Decode(ClientTable(json), word + Spaced(fs) + Ascii("\r\n") + rest)
         == if !AllUtf8(fs) then Fail(BadSub, 0)
            else if |fs| == 2 then Frame(CSubscribe(Subscribe(fs[0], None, fs[1])), 4 + |Spaced(fs)| + 2)
            else if |fs| == 3 then Frame(CSubscribe(Subscribe(fs[0], Some(fs[1]), fs[2])), 4 + |Spaced(fs)| + 2)
            else Fail(BadSub, 0)
  {
    hide Decode, ClientTable, Spells, Spaced, ValidUtf8, DecodeSub, CrlfFree, AllUtf8;
    SpacedSplits(fs);
    SubReached(json, word, Spaced(fs), rest);
    SubBodyOfFields(fs, rest);
  }

  lemma FewUtf8(fs: seq<bytes>)
    ensures |fs| == 1 ==> (AllUtf8(fs) <==> ValidUtf8(fs[0]))
    ensures |fs| == 2 ==> (AllUtf8(fs) <==> ValidUtf8(fs[0]) && ValidUtf8(fs[1]))
    ensures |fs| == 3 ==> (AllUtf8(fs) <==> ValidUtf8(fs[0]) && ValidUtf8(fs[1]) && ValidUtf8(fs[2]))
    ensures |fs| == 4 ==>
              (AllUtf8(fs) <==> ValidUtf8(fs[0]) && ValidUtf8(fs[1]) && ValidUtf8(fs[2]) && ValidUtf8(fs[3]))
  {
    hide ValidUtf8;
    assert forall i :: 0 <= i < |fs| ==> fs[i] in fs;
  }

  lemma UnsubBodyOfFields(fs: seq<bytes>, rest: bytes)
    requires Fields(fs)
    ensures DecodeUnsub(Spaced(fs) + CRLF + rest)
         == if !ValidUtf8(fs[0]) || |fs| > 2 then FatalError(BadUnsub)
            else if |fs| == 1 then Advance(CUnsubscribe(Unsubscribe(fs[0], None)), |Spaced(fs)| + 2)
            else if ParseUsize(fs[1]).None? || ParseUsize(fs[1]) == Some(0) then FatalError(BadUnsub)
            else Advance(CUnsubscribe(Unsubscribe(fs[0], ParseUsize(fs[1]))), |Spaced(fs)| + 2)
  {
    hide Spaced, Split, ValidUtf8, ParseUsize, CrlfFree, NextSlice;
    SpacedSplits(fs);
    FirstSlice(Spaced(fs), rest);
    if |fs| == 1 {
      SpacedOne(fs);
    }
    if |fs| == 2 && ParseUsize(fs[1]).Some? {
      NumberIsUtf8(fs[1]);
    }
  }

  lemma SpacedOne(fs: seq<bytes>)
    requires |fs| == 1
    ensures Spaced(fs) == fs[0]
  {
  }

  lemma UnsubReached(json: Json, word: bytes, line: bytes, tail: bytes)
    requires Spells(word, Ascii("UNSUB ")) && CrlfFree(line) && |word| + |line| + 2 <= 65535
    ensures Decode(ClientTable(json), word + line + Ascii("\r\n") + tail)
         == Settle(DecodeUnsub(line + CRLF + tail), 6, 6 + |line| + 2 + |tail|)
  {
    hide Decode, ClientTable, Spells, CrlfFree, DecodeUnsub, Settle;
    VerbSpelling();
    ClientLine(json, CUnsubscribe(Unsubscribe([], None)), word, line, tail);
  }

  // UNSUB: SID, at most one limit, which is a number other than zero.
  lemma UnsubLine(json: Json, word: bytes, fs: seq<bytes>, rest: bytes)
    requires Spells(word, Ascii("UNSUB ")) && Fields(fs) && |word| + |Spaced(fs)| + 2 <= 65535
    ensures Decode(ClientTable(json), word + Spaced(fs) + Ascii("\r\n") + rest)
         == if !ValidUtf8(fs[0]) || |fs| > 2 then Fail(BadUnsub, 0)
            else if |fs| == 1 then Frame(CUnsubscribe(Unsubscribe(fs[0], None)), 6 + |Spaced(fs)| + 2)
            else if ParseUsize(fs[1]).None? || ParseUsize(fs[1]) == Some(0) then Fail(BadUnsub, 0)
            else Frame(CUnsubscribe(Unsubscribe(fs[0], ParseUsize(fs[1]))), 6 + |Spaced(fs)| + 2)
  {
    hide Decode, ClientTable, Spells, Spaced, ValidUtf8, ParseUsize, DecodeUnsub, CrlfFree;
    SpacedSplits(fs);
    UnsubReached(json, word, Spaced(fs), rest);
    UnsubBodyOfFields(fs, rest);
  }

  // What PUB's and MSG's first line must be for a payload to be taken.
  predicate SizedFields(fs: seq<bytes>, few: nat)
    requires few >= 1
  {
    (|fs| == few || |fs| == few + 1) && ParseUsize(fs[|fs| - 1]).Some?
  }

  lemma PubReached(json: Json, word: bytes, line: bytes, tail: bytes)
    requires Spells(word, Ascii("PUB ")) && CrlfFree(line) && |word| + |line| + 2 <= 65535
    ensures Decode(ClientTable(json), word + line + Ascii("\r\n") + tail)
         == Settle(DecodePub(line + CRLF + tail), 4, 4 + |line| + 2 + |tail|)
  {
    hide Decode, ClientTable, Spells, CrlfFree, DecodePub, Settle;
    VerbSpelling();
    ClientLine(json, CPublish(Publish([], None, 0, [])), word, line, tail);
  }

  lemma PubBodyOfFields(fs: seq<bytes>, payload: bytes, rest: bytes)
    requires Fields(fs) && CrlfFree(payload)
    ensures var r := DecodePub(Spaced(fs) + CRLF + (payload + CRLF + rest));
            var n := |Spaced(fs)| + 2 + |payload| + 2;
            if !SizedFields(fs, 2) || !AllUtf8(fs) || ParseUsize(fs[|fs| - 1]).value != |payload|
            then r == FatalError(BadPub)
            else if |fs| == 2 then r == Advance(CPublish(Publish(fs[0], None, |payload|, payload)), n)
            else r == Advance(CPublish(Publish(fs[0], Some(fs[1]), |payload|, payload)), n)
  {
    hide Spaced, Split, ValidUtf8, ParseUsize, NextSlice, CrlfFree;
    SpacedSplits(fs);
    var line, tail := Spaced(fs), payload + CRLF + rest;
    FirstSlice(line, tail);
    assert line + CRLF + tail == (line + CRLF) + payload + CRLF + rest;
    NextSliceOfTerminated(line + CRLF, payload, rest);
    FewUtf8(fs);
    if SizedFields(fs, 2) {
      NumberIsUtf8(fs[|fs| - 1]);
    }
  }

  // PUB: subject, at most one reply subject, size; then the bytes up to the
  // next CRLF, which must be as many as announced.
  lemma PubLines(json: Json, word: bytes, fs: seq<bytes>, payload: bytes, rest: bytes)
    requires Spells(word, Ascii("PUB ")) && Fields(fs) && |word| + |Spaced(fs)| + 2 <= 65535
    requires CrlfFree(payload)
    ensures var o := Decode(
                       ClientTable(json), word + Spaced(fs) + Ascii("\r\n") + (payload + Ascii("\r\n") + rest));
            var n := 4 + |Spaced(fs)| + 2 + |payload| + 2;
            if !SizedFields(fs, 2) || !AllUtf8(fs) || ParseUsize(fs[|fs| - 1]).value != |payload|
            then o == Fail(BadPub, 0)
            else if |fs| == 2 then o == Frame(CPublish(Publish(fs[0], None, |payload|, payload)), n)
            else o == Frame(CPublish(Publish(fs[0], Some(fs[1]), |payload|, payload)), n)
  {
    hide Decode, ClientTable, Spells, Spaced, ValidUtf8, ParseUsize, CrlfFree, DecodePub;
    SeparatorSpelling();
    SpacedSplits(fs);
    PubReached(json, word, Spaced(fs), payload + CRLF + rest);
    PubBodyOfFields(fs, payload, rest);
  }

  // Without that CRLF the payload is waited for, unless the fields are bad already.
  lemma PubWaits(json: Json, word: bytes, fs: seq<bytes>, tail: bytes)
    requires Spells(word, Ascii("PUB ")) && Fields(fs) && |word| + |Spaced(fs)| + 2 <= 65535
    requires CrlfFree(tail)
    ensures Decode(ClientTable(json), word + Spaced(fs) + Ascii("\r\n") + tail)
         == if SizedFields(fs, 2) then NeedMore else Fail(BadPub, 0)
  {
    hide Decode, ClientTable, Spells, Spaced, Split, ValidUtf8, ParseUsize, CrlfFree;
    SpacedSplits(fs);
    var line := Spaced(fs);
    PubReached(json, word, line, tail);
    FirstSlice(line, tail);
    assert (line + CRLF + tail)[|line| + 2..] == tail;
    if SizedFields(fs, 2) {
      NumberIsUtf8(fs[|fs| - 1]);
    }
  }

  // The header size and the total an HPUB's or HMSG's first line announces.
  predicate Announces(fs: seq<bytes>, few: nat, header: nat, total: nat)
    requires few >= 2
  {
    && (|fs| == few || |fs| == few + 1)
    && ParseUsize(fs[|fs| - 2]) == Some(header) && ParseUsize(fs[|fs| - 1]) == Some(total)
  }

  lemma HPubReached(json: Json, word: bytes, line: bytes, tail: bytes)
    requires Spells(word, Ascii("HPUB ")) && CrlfFree(line) && |word| + |line| + 2 <= 65535
    ensures Decode(ClientTable(json), word + line + Ascii("\r\n") + tail)
         == Settle(DecodeHPub(line + CRLF + tail), 5, 5 + |line| + 2 + |tail|)
  {
    hide Decode, ClientTable, Spells, CrlfFree, DecodeHPub, Settle;
    VerbSpelling();
    ClientLine(json, CHPublish(HPublish([], None, 0, 0, map[], [])), word, line, tail);
  }

  // HPUB: subject, at most one reply subject, header size, total size. Any
  // other number of fields makes the decoder wait for ever.
  lemma HPubFieldCount(json: Json, word: bytes, fs: seq<bytes>, tail: bytes)
    requires Spells(word, Ascii("HPUB ")) && Fields(fs) && |word| + |Spaced(fs)| + 2 <= 65535
    requires |fs| != 3 && |fs| != 4
    ensures Decode(ClientTable(json), word + Spaced(fs) + Ascii("\r\n") + tail) == NeedMore
  {
    hide Decode, ClientTable, Spells, Spaced, Split, CrlfFree, NextSlice;
    SpacedSplits(fs);
    HPubReached(json, word, Spaced(fs), tail);
    FirstSlice(Spaced(fs), tail);
  }

  // Sizes that are no numbers, or the wrong way round, are refused.
  lemma HPubSizes(json: Json, word: bytes, fs: seq<bytes>, tail: bytes)
    requires Spells(word, Ascii("HPUB ")) && Fields(fs) && |word| + |Spaced(fs)| + 2 <= 65535
    requires |fs| == 3 || |fs| == 4
    requires forall header, total :: Announces(fs, 3, header, total) ==> total < header
    ensures Decode(ClientTable(json), word + Spaced(fs) + Ascii("\r\n") + tail) == Fail(BadHPub, 0)
  {
    hide Decode, ClientTable, Spells, Spaced, Split, CrlfFree, NextSlice, ValidUtf8, ParseUsize;
    SpacedSplits(fs);
    HPubReached(json, word, Spaced(fs), tail);
    FirstSlice(Spaced(fs), tail);
    var header, total := ParseUsize(fs[|fs| - 2]), ParseUsize(fs[|fs| - 1]);
    if header.Some? && total.Some? {
      assert Announces(fs, 3, header.value, total.value);
    }
  }

  // With good sizes everything behind the line is up to the two blocks.
  lemma HPubReachesBlocks(json: Json, word: bytes, fs: seq<bytes>, tail: bytes, header: nat, total: nat)
    requires Spells(word, Ascii("HPUB ")) && Fields(fs) && |word| + |Spaced(fs)| + 2 <= 65535
    requires Announces(fs, 3, header, total)
    ensures var body := Spaced(fs) + CRLF + tail;
            Decode(ClientTable(json), word + Spaced(fs) + Ascii("\r\n") + tail)
            == Settle(
                 HPubSlices(
                   body, |Spaced(fs)| + 2, fs[0], if |fs| == 4 then Some(fs[1]) else None, header, total),
                 5, 5 + |body|)
  {
    hide Decode, ClientTable, Spells, Spaced, Split, CrlfFree, NextSlice, ValidUtf8, ParseUsize, HPubSlices, Settle;
    SpacedSplits(fs);
    HPubReached(json, word, Spaced(fs), tail);
    FirstSlice(Spaced(fs), tail);
    NumberIsUtf8(fs[|fs| - 2]);
    NumberIsUtf8(fs[|fs| - 1]);
  }

  lemma HPubSlicesOfBlocks(
    head: bytes, subject: bytes, replyTo: Option<bytes>, block: bytes, payload: bytes, behind: bytes)
    ensures HPubSlices(
              head + (block + payload + behind), |head|, subject, replyTo, |block|, |block| + |payload|)
         == HPubParts(subject, replyTo, block, payload, |head| + |block| + |payload| + 2)
  {
    hide HPubParts;
    var body := head + (block + payload + behind);
    assert body[|head|..|head| + |block|] == block;
    assert body[|head| + |block|..|head| + |block| + |payload|] == payload;
  }

  // What an HPUB comes to whose two blocks are there. The two bytes behind the
  // payload are dropped unseen, and must be there.
  lemma HPubBlocks(
    json: Json, word: bytes, fs: seq<bytes>, block: bytes, payload: bytes, behind: bytes)
    requires Spells(word, Ascii("HPUB ")) && Fields(fs) && |word| + |Spaced(fs)| + 2 <= 65535
    requires Announces(fs, 3, |block|, |block| + |payload|)
    ensures var o := Decode(
                       ClientTable(json), word + Spaced(fs) + Ascii("\r\n") + (block + payload + behind));
            var replyTo := if |fs| == 4 then Some(fs[1]) else None;
            if !ValidUtf8(block) || !ValidUtf8(payload) then o == Panic(InvalidUtf8)
            else if !ValidUtf8(fs[0]) || !OptUtf8(replyTo) then o == Fail(BadHPub, 0)
            else
              match ParseHeaders(block, |block|)
              case Err(_) => o == Fail(BadHPub, 0)
              case Ok(m) =>
                var p := HPublish(fs[0], replyTo, |block|, |block| + |payload|, m, payload);
                if |behind| < 2 then o == Panic(AdvancePastEnd)
                else o == Frame(CHPublish(p), 5 + |Spaced(fs)| + 2 + |block| + |payload| + 2)
  {
    hide Decode, ClientTable, Spells, Spaced, ValidUtf8, ParseUsize, ParseHeaders, CrlfFree, HPubSlices;
    var replyTo := if |fs| == 4 then Some(fs[1]) else None;
    HPubReachesBlocks(json, word, fs, block + payload + behind, |block|, |block| + |payload|);
    HPubSlicesOfBlocks(Spaced(fs) + CRLF, fs[0], replyTo, block, payload, behind);
  }

  // What an HPUB of which only `tail` is there behind the line comes to: waiting
  // while fewer bytes than the total follow the verb, the line counted in.
  lemma HPubShort(json: Json, word: bytes, fs: seq<bytes>, tail: bytes, header: nat, total: nat)
    requires Spells(word, Ascii("HPUB ")) && Fields(fs) && |word| + |Spaced(fs)| + 2 <= 65535
    requires Announces(fs, 3, header, total) && header <= total && |tail| < total
    ensures Decode(ClientTable(json), word + Spaced(fs) + Ascii("\r\n") + tail)
         == if |Spaced(fs)| + 2 + |tail| < total then NeedMore
            else if header <= |tail| && !ValidUtf8(tail[..header]) then Panic(InvalidUtf8)
            else Panic(SliceOutOfRange)
  {
    hide Decode, ClientTable, Spells, Spaced, ValidUtf8, ParseUsize, ParseHeaders, CrlfFree, HPubParts;
    HPubReachesBlocks(json, word, fs, tail, header, total);
    var head := Spaced(fs) + CRLF;
    if header <= |tail| {
      assert (head + tail)[|head|..|head| + header] == tail[..header];
    }
  }

  // ------------------------------------------------- no line, or no verb

  function Shorter(a: nat, b: nat): nat {
    if a < b then a else b
  }

  // While the first 65535 bytes hold no line, more is waited for, until they
  // are all there.
  lemma NoLine<T, E>(codec: Codec<T, E>, src: bytes)
    requires CrlfFree(src[..Shorter(|src|, 65535)])
    ensures Decode(codec, src) == if |src| < 65535 then NeedMore else Fail(codec.exceedsSoftLength, 0)
  {
    hide Dispatch;
    NothingToFind(src[..Window(src)], 0);
  }

  // `src` starts with this word, in whatever case.
  predicate Starts(src: bytes, upper: string)
    requires IsAscii(upper)
  {
    |upper| <= |src| && Spells(src[..|upper|], Ascii(upper))
  }

  lemma StartsIsPrefix(src: bytes, upper: string, prefix: bytes)
    requires IsAscii(upper) && prefix == Ascii(upper) && NoLowerCase(prefix)
    ensures HasPrefix(src, prefix) <==> Starts(src, upper)
  {
    if |prefix| <= |src| {
      EqIgnoreCaseExactly(src[..|prefix|], prefix);
    }
  }

  // A buffer's first line holds the whole of a verb it starts with.
  lemma VerbIsInLine(line: bytes, rest: bytes, upper: string)
    requires IsAscii(upper) && Starts(line + Ascii("\r\n") + rest, upper) && CrlfFree(line)
    requires forall i :: 0 <= i < |upper| ==> upper[i] as int >= 0x20
    ensures |upper| <= |line| && Spells(line[..|upper|], Ascii(upper)) && CrlfFree(line[|upper|..])
  {
    hide CrlfFree;
    var src := line + Ascii("\r\n") + rest;
    forall i | 0 <= i < |upper|
      ensures src[i] >= 0x20
    {
      assert src[..|upper|][i] == src[i] && Ascii(upper)[i] >= 0x20;
    }
    assert src[|line|] == 0x0D;
    assert src[..|upper|] == line[..|upper|];
    CrlfFreeSuffix(line, |upper|);
  }

  lemma CrlfFreeSuffix(s: bytes, k: nat)
    requires CrlfFree(s) && k <= |s|
    ensures CrlfFree(s[k..])
  {
    forall i | 0 <= i < |s[k..]| - 1
      ensures !CrlfAt(s[k..], i)
    {
      assert !CrlfAt(s, k + i);
    }
  }

  predicate ClientVerb(src: bytes) {
    || Starts(src, "PING") || Starts(src, "PONG") || Starts(src, "HPUB ") || Starts(src, "PUB ")
    || Starts(src, "SUB ") || Starts(src, "UNSUB ") || Starts(src, "CONNECT ")
  }

  lemma ClientVerbAheadExactly(src: bytes)
    ensures ClientVerbAhead(src) <==> ClientVerb(src)
  {
    hide HasPrefix, Starts, NoLowerCase;
    VerbSpelling();
    VerbsAreUpperCase();
    StartsIsPrefix(src, "PING", PING);
    StartsIsPrefix(src, "PONG", PONG);
    StartsIsPrefix(src, "HPUB ", HPUB);
    StartsIsPrefix(src, "PUB ", PUB);
    StartsIsPrefix(src, "SUB ", SUB);
    StartsIsPrefix(src, "UNSUB ", UNSUB);
    StartsIsPrefix(src, "CONNECT ", CONNECT);
  }

  lemma {:induction false} NoMatchWaits<T, E>(codec: Codec<T, E>, src: bytes, newline: nat, i: nat, long: nat)
    requires i <= long < |codec.table| && |codec.table[long].prefix| > |src|
    requires forall j: nat :: i <= j < |codec.table| ==> !HasPrefix(src, codec.table[j].prefix)
    ensures Dispatch(codec, src, newline, i) == NeedMore
    decreases |codec.table| - i
  {
    if |src| >= |codec.table[i].prefix| {
      NoMatchWaits(codec, src, newline, i + 1, long);
    }
  }

  lemma NoClientMatch(json: Json, src: bytes)
    requires !ClientVerbAhead(src)
    ensures forall j: nat :: j < 7 ==> !HasPrefix(src, ClientTable(json).table[j].prefix)
  {
    hide HasPrefix;
    ClientPrefixes(json);
  }

  // A first line without a verb: dropped up to behind its CR, once as many
  // bytes are there as the longest verb has.
  lemma UnknownLine(json: Json, line: bytes, rest: bytes)
    requires CrlfFree(line) && |line| + 2 <= 65535
    requires !ClientVerb(line + Ascii("\r\n") + rest)
    ensures var src := line + Ascii("\r\n") + rest;
            Decode(ClientTable(json), src) == if |src| < 8 then NeedMore else Fail(UnknownCommand, |line| + 1)
  {
    hide Dispatch, ClientVerb, ClientVerbAhead, HasPrefix, ClientTable;
    SeparatorSpelling();
    var src := line + Ascii("\r\n") + rest;
    FirstCrlfInWindow(line, rest);
    ClientVerbAheadExactly(src);
    if |src| < 8 {
      ClientPrefixes(json);
      NoClientMatch(json, src);
      assert |CONNECT| == 8;
      NoMatchWaits(ClientTable(json), src, |line|, 0, 6);
    } else {
      UnknownCommandExactly(json, src);
    }
  }

  // ------------------------------------------------------------- examples

  lemma TwoFields(f: bytes, g: bytes)
    ensures Spaced([f, g]) == f + Ascii(" ") + g
  {
    assert [f, g][1..] == [g];
  }

  // A limit of zero is refused, not taken for no limit.
  lemma UnsubZeroExample(json: Json)
    ensures Decode(ClientTable(json), Ascii("UNSUB 1 0\r\n")) == Fail(BadUnsub, 0)
  {
    hide Decode, ClientTable, Spaced;
    var fs := [Ascii("1"), Ascii("0")];
    TwoFields(fs[0], fs[1]);
    assert Decimal(0) == Ascii("0");
    ParseDecimal(0);
    UnsubLine(json, Ascii("UNSUB "), fs, []);
    assert Ascii("UNSUB 1 0\r\n")
        == Ascii("UNSUB ") + (Ascii("1") + Ascii(" ") + Ascii("0")) + Ascii("\r\n") + [];
  }

  // A verb in lower case is a verb.
  lemma LowerCaseExample(json: Json)
    ensures Decode(ClientTable(json), Ascii("sub A 1\r\n"))
         == Frame(CSubscribe(Subscribe(Ascii("A"), None, Ascii("1"))), 9)
  {
    hide Decode, ClientTable, Spaced;
    var fs := [Ascii("A"), Ascii("1")];
    TwoFields(fs[0], fs[1]);
    AsciiIsUtf8(fs[0]);
    AsciiIsUtf8(fs[1]);
    SubLine(json, Ascii("sub "), fs, []);
    assert Ascii("sub A 1\r\n") == Ascii("sub ") + (Ascii("A") + Ascii(" ") + Ascii("1")) + Ascii("\r\n") + [];
  }
}
