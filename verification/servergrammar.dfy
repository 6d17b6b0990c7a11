// What the client's decoders do with every line a server might send.
module ServerGrammar {
  import opened Bodies
  import opened Bytes
  import opened Commands
  import opened Decoder
  import opened Encoder
  import opened Grammar
  import opened Headers
  import opened RoundTrip
  import opened ServerFrames
  import opened Spelling
  import opened Text
  import opened Wire
  import opened Wrappers

  lemma ServerLineReached(json: Json, c: ServerCommand, word: bytes, line: bytes, tail: bytes)
    requires Spells(word, ServerVerb(c)) && NoLowerCase(ServerVerb(c)) && CrlfFree(line)
    requires |word| + |line| + 2 <= 65535
    ensures Decode(ServerTable(json), word + line + Ascii("\r\n") + tail)
         == Settle(ServerBodyOf(json, c, line + CRLF + tail), |ServerVerb(c)|, |ServerVerb(c)| + |line| + 2 + |tail|)
  {
    hide Decode, ServerTable, ServerBodyOf, Settle, EqIgnoreCase, ServerVerb;
    SeparatorSpelling();
    EqIgnoreCaseExactly(word, ServerVerb(c));
    ServerDecodeLine(json, c, word, line, tail);
  }

  // PING, PONG, +OK: anything between the verb and CRLF is waited on for ever.
  lemma ServerPingLine(json: Json, word: bytes, line: bytes, rest: bytes)
    requires Spells(word, Ascii("PING")) && CrlfFree(line) && |word| + |line| + 2 <= 65535
    ensures Decode(ServerTable(json), word + line + Ascii("\r\n") + rest)
         == if line == [] then Frame(SPing, 6) else NeedMore
  {
    hide Decode, ServerTable, Spells;
    VerbSpelling();
    ServerLineReached(json, SPing, word, line, rest);
    FirstSlice(line, rest);
  }

  lemma ServerPongLine(json: Json, word: bytes, line: bytes, rest: bytes)
    requires Spells(word, Ascii("PONG")) && CrlfFree(line) && |word| + |line| + 2 <= 65535
    ensures Decode(ServerTable(json), word + line + Ascii("\r\n") + rest)
         == if line == [] then Frame(SPong, 6) else NeedMore
  {
    hide Decode, ServerTable, Spells;
    VerbSpelling();
    ServerLineReached(json, SPong, word, line, rest);
    FirstSlice(line, rest);
  }

  lemma OkLine(json: Json, word: bytes, line: bytes, rest: bytes)
    requires Spells(word, Ascii("+OK")) && CrlfFree(line) && |word| + |line| + 2 <= 65535
    ensures Decode(ServerTable(json), word + line + Ascii("\r\n") + rest)
         == if line == [] then Frame(SOk, 5) else NeedMore
  {
    hide Decode, ServerTable, Spells;
    VerbSpelling();
    ServerLineReached(json, SOk, word, line, rest);
    FirstSlice(line, rest);
  }

  // INFO: whatever text the JSON parser takes.
  lemma InfoLine(json: Json, word: bytes, line: bytes, rest: bytes)
    requires Spells(word, Ascii("INFO ")) && CrlfFree(line) && |word| + |line| + 2 <= 65535
    ensures Decode(ServerTable(json), word + line + Ascii("\r\n") + rest)
         == match json.parseInfo(line)
            case Some(info) => Frame(SInfo(info), 5 + |line| + 2)
            case None => Fail(BadInfo, 0)
  {
    hide Decode, ServerTable, Spells;
    VerbSpelling();
    ServerLineReached(json, SInfo(Info([])), word, line, rest);
    FirstSlice(line, rest);
  }

  // -ERR: a text in single quotes.
  lemma ErrLine(json: Json, word: bytes, line: bytes, rest: bytes)
    requires Spells(word, Ascii("-ERR ")) && CrlfFree(line) && |word| + |line| + 2 <= 65535
    ensures var o := Decode(ServerTable(json), word + line + Ascii("\r\n") + rest);
            && (forall text :: line == Ascii("'") + text + Ascii("'") && ValidUtf8(text) ==>
                  o == Frame(SErr(text), 5 + |line| + 2))
            && ((forall text :: line == Ascii("'") + text + Ascii("'") ==> !ValidUtf8(text)) ==>
                  o == Fail(BadErr, 0))
  {
    hide Decode, ServerTable, Spells, ValidUtf8;
    VerbSpelling();
    assert [QUOTE] == Ascii("'");
    ServerLineReached(json, SErr([]), word, line, rest);
    FirstSlice(line, rest);
    forall text | line == [QUOTE] + text + [QUOTE]
      ensures line[1..|line| - 1] == text
    {
    }
    if |line| >= 2 && line[0] == QUOTE && line[|line| - 1] == QUOTE {
      assert line == [QUOTE] + line[1..|line| - 1] + [QUOTE];
    }
  }

  // MSG: subject, SID, at most one reply subject, size; then the bytes up to
  // the next CRLF, which must be as many as announced.
  lemma MsgBodyOfFields(fs: seq<bytes>, payload: bytes, rest: bytes)
    requires Fields(fs) && CrlfFree(payload)
    ensures var r := DecodeMsg(Spaced(fs) + CRLF + (payload + CRLF + rest));
            var n := |Spaced(fs)| + 2 + |payload| + 2;
            if !SizedFields(fs, 3) || !AllUtf8(fs) || ParseUsize(fs[|fs| - 1]).value != |payload|
            then r == FatalError(BadMsg)
            else if |fs| == 3 then r == Advance(SMsg(Msg(fs[0], fs[1], None, |payload|, payload)), n)
            else r == Advance(SMsg(Msg(fs[0], fs[1], Some(fs[2]), |payload|, payload)), n)
  {
    hide Spaced, Split, ValidUtf8, ParseUsize, NextSlice, CrlfFree;
    SpacedSplits(fs);
    var line, tail := Spaced(fs), payload + CRLF + rest;
    FirstSlice(line, tail);
    assert line + CRLF + tail == (line + CRLF) + payload + CRLF + rest;
    NextSliceOfTerminated(line + CRLF, payload, rest);
    FewUtf8(fs);
    if SizedFields(fs, 3) {
      NumberIsUtf8(fs[|fs| - 1]);
    }
  }

  lemma MsgReached(json: Json, word: bytes, line: bytes, tail: bytes)
    requires Spells(word, Ascii("MSG ")) && CrlfFree(line) && |word| + |line| + 2 <= 65535
    ensures Decode(ServerTable(json), word + line + Ascii("\r\n") + tail)
         == Settle(DecodeMsg(line + CRLF + tail), 4, 4 + |line| + 2 + |tail|)
  {
    hide Decode, ServerTable, Spells, CrlfFree, DecodeMsg, Settle;
    VerbSpelling();
    ServerLineReached(json, SMsg(Msg([], [], None, 0, [])), word, line, tail);
  }

  lemma MsgLines(json: Json, word: bytes, fs: seq<bytes>, payload: bytes, rest: bytes)
    requires Spells(word, Ascii("MSG ")) && Fields(fs) && |word| + |Spaced(fs)| + 2 <= 65535
    requires CrlfFree(payload)
    ensures var o := Decode(
                       ServerTable(json), word + Spaced(fs) + Ascii("\r\n") + (payload + Ascii("\r\n") + rest));
            var n := 4 + |Spaced(fs)| + 2 + |payload| + 2;
            if !SizedFields(fs, 3) || !AllUtf8(fs) || ParseUsize(fs[|fs| - 1]).value != |payload|
            then o == Fail(BadMsg, 0)
            else if |fs| == 3 then o == Frame(SMsg(Msg(fs[0], fs[1], None, |payload|, payload)), n)
            else o == Frame(SMsg(Msg(fs[0], fs[1], Some(fs[2]), |payload|, payload)), n)
  {
    hide Decode, ServerTable, Spells, Spaced, ValidUtf8, ParseUsize, CrlfFree, DecodeMsg;
    SeparatorSpelling();
    SpacedSplits(fs);
    MsgReached(json, word, Spaced(fs), payload + CRLF + rest);
    MsgBodyOfFields(fs, payload, rest);
  }

  // Without that CRLF the payload is waited for, whatever the fields are.
  lemma MsgWaits(json: Json, word: bytes, fs: seq<bytes>, tail: bytes)
    requires Spells(word, Ascii("MSG ")) && Fields(fs) && |word| + |Spaced(fs)| + 2 <= 65535
    requires CrlfFree(tail)
    ensures Decode(ServerTable(json), word + Spaced(fs) + Ascii("\r\n") + tail) == NeedMore
  {
    hide Decode, ServerTable, Spells, Spaced, Split, CrlfFree;
    SpacedSplits(fs);
    var line := Spaced(fs);
    MsgReached(json, word, line, tail);
    FirstSlice(line, tail);
    assert (line + CRLF + tail)[|line| + 2..] == tail;
  }

  lemma HMsgReached(json: Json, word: bytes, line: bytes, tail: bytes)
    requires Spells(word, Ascii("HMSG ")) && CrlfFree(line) && |word| + |line| + 2 <= 65535
    ensures Decode(ServerTable(json), word + line + Ascii("\r\n") + tail)
         == Settle(DecodeHMsg(line + CRLF + tail), 5, 5 + |line| + 2 + |tail|)
  {
    hide Decode, ServerTable, Spells, CrlfFree, DecodeHMsg, Settle;
    VerbSpelling();
    ServerLineReached(json, SHMsg(HMsg([], [], None, 0, 0, map[], [])), word, line, tail);
  }

  // HMSG: subject, SID, at most one reply subject, header size, total size.
  lemma HMsgFieldCount(json: Json, word: bytes, fs: seq<bytes>, tail: bytes)
    requires Spells(word, Ascii("HMSG ")) && Fields(fs) && |word| + |Spaced(fs)| + 2 <= 65535
    requires |fs| != 4 && |fs| != 5
    ensures Decode(ServerTable(json), word + Spaced(fs) + Ascii("\r\n") + tail) == NeedMore
  {
    hide Decode, ServerTable, Spells, Spaced, Split, CrlfFree, NextSlice;
    SpacedSplits(fs);
    HMsgReached(json, word, Spaced(fs), tail);
    FirstSlice(Spaced(fs), tail);
  }

  // Sizes that are no numbers, or the wrong way round, are refused.
  lemma HMsgSizes(json: Json, word: bytes, fs: seq<bytes>, tail: bytes)
    requires Spells(word, Ascii("HMSG ")) && Fields(fs) && |word| + |Spaced(fs)| + 2 <= 65535
    requires |fs| == 4 || |fs| == 5
    requires forall header, total :: Announces(fs, 4, header, total) ==> total < header
    ensures Decode(ServerTable(json), word + Spaced(fs) + Ascii("\r\n") + tail) == Fail(BadHMsg, 0)
  {
    hide Decode, ServerTable, Spells, Spaced, Split, CrlfFree, NextSlice, ValidUtf8, ParseUsize;
    SpacedSplits(fs);
    HMsgReached(json, word, Spaced(fs), tail);
    FirstSlice(Spaced(fs), tail);
    var header, total := ParseUsize(fs[|fs| - 2]), ParseUsize(fs[|fs| - 1]);
    if header.Some? && total.Some? {
      assert Announces(fs, 4, header.value, total.value);
    }
  }

  // With good sizes everything behind the line is up to the two blocks.
  lemma HMsgReachesBlocks(json: Json, word: bytes, fs: seq<bytes>, tail: bytes, header: nat, total: nat)
    requires Spells(word, Ascii("HMSG ")) && Fields(fs) && |word| + |Spaced(fs)| + 2 <= 65535
    requires Announces(fs, 4, header, total)
    ensures var body := Spaced(fs) + CRLF + tail;
            Decode(ServerTable(json), word + Spaced(fs) + Ascii("\r\n") + tail)
            == Settle(
                 HMsgSlices(
                   body, |Spaced(fs)| + 2, fs[0], fs[1], if |fs| == 5 then Some(fs[2]) else None, header, total),
                 5, 5 + |body|)
  {
    hide Decode, ServerTable, Spells, Spaced, Split, CrlfFree, NextSlice, ValidUtf8, ParseUsize, HMsgSlices, Settle;
    SpacedSplits(fs);
    HMsgReached(json, word, Spaced(fs), tail);
    FirstSlice(Spaced(fs), tail);
    NumberIsUtf8(fs[|fs| - 2]);
    NumberIsUtf8(fs[|fs| - 1]);
  }

  lemma HMsgSlicesOfBlocks(
    head: bytes, subject: bytes, sid: bytes, replyTo: Option<bytes>, block: bytes, payload: bytes, behind: bytes)
    ensures HMsgSlices(
              head + (block + payload + behind), |head|, subject, sid, replyTo, |block|, |block| + |payload|)
         == HMsgParts(subject, sid, replyTo, block, payload, |head| + |block| + |payload| + 2)
  {
    hide HMsgParts;
    var body := head + (block + payload + behind);
    assert body[|head|..|head| + |block|] == block;
    assert body[|head| + |block|..|head| + |block| + |payload|] == payload;
  }

  // What an HMSG comes to whose two blocks are there. The two bytes behind the
  // payload are dropped unseen, and must be there.
  lemma HMsgBlocks(
    json: Json, word: bytes, fs: seq<bytes>, block: bytes, payload: bytes, behind: bytes)
    requires Spells(word, Ascii("HMSG ")) && Fields(fs) && |word| + |Spaced(fs)| + 2 <= 65535
    requires Announces(fs, 4, |block|, |block| + |payload|)
    ensures var o := Decode(
                       ServerTable(json), word + Spaced(fs) + Ascii("\r\n") + (block + payload + behind));
            var replyTo := if |fs| == 5 then Some(fs[2]) else None;
            if !ValidUtf8(fs[0]) || !ValidUtf8(fs[1]) || !OptUtf8(replyTo) then o == Fail(BadHMsg, 0)
            else
              match ParseHeaders(block, |block|)
              case Err(_) => o == Fail(BadHMsg, 0)
              case Ok(m) =>
                var h := HMsg(fs[0], fs[1], replyTo, |block|, |block| + |payload|, m, payload);
                if |behind| < 2 then o == Panic(AdvancePastEnd)
                else o == Frame(SHMsg(h), 5 + |Spaced(fs)| + 2 + |block| + |payload| + 2)
  {
    hide Decode, ServerTable, Spells, Spaced, ValidUtf8, ParseUsize, ParseHeaders, CrlfFree, HMsgSlices;
    var replyTo := if |fs| == 5 then Some(fs[2]) else None;
    HMsgReachesBlocks(json, word, fs, block + payload + behind, |block|, |block| + |payload|);
    HMsgSlicesOfBlocks(Spaced(fs) + CRLF, fs[0], fs[1], replyTo, block, payload, behind);
  }

  // What an HMSG of which only `tail` is there behind the line comes to: waiting
  // while fewer bytes than the total follow the verb, the line counted in.
  lemma HMsgShort(json: Json, word: bytes, fs: seq<bytes>, tail: bytes, header: nat, total: nat)
    requires Spells(word, Ascii("HMSG ")) && Fields(fs) && |word| + |Spaced(fs)| + 2 <= 65535
    requires Announces(fs, 4, header, total) && header <= total && |tail| < total
    ensures Decode(ServerTable(json), word + Spaced(fs) + Ascii("\r\n") + tail)
         == if |Spaced(fs)| + 2 + |tail| < total then NeedMore else Panic(SliceOutOfRange)
  {
    hide Decode, ServerTable, Spells, Spaced, ValidUtf8, ParseUsize, ParseHeaders, CrlfFree, HMsgParts;
    HMsgReachesBlocks(json, word, fs, tail, header, total);
  }

  // -------------------------------------------------------------- no verb

  predicate ServerVerbSpelled(src: bytes) {
    || Starts(src, "PING") || Starts(src, "PONG") || Starts(src, "HMSG ") || Starts(src, "MSG ")
    || Starts(src, "+OK") || Starts(src, "-ERR ") || Starts(src, "INFO ")
  }

  lemma ServerVerbAheadExactly(src: bytes)
    ensures ServerVerbAhead(src) <==> ServerVerbSpelled(src)
  {
    hide HasPrefix, Starts, NoLowerCase;
    VerbSpelling();
    VerbsAreUpperCase();
    StartsIsPrefix(src, "PING", PING);
    StartsIsPrefix(src, "PONG", PONG);
    StartsIsPrefix(src, "HMSG ", HMSG);
    StartsIsPrefix(src, "MSG ", MSG);
    StartsIsPrefix(src, "+OK", OK);
    StartsIsPrefix(src, "-ERR ", ERR);
    StartsIsPrefix(src, "INFO ", INFO);
  }

  lemma NoServerMatch(json: Json, src: bytes)
    requires !ServerVerbAhead(src)
    ensures forall j: nat :: j < 7 ==> !HasPrefix(src, ServerTable(json).table[j].prefix)
  {
    hide HasPrefix;
    ServerPrefixes(json);
  }

  // A first line without a verb: dropped up to behind its CR, once as many
  // bytes are there as the longest verb has.
  lemma ServerUnknownLine(json: Json, line: bytes, rest: bytes)
    requires CrlfFree(line) && |line| + 2 <= 65535
    requires !ServerVerbSpelled(line + Ascii("\r\n") + rest)
    ensures var src := line + Ascii("\r\n") + rest;
            Decode(ServerTable(json), src)
            == if |src| < 5 then NeedMore else Fail(ServerUnknownCommand, |line| + 1)
  {
    hide Dispatch, ServerVerbSpelled, ServerVerbAhead, HasPrefix, ServerTable;
    SeparatorSpelling();
    var src := line + Ascii("\r\n") + rest;
    FirstCrlfInWindow(line, rest);
    ServerVerbAheadExactly(src);
    if |src| < 5 {
      ServerPrefixes(json);
      NoServerMatch(json, src);
      assert |INFO| == 5;
      NoMatchWaits(ServerTable(json), src, |line|, 0, 6);
    } else {
      ServerUnknownCommandExactly(json, src);
    }
  }

  // ------------------------------------------------------------- examples

  lemma ThreeFields(f: bytes, g: bytes, h: bytes)
    ensures Spaced([f, g, h]) == f + Ascii(" ") + g + Ascii(" ") + h
  {
    assert [f, g, h][1..] == [g, h];
    TwoFields(g, h);
  }

  lemma MsgExample(json: Json)
    ensures Decode(ServerTable(json), Ascii("MSG F 1 2\r\nHi\r\n"))
         == Frame(SMsg(Msg(Ascii("F"), Ascii("1"), None, 2, Ascii("Hi"))), 15)
  {
    hide Decode, ServerTable, Spaced;
    var fs := [Ascii("F"), Ascii("1"), Ascii("2")];
    ThreeFields(fs[0], fs[1], fs[2]);
    AsciiIsUtf8(fs[0]);
    AsciiIsUtf8(fs[1]);
    AsciiIsUtf8(fs[2]);
    assert Decimal(2) == Ascii("2");
    ParseDecimal(2);
    MsgLines(json, Ascii("MSG "), fs, Ascii("Hi"), []);
    MsgExampleText();
  }

  lemma MsgExampleText()
    ensures Ascii("MSG F 1 2\r\nHi\r\n")
         == Ascii("MSG ") + (Ascii("F") + Ascii(" ") + Ascii("1") + Ascii(" ") + Ascii("2")) + Ascii("\r\n")
            + (Ascii("Hi") + Ascii("\r\n") + [])
  {
  }
}
