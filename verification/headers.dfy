// The header block of HPUB and HMSG: a version line, one line per header, an
// empty line.
module Headers {
  import opened Bytes
  import opened Commands
  import opened Text
  import opened Wrappers

  datatype HeaderError = BadLength | MissingNatsVersion | BadHeaderName | BadHeaderValue | NoColon

  datatype Header = Header(name: bytes, value: bytes)

  // "NATS/1.0"
  const NATS_VERSION: bytes := [0x4E, 0x41, 0x54, 0x53, 0x2F, 0x31, 0x2E, 0x30]

  // ---------------------------------------------------------- one header line

  function StripLeadingSpace(s: bytes): bytes {
    if |s| > 0 && s[0] == SPACE then s[1..] else s
  }

  function StripTrailingSpace(s: bytes): bytes {
    if |s| > 0 && s[|s| - 1] == SPACE then s[..|s| - 1] else s
  }

  function ParseHeader(line: bytes): Result<Header, HeaderError> {
    var parts := Split(line, COLON);
    if |parts| != 2 then Err(NoColon)
    else
      var value := StripTrailingSpace(StripLeadingSpace(parts[1]));
      if !ValidUtf8(parts[0]) then Err(BadHeaderName)
      else if !ValidUtf8(value) then Err(BadHeaderValue)
      else Ok(Header(parts[0], value))
  }

  // `{name}: {value}`
  function PrintHeader(h: Header): bytes {
    h.name + [COLON] + ([SPACE] + h.value)
  }

  predicate PrintableHeader(h: Header) {
    && COLON !in h.name
    && COLON !in h.value
    && (h.value == [] || h.value[|h.value| - 1] != SPACE)
  }

  lemma PrintedHeaderParses(h: Header)
    requires ValidUtf8(h.name) && ValidUtf8(h.value) && PrintableHeader(h)
    ensures ParseHeader(PrintHeader(h)) == Ok(h)
  {
    var tail := [SPACE] + h.value;
    assert StripLeadingSpace(tail) == h.value;
    SplitFirst(h.name, COLON, tail);
    SplitNone(tail, COLON);
  }

  lemma ParsedHeaderIsPrintable(h: Header)
    requires ParseHeader(PrintHeader(h)) == Ok(h)
    ensures PrintableHeader(h)
  {
    var tail := [SPACE] + h.value;
    var parts := Split(PrintHeader(h), COLON);
    assert parts[0] in parts && h.name == parts[0];
    SplitFirst(h.name, COLON, tail);
    JoinSplit(tail, COLON);
    assert tail == parts[1] && parts[1] in parts;
    assert h.value == tail[1..];
  }

  // A header line comes back as it was printed exactly when neither part has
  // a colon and the value does not end in a space.
  lemma HeaderRoundTrip(h: Header)
    requires ValidUtf8(h.name) && ValidUtf8(h.value)
    ensures ParseHeader(PrintHeader(h)) == Ok(h) <==> PrintableHeader(h)
  {
    if PrintableHeader(h) {
      PrintedHeaderParses(h);
    } else if ParseHeader(PrintHeader(h)) == Ok(h) {
      ParsedHeaderIsPrintable(h);
    }
  }

  // "A" with the value of one space comes back with an empty value, and "A"
  // with the value ":" does not come back at all.
  lemma HeaderExamples()
    ensures ParseHeader(PrintHeader(Header([0x41], [SPACE]))) == Ok(Header([0x41], []))
    ensures ParseHeader(PrintHeader(Header([0x41], [COLON]))) == Err(NoColon)
  {
    AsciiIsUtf8([0x41]);
    SplitFirst([0x41], COLON, [SPACE, SPACE]);
    SplitFirst([0x41], COLON, [SPACE, COLON]);
    SplitFirst([SPACE], COLON, []);
    assert [SPACE] + [COLON] + [] == [SPACE, COLON];
    assert PrintHeader(Header([0x41], [SPACE])) == [0x41] + [COLON] + [SPACE, SPACE];
    assert PrintHeader(Header([0x41], [COLON])) == [0x41] + [COLON] + [SPACE, COLON];
    assert Split([SPACE, SPACE], COLON) == [[SPACE, SPACE]];
  }

  // One colon; behind it the value, from which one space at each end is gone.
  predicate HeaderLine(line: bytes, h: Header, lead: bytes, trail: bytes) {
    var raw := lead + h.value + trail;
    && line == h.name + [0x3A] + raw
    && 0x3A !in h.name && 0x3A !in h.value
    && (lead == [0x20] || (lead == [] && (raw == [] || raw[0] != 0x20)))
    && (trail == [0x20] || (trail == [] && (h.value == [] || h.value[|h.value| - 1] != 0x20)))
  }

  lemma StrippedOf(raw: bytes) returns (lead: bytes, trail: bytes)
    ensures var value := StripTrailingSpace(StripLeadingSpace(raw));
            && raw == lead + value + trail
            && (lead == [0x20] || (lead == [] && (raw == [] || raw[0] != 0x20)))
            && (trail == [0x20] || (trail == [] && (value == [] || value[|value| - 1] != 0x20)))
  {
    var rest := StripLeadingSpace(raw);
    var value := StripTrailingSpace(rest);
    lead := if |raw| > 0 && raw[0] == 0x20 then [0x20] else [];
    trail := if |rest| > 0 && rest[|rest| - 1] == 0x20 then [0x20] else [];
    assert raw == lead + rest && rest == value + trail;
  }

  lemma LineIsStripped(line: bytes, h: Header, lead: bytes, trail: bytes)
    requires HeaderLine(line, h, lead, trail)
    ensures Split(line, COLON) == [h.name, lead + h.value + trail]
    ensures StripTrailingSpace(StripLeadingSpace(lead + h.value + trail)) == h.value
  {
    hide Split;
    var raw := lead + h.value + trail;
    SplitFirst(h.name, COLON, raw);
    SplitNone(raw, COLON);
    assert StripLeadingSpace(raw) == h.value + trail;
  }

  // A line is accepted, as this name and value, exactly when it has one colon,
  // at most one space at each end of what follows it is dropped, and both
  // sides are UTF-8.
  lemma HeaderAccepted(line: bytes, h: Header)
    ensures ParseHeader(line) == Ok(h) <==>
            ValidUtf8(h.name) && ValidUtf8(h.value) && exists lead, trail :: HeaderLine(line, h, lead, trail)
  {
    hide ValidUtf8, Split, HeaderLine, StripLeadingSpace, StripTrailingSpace;
    if ParseHeader(line) == Ok(h) {
      var parts := Split(line, COLON);
      var lead, trail := StrippedOf(parts[1]);
      PartsMakeLine(line, h, lead, trail);
    }
    if lead, trail :| HeaderLine(line, h, lead, trail) {
      LineIsStripped(line, h, lead, trail);
    }
  }

  lemma PartsMakeLine(line: bytes, h: Header, lead: bytes, trail: bytes)
    requires Split(line, COLON) == [h.name, lead + h.value + trail]
    requires var raw := lead + h.value + trail;
             && (lead == [0x20] || (lead == [] && (raw == [] || raw[0] != 0x20)))
             && (trail == [0x20] || (trail == [] && (h.value == [] || h.value[|h.value| - 1] != 0x20)))
    ensures HeaderLine(line, h, lead, trail)
  {
    hide Split;
    var parts := Split(line, COLON);
    var raw := lead + h.value + trail;
    JoinSplit(line, COLON);
    assert parts[1..] == [raw] && Join([raw], COLON) == raw;
    assert line == h.name + [COLON] + raw;
    assert parts[0] in parts && parts[1] in parts;
    forall i | 0 <= i < |h.value|
      ensures h.value[i] != 0x3A
    {
      assert raw[|lead| + i] == h.value[i];
    }
  }

  // Every other line is refused: for a missing or further colon, or for the
  // first side that is not UTF-8.
  lemma HeaderRefused(line: bytes)
    ensures ParseHeader(line) == Err(NoColon) <==> multiset(line)[0x3A] != 1
    ensures forall h: Header, lead: bytes, trail: bytes :: HeaderLine(line, h, lead, trail) ==>
              && (ParseHeader(line) == Err(BadHeaderName) <==> !ValidUtf8(h.name))
              && (ParseHeader(line) == Err(BadHeaderValue) <==> ValidUtf8(h.name) && !ValidUtf8(h.value))
  {
    hide ValidUtf8, Split, HeaderLine, StripLeadingSpace, StripTrailingSpace;
    SplitCounts(line, COLON);
    forall h: Header, lead: bytes, trail: bytes | HeaderLine(line, h, lead, trail)
      ensures ParseHeader(line) == Err(BadHeaderName) <==> !ValidUtf8(h.name)
      ensures ParseHeader(line) == Err(BadHeaderValue) <==> ValidUtf8(h.name) && !ValidUtf8(h.value)
    {
      LineIsStripped(line, h, lead, trail);
    }
  }

  // "Bar:Baz" keeps its value whole, "Bar:  Baz" keeps one of its two spaces.
  lemma HeaderWithoutSpace()
    ensures ParseHeader([0x42, 0x61, 0x72, 0x3A, 0x42, 0x61, 0x7A])
         == Ok(Header([0x42, 0x61, 0x72], [0x42, 0x61, 0x7A]))
    ensures ParseHeader([0x42, 0x61, 0x72, 0x3A, 0x20, 0x20, 0x42, 0x61, 0x7A])
         == Ok(Header([0x42, 0x61, 0x72], [0x20, 0x42, 0x61, 0x7A]))
  {
    hide ValidUtf8, ParseHeader;
    var bar, baz := [0x42, 0x61, 0x72], [0x42, 0x61, 0x7A];
    AsciiIsUtf8(bar);
    AsciiIsUtf8(baz);
    AsciiIsUtf8([0x20] + baz);
    assert HeaderLine(bar + [0x3A] + baz, Header(bar, baz), [], []) by {
      assert [] + baz + [] == baz;
    }
    HeaderAccepted(bar + [0x3A] + baz, Header(bar, baz));
    assert HeaderLine(bar + [0x3A, 0x20, 0x20] + baz, Header(bar, [0x20] + baz), [0x20], []) by {
      assert bar + [0x3A, 0x20, 0x20] + baz == bar + [0x3A] + ([0x20] + ([0x20] + baz) + []);
    }
    HeaderAccepted(bar + [0x3A, 0x20, 0x20] + baz, Header(bar, [0x20] + baz));
    assert [0x20] + baz == [0x20, 0x42, 0x61, 0x7A];
    assert bar + [0x3A] + baz == [0x42, 0x61, 0x72, 0x3A, 0x42, 0x61, 0x7A];
    assert bar + [0x3A, 0x20, 0x20] + baz == [0x42, 0x61, 0x72, 0x3A, 0x20, 0x20, 0x42, 0x61, 0x7A];
  }

  // ------------------------------------------------------- the header map

  // `headers.entry(name).or_default().push(value)`
  function Insert(m: HeaderMap, h: Header): HeaderMap {
    m[h.name := (if h.name in m then m[h.name] else []) + [h.value]]
  }

  function Collect(m: HeaderMap, hs: seq<Header>): HeaderMap
    decreases |hs|
  {
    if hs == [] then m else Collect(Insert(m, hs[0]), hs[1..])
  }

  // The values of one name, in line order.
  function ValuesOf(hs: seq<Header>, name: bytes): seq<bytes> {
    if hs == [] then []
    else (if hs[0].name == name then [hs[0].value] else []) + ValuesOf(hs[1..], name)
  }

  function Existing(m: HeaderMap, name: bytes): seq<bytes> {
    if name in m then m[name] else []
  }

  // Names may interleave: every name ends up with its own values, in line order.
  lemma {:induction false} CollectValues(m: HeaderMap, hs: seq<Header>, name: bytes)
    ensures Existing(Collect(m, hs), name) == Existing(m, name) + ValuesOf(hs, name)
    ensures name in Collect(m, hs) <==> name in m || ValuesOf(hs, name) != []
    decreases |hs|
  {
    if hs != [] {
      CollectValues(Insert(m, hs[0]), hs[1..], name);
    }
  }

  // --------------------------------------------------------- the whole block

  function HeaderLoop(buffer: bytes, acc: nat, length: nat, headers: HeaderMap): Result<HeaderMap, HeaderError>
    requires acc <= |buffer|
    decreases |buffer| - acc
  {
    match NextSlice(buffer, acc)
    case None => Err(BadLength)
    case Some((slice, offset)) =>
      if slice == [] && offset == length then Ok(headers)
      else if slice != [] && offset != length then
        match ParseHeader(slice)
        case Err(e) => Err(e)
        case Ok(h) => HeaderLoop(buffer, offset, length, Insert(headers, h))
      else Err(BadLength)
  }

  function ParseHeaders(buffer: bytes, length: nat): Result<HeaderMap, HeaderError> {
    if length < 2 then Err(BadLength)
    else
      match NextSlice(buffer, 0)
      case None => Err(MissingNatsVersion)
      case Some((version, offset)) =>
        if version != NATS_VERSION then Err(MissingNatsVersion)
        else HeaderLoop(buffer, offset, length, map[])
  }

  // The loop as the code runs it, over the splitter and a map it updates.
  method ParseHeadersInPlace(buffer: bytes, length: nat) returns (r: Result<HeaderMap, HeaderError>)
    ensures r == ParseHeaders(buffer, length)
  {
    if length < 2 {
      return Err(BadLength);
    }
    var spliterator := new SliceSpliterator(buffer);
    var version := spliterator.Next();
    if version.None? || version.value.0 != NATS_VERSION {
      return Err(MissingNatsVersion);
    }
    var headers: HeaderMap := map[];
    while true
      invariant spliterator.Valid() && fresh(spliterator) && spliterator.buffer == buffer
      invariant HeaderLoop(buffer, spliterator.acc, length, headers) == ParseHeaders(buffer, length)
      decreases |buffer| - spliterator.acc
    {
      var item := spliterator.Next();
      if item.None? {
        return Err(BadLength);
      }
      var (slice, offset) := item.value;
      if slice == [] && offset == length {
        return Ok(headers);
      } else if slice != [] && offset != length {
        var parsed := ParseHeader(slice);
        if parsed.Err? {
          return Err(parsed.error);
        }
        headers := Insert(headers, parsed.value);
      } else {
        return Err(BadLength);
      }
    }
  }

  // What a block looks like: the version line, the lines, one empty line.
  function Block(lines: seq<bytes>): bytes {
    NATS_VERSION + CRLF + Terminated(lines) + CRLF
  }

  predicate GoodLine(line: bytes) {
    line != [] && CrlfFree(line) && ParseHeader(line).Ok?
  }

  predicate GoodLines(lines: seq<bytes>) {
    forall l :: l in lines ==> GoodLine(l)
  }

  function ParsedLines(lines: seq<bytes>): (hs: seq<Header>)
    requires GoodLines(lines)
    ensures |hs| == |lines|
    ensures forall i :: 0 <= i < |hs| ==> ParseHeader(lines[i]) == Ok(hs[i])
  {
    if lines == [] then [] else
      assert GoodLine(lines[0]);
      [ParseHeader(lines[0]).value] + ParsedLines(lines[1..])
  }

  // Good lines in front of anything are collected.
  lemma {:induction false} LoopOnLines(before: bytes, lines: seq<bytes>, tail: bytes, m: HeaderMap)
    requires GoodLines(lines) && tail != []
    ensures var buffer := before + Terminated(lines) + tail;
            HeaderLoop(buffer, |before|, |buffer|, m)
            == HeaderLoop(buffer, |before + Terminated(lines)|, |buffer|, Collect(m, ParsedLines(lines)))
    decreases |lines|
  {
    hide ParseHeader, NextSlice, Insert, CrlfFree;
    var buffer := before + Terminated(lines) + tail;
    if lines != [] {
      var line := lines[0];
      assert GoodLine(line);
      var more := Terminated(lines[1..]) + tail;
      assert buffer == before + line + CRLF + more;
      NextSliceOfTerminated(before, line, more);
      var before' := before + line + CRLF;
      assert buffer == before' + Terminated(lines[1..]) + tail;
      assert before' + Terminated(lines[1..]) == before + Terminated(lines);
      var h := ParseHeader(line).value;
      LoopOnLines(before', lines[1..], tail, Insert(m, h));
      assert ParsedLines(lines) == [h] + ParsedLines(lines[1..]);
    }
  }

  lemma NatsVersionIsPlain()
    ensures CrlfFree(NATS_VERSION) && ValidUtf8(NATS_VERSION)
  {
    hide ValidUtf8;
    assert CR !in NATS_VERSION;
    CrlfFreeAfterNoCr(NATS_VERSION, []);
    assert NATS_VERSION + [] == NATS_VERSION;
    AsciiIsUtf8(NATS_VERSION);
  }

  lemma AfterVersion(more: bytes)
    ensures var first := NATS_VERSION + CRLF;
            var buffer := first + more;
            ParseHeaders(buffer, |buffer|) == HeaderLoop(buffer, |first|, |buffer|, map[])
  {
    hide HeaderLoop, NextSlice, CrlfFree;
    NatsVersionIsPlain();
    assert NATS_VERSION + CRLF + more == [] + NATS_VERSION + CRLF + more;
    NextSliceOfTerminated([], NATS_VERSION, more);
  }

  // What follows the version line and good lines decides.
  lemma AfterGoodLines(lines: seq<bytes>, tail: bytes)
    requires GoodLines(lines) && tail != []
    ensures var before := NATS_VERSION + CRLF + Terminated(lines);
            var buffer := before + tail;
            ParseHeaders(buffer, |buffer|)
            == HeaderLoop(buffer, |before|, |buffer|, Collect(map[], ParsedLines(lines)))
  {
    hide HeaderLoop, ParseHeaders, Terminated, Collect, GoodLines;
    var first := NATS_VERSION + CRLF;
    AfterVersion(Terminated(lines) + tail);
    assert first + (Terminated(lines) + tail) == first + Terminated(lines) + tail;
    LoopOnLines(first, lines, tail, map[]);
  }

  lemma BlockParses(lines: seq<bytes>)
    requires GoodLines(lines)
    ensures ParseHeaders(Block(lines), |Block(lines)|) == Ok(Collect(map[], ParsedLines(lines)))
  {
    hide ParseHeaders, Collect, Terminated, NextSlice;
    var before := NATS_VERSION + CRLF + Terminated(lines);
    AfterGoodLines(lines, CRLF);
    assert Block(lines) == before + [] + CRLF + [];
    NextSliceOfTerminated(before, [], []);
  }

  lemma VersionAhead(rest: bytes)
    ensures var buffer := NATS_VERSION + CRLF + rest;
            ParseHeaders(buffer, |buffer|) != Err(MissingNatsVersion)
  {
    hide ParseHeader, HeaderLoop, NextSlice;
    NatsVersionIsPlain();
    var buffer := NATS_VERSION + CRLF + rest;
    assert buffer == [] + NATS_VERSION + CRLF + rest;
    NextSliceOfTerminated([], NATS_VERSION, rest);
    LoopKeepsVersion(buffer, |NATS_VERSION| + 2, map[]);
  }

  lemma NoVersionAhead(buffer: bytes)
    requires |buffer| >= 2 && !(NATS_VERSION + CRLF <= buffer)
    ensures ParseHeaders(buffer, |buffer|) == Err(MissingNatsVersion)
  {
    hide HeaderLoop, CrlfFree;
    if NextSlice(buffer, 0).Some? {
      var (version, offset) := NextSlice(buffer, 0).value;
      assert buffer == buffer[0..offset] + buffer[offset..];
      assert version + CRLF <= buffer;
    }
  }

  // A block of two bytes or more is refused for a missing version exactly when
  // the version line is not in front.
  lemma VersionIsRequired(buffer: bytes)
    ensures ParseHeaders(buffer, |buffer|) == Err(MissingNatsVersion) <==>
            |buffer| >= 2 && !(NATS_VERSION + CRLF <= buffer)
  {
    hide ParseHeaders;
    if |buffer| < 2 {
      TinyBlock(buffer);
    } else if NATS_VERSION + CRLF <= buffer {
      var rest := buffer[|NATS_VERSION| + 2..];
      assert buffer == NATS_VERSION + CRLF + rest;
      VersionAhead(rest);
    } else {
      NoVersionAhead(buffer);
    }
  }

  lemma TinyBlock(buffer: bytes)
    requires |buffer| < 2
    ensures ParseHeaders(buffer, |buffer|) == Err(BadLength)
  {
  }

  lemma {:induction false} LoopKeepsVersion(buffer: bytes, acc: nat, m: HeaderMap)
    requires acc <= |buffer|
    ensures HeaderLoop(buffer, acc, |buffer|, m) != Err(MissingNatsVersion)
    decreases |buffer| - acc
  {
    if NextSlice(buffer, acc).Some? {
      var (slice, offset) := NextSlice(buffer, acc).value;
      if slice != [] && offset != |buffer| && ParseHeader(slice).Ok? {
        LoopKeepsVersion(buffer, offset, Insert(m, ParseHeader(slice).value));
      }
    }
  }

  // Behind the version line and good lines: no further line, an empty line
  // that is not the end, a last line that is not empty, a line that is refused.
  lemma BlockRefused(lines: seq<bytes>, line: bytes, rest: bytes)
    requires GoodLines(lines) && CrlfFree(line)
    ensures var before := NATS_VERSION + CRLF + Terminated(lines);
            var cut, whole := before + line, before + line + CRLF + rest;
            && (line != [] ==> ParseHeaders(cut, |cut|) == Err(BadLength))
            && (line == [] && rest != [] ==> ParseHeaders(whole, |whole|) == Err(BadLength))
            && (line != [] && rest == [] ==> ParseHeaders(whole, |whole|) == Err(BadLength))
            && (line != [] && rest != [] && ParseHeader(line).Err? ==>
                  ParseHeaders(whole, |whole|) == Err(ParseHeader(line).error))
  {
    hide ParseHeaders, ParseHeader, CrlfFree, GoodLines;
    var before := NATS_VERSION + CRLF + Terminated(lines);
    if line != [] {
      AfterGoodLines(lines, line);
      assert (before + line)[|before|..] == line;
    }
    var tail := line + CRLF + rest;
    AfterGoodLines(lines, tail);
    assert before + tail == before + line + CRLF + rest;
    NextSliceOfTerminated(before, line, rest);
  }

  lemma {:induction false} LoopAccepts(buffer: bytes, acc: nat, m: HeaderMap) returns (lines: seq<bytes>)
    requires acc <= |buffer| && HeaderLoop(buffer, acc, |buffer|, m).Ok?
    ensures GoodLines(lines)
    ensures buffer[acc..] == Terminated(lines) + CRLF
    decreases |buffer| - acc
  {
    var (slice, offset) := NextSlice(buffer, acc).value;
    SplitAt(buffer, acc, offset);
    if slice == [] {
      lines := [];
    } else {
      var rest := LoopAccepts(buffer, offset, Insert(m, ParseHeader(slice).value));
      lines := [slice] + rest;
      TerminatedPrepend(slice, rest);
    }
  }

  lemma BlockAccepted(buffer: bytes) returns (lines: seq<bytes>)
    requires ParseHeaders(buffer, |buffer|).Ok?
    ensures GoodLines(lines) && buffer == Block(lines)
  {
    var (version, offset) := NextSlice(buffer, 0).value;
    SplitAt(buffer, 0, offset);
    lines := LoopAccepts(buffer, offset, map[]);
    assert buffer == buffer[0..];
  }

  // Header parsing is exact.
  lemma HeadersExact(buffer: bytes, m: HeaderMap)
    ensures ParseHeaders(buffer, |buffer|) == Ok(m) <==>
            exists lines: seq<bytes> ::
              GoodLines(lines) && buffer == Block(lines) && m == Collect(map[], ParsedLines(lines))
  {
    if ParseHeaders(buffer, |buffer|) == Ok(m) {
      var lines := BlockAccepted(buffer);
      BlockParses(lines);
    }
    if lines: seq<bytes> :| GoodLines(lines) && buffer == Block(lines) && m == Collect(map[], ParsedLines(lines)) {
      BlockParses(lines);
    }
  }

  // --------------------------------------------- printing a map in any order

  // An order in which the hash map may be enumerated.
  predicate Enumerates(order: seq<bytes>, m: HeaderMap) {
    && (forall n :: n in order ==> n in m)
    && (forall n :: n in m ==> n in order)
    && (forall i, j :: 0 <= i < j < |order| ==> order[i] != order[j])
  }

  function LinesOf(name: bytes, values: seq<bytes>): (hs: seq<Header>)
    ensures |hs| == |values|
    ensures forall i :: 0 <= i < |hs| ==> hs[i] == Header(name, values[i])
  {
    if values == [] then [] else [Header(name, values[0])] + LinesOf(name, values[1..])
  }

  function Flatten(order: seq<bytes>, m: HeaderMap): (hs: seq<Header>)
    ensures forall h :: h in hs ==> h.name in order && h.name in m && h.value in m[h.name]
  {
    if order == [] then []
    else Lines(order[0], m) + Flatten(order[1..], m)
  }

  function Lines(name: bytes, m: HeaderMap): (hs: seq<Header>)
    ensures forall h :: h in hs ==> h.name == name && name in m && h.value in m[name]
  {
    LinesOf(name, Existing(m, name))
  }

  function PrintLines(hs: seq<Header>): (lines: seq<bytes>)
    ensures |lines| == |hs|
    ensures forall i :: 0 <= i < |lines| ==> lines[i] == PrintHeader(hs[i])
  {
    if hs == [] then [] else [PrintHeader(hs[0])] + PrintLines(hs[1..])
  }

  // The block the encoder writes for one enumeration order.
  function PrintBlock(order: seq<bytes>, m: HeaderMap): bytes {
    Block(PrintLines(Flatten(order, m)))
  }

  predicate WellFormedHeader(h: Header) {
    && PrintableHeader(h)
    && ValidUtf8(h.name) && ValidUtf8(h.value)
    && CrlfFree(h.name) && CrlfFree(h.value)
  }

  predicate WellFormedHeaders(m: HeaderMap) {
    forall n :: n in m ==> m[n] != [] && forall v :: v in m[n] ==> WellFormedHeader(Header(n, v))
  }

  lemma {:induction false} ValuesOfAppend(a: seq<Header>, b: seq<Header>, name: bytes)
    ensures ValuesOf(a + b, name) == ValuesOf(a, name) + ValuesOf(b, name)
    decreases |a|
  {
    if a == [] {
      assert a + b == b;
    } else {
      assert (a + b)[1..] == a[1..] + b;
      ValuesOfAppend(a[1..], b, name);
    }
  }

  lemma {:induction false} ValuesOfLines(n: bytes, values: seq<bytes>, name: bytes)
    ensures ValuesOf(LinesOf(n, values), name) == if n == name then values else []
    decreases |values|
  {
    if values != [] {
      ValuesOfLines(n, values[1..], name);
      assert LinesOf(n, values)[1..] == LinesOf(n, values[1..]);
    }
  }

  lemma {:induction false} ValuesOfFlatten(order: seq<bytes>, m: HeaderMap, name: bytes)
    requires forall i, j :: 0 <= i < j < |order| ==> order[i] != order[j]
    ensures ValuesOf(Flatten(order, m), name) == if name in order then Existing(m, name) else []
    decreases |order|
  {
    if order != [] {
      ValuesOfAppend(Lines(order[0], m), Flatten(order[1..], m), name);
      ValuesOfLines(order[0], Existing(m, order[0]), name);
      ValuesOfFlatten(order[1..], m, name);
      if name == order[0] {
        assert name !in order[1..];
      }
    }
  }

  // Collecting the printed lines rebuilds the map, whatever the order.
  lemma CollectFlatten(order: seq<bytes>, m: HeaderMap)
    requires Enumerates(order, m)
    requires forall n :: n in m ==> m[n] != []
    ensures Collect(map[], Flatten(order, m)) == m
  {
    var c := Collect(map[], Flatten(order, m));
    forall n
      ensures n in c <==> n in m
      ensures n in m ==> c[n] == m[n]
    {
      CollectValues(map[], Flatten(order, m), n);
      ValuesOfFlatten(order, m, n);
    }
  }

  lemma PrintedLineIsGood(h: Header)
    requires WellFormedHeader(h)
    ensures GoodLine(PrintHeader(h)) && ParseHeader(PrintHeader(h)) == Ok(h)
    ensures ValidUtf8(PrintHeader(h))
  {
    HeaderRoundTrip(h);
    assert CR !in [SPACE];
    CrlfFreeAfterNoCr([SPACE], h.value);
    CrlfFreeAcross(h.name, COLON, [SPACE] + h.value);
    AsciiIsUtf8([COLON]);
    AsciiIsUtf8([SPACE]);
    Utf8Concat(h.name, [COLON]);
    Utf8Concat([SPACE], h.value);
    Utf8Concat(h.name + [COLON], [SPACE] + h.value);
  }

  lemma {:induction false} PrintedLinesAreGood(hs: seq<Header>)
    requires forall h :: h in hs ==> WellFormedHeader(h)
    ensures GoodLines(PrintLines(hs))
    ensures ParsedLines(PrintLines(hs)) == hs
    ensures ValidUtf8(Terminated(PrintLines(hs)))
    decreases |hs|
  {
    hide ValidUtf8, ParseHeader, PrintHeader, WellFormedHeader;
    AsciiIsUtf8([]);
    if hs != [] {
      PrintedLineIsGood(hs[0]);
      PrintedLinesAreGood(hs[1..]);
      var lines := PrintLines(hs);
      assert lines[1..] == PrintLines(hs[1..]);
      AsciiIsUtf8(CRLF);
      Utf8Concat(lines[0], CRLF);
      Utf8Concat(lines[0] + CRLF, Terminated(lines[1..]));
    }
  }

  // The header block round trip, for every enumeration order of the map.
  lemma HeaderBlockRoundTrip(order: seq<bytes>, m: HeaderMap)
    requires Enumerates(order, m) && WellFormedHeaders(m)
    ensures ParseHeaders(PrintBlock(order, m), |PrintBlock(order, m)|) == Ok(m)
    ensures ValidUtf8(PrintBlock(order, m))
  {
    var hs := Flatten(order, m);
    PrintedLinesAreGood(hs);
    var lines := PrintLines(hs);
    BlockParses(lines);
    CollectFlatten(order, m);
    NatsVersionIsPlain();
    AsciiIsUtf8(CRLF);
    Utf8Concat(NATS_VERSION, CRLF);
    Utf8Concat(NATS_VERSION + CRLF, Terminated(lines));
    Utf8Concat(NATS_VERSION + CRLF + Terminated(lines), CRLF);
  }
}
