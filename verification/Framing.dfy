/** The frame format and the one-shot decoder that the incremental parser is
    measured against. */
module Framing {
  import opened Text
  import opened Headers
  import opened Incremental
  import Utf8

  const MAX_MESSAGE_SIZE := 8 * 1024 * 1024
  const MAX_BUFFER_SIZE := 16 * 1024 * 1024
  const SOCKET_BUF_SIZE := 65536
  const USIZE_MAX := 0xFFFF_FFFF_FFFF_FFFF

  const HEADER_TERMINATOR: Bytes := [LF, LF]
  const CONTENT_TYPE: Bytes := "Content-Type"

  datatype MessageType =
    | AuthRequest | CommandReply | ApiResponse | Event | Disconnect
    | Unknown(text: Bytes)

  function FromContentType(text: Bytes): MessageType {
    if text == "auth/request" then AuthRequest
    else if text == "command/reply" then CommandReply
    else if text == "api/response" then ApiResponse
    else if text == "text/event-plain" || text == "text/event-json" || text == "text/event-xml"
         || text == "log/data" then Event
    else if text == "text/disconnect-notice" then Disconnect
    else Unknown(text)
  }

  datatype Message = Message(messageType: MessageType, headers: HeaderMap, body: Option<Bytes>)

  datatype Error =
    | HeadersNotUtf8
    | InvalidHeader(text: Bytes)
    | MissingContentType
    | InvalidLength(text: Bytes)
    | TooLarge(length: nat)
    | BodyNotUtf8

  /** A header block that has been read; a body length of 0 means no body. */
  datatype Head = Head(messageType: MessageType, headers: HeaderMap, bodyLength: nat)

  /** A header block that announced a body of acceptable size. */
  type PendingHead = h: Head | 0 < h.bodyLength <= MAX_MESSAGE_SIZE witness Head(AuthRequest, map[], 1)

  datatype State = WaitingForHeaders | WaitingForBody(head: PendingHead)

  type ParseStep = Step<State, Message, Error>

  function ReadHead(block: Bytes): (r: Result<Head, Error>)
    ensures r.Ok? ==> r.value.bodyLength <= MAX_MESSAGE_SIZE
  {
    if !Utf8.Valid(block) then Err(HeadersNotUtf8)
    else
      match ParseStrict(block)
      case Err(text) => Err(InvalidHeader(text))
      case Ok(headers) =>
        if CONTENT_TYPE !in headers then Err(MissingContentType)
        else
          var messageType := FromContentType(headers[CONTENT_TYPE]);
          if CONTENT_LENGTH !in headers then Ok(Head(messageType, headers, 0))
          else
            match ParseUnsigned(Trim(headers[CONTENT_LENGTH]), USIZE_MAX)
            case None => Err(InvalidLength(headers[CONTENT_LENGTH]))
            case Some(n) =>
              if n > MAX_MESSAGE_SIZE then Err(TooLarge(n))
              else Ok(Head(messageType, headers, n))
  }

  lemma ReadsHead(block: Bytes, headers: HeaderMap, n: nat)
    requires Utf8.Valid(block) && ParseStrict(block) == Ok(headers)
    requires CONTENT_TYPE in headers && CONTENT_LENGTH in headers
    requires ParseUnsigned(Trim(headers[CONTENT_LENGTH]), USIZE_MAX) == Some(n) && n <= MAX_MESSAGE_SIZE
    ensures ReadHead(block) == Ok(Head(FromContentType(headers[CONTENT_TYPE]), headers, n))
  {
  }

  function ReadBody(head: PendingHead, data: Bytes): ParseStep {
    if |data| < head.bodyLength then Pending(WaitingForBody(head), data)
    else
      var (body, rest) := (data[..head.bodyLength], data[head.bodyLength..]);
      if Utf8.Valid(body)
      then Emit(Message(head.messageType, head.headers, Some(body)), WaitingForHeaders, rest)
      else Failed(BodyNotUtf8, WaitingForBody(head), rest)
  }

  /** What follows a header block that was read, or could not be. */
  function AfterHead(read: Result<Head, Error>, rest: Bytes): ParseStep
    requires read.Ok? ==> read.value.bodyLength <= MAX_MESSAGE_SIZE
  {
    match read
    case Err(e) => Failed(e, WaitingForHeaders, rest)
    case Ok(head) =>
      if head.bodyLength > 0 then ReadBody(head, rest)
      else Emit(Message(head.messageType, head.headers, None), WaitingForHeaders, rest)
  }

  /** `parse_message`. */
  function ParseMessage(st: State, data: Bytes): ParseStep {
    match st
    case WaitingForBody(head) => ReadBody(head, data)
    case WaitingForHeaders =>
      match Find(data, HEADER_TERMINATOR)
      case None => Pending(WaitingForHeaders, data)
      case Some(p) => AfterHead(ReadHead(data[..p]), data[p + 2..])
  }

  type ParserRun = Run<State, Message, Error>

  const START: ParserRun := Run([], None, WaitingForHeaders, [])

  // ---- The parser meets what incremental decoding asks of it ----

  lemma ReadBodyStable(head: PendingHead, a: Bytes, b: Bytes)
    ensures match ReadBody(head, a)
      case Pending(st, rest) => rest == a && st == WaitingForBody(head)
      case Emit(m, st, rest) => |rest| < |a| && ReadBody(head, a + b) == Emit(m, st, rest + b)
      case Failed(e, st, rest) => ReadBody(head, a + b) == Failed(e, st, rest + b)
  {
    if head.bodyLength <= |a| {
      assert (a + b)[..head.bodyLength] == a[..head.bodyLength];
      assert (a + b)[head.bodyLength..] == a[head.bodyLength..] + b;
    }
  }

  lemma AfterHeadStable(read: Result<Head, Error>, a: Bytes, b: Bytes)
    requires read.Ok? ==> read.value.bodyLength <= MAX_MESSAGE_SIZE
    ensures match AfterHead(read, a)
      case Pending(st, rest) =>
        AfterHead(read, a + b) == ParseMessage(st, rest + b)
      case Emit(m, st, rest) =>
        |rest| <= |a| && AfterHead(read, a + b) == Emit(m, st, rest + b)
      case Failed(e, st, rest) =>
        AfterHead(read, a + b) == Failed(e, st, rest + b)
  {
    if read.Ok? && read.value.bodyLength > 0 {
      ReadBodyStable(read.value, a, b);
    }
  }

  lemma ParseStable(st: State, a: Bytes, b: Bytes)
    ensures ParseMessage(st, a).Emit? ==> |ParseMessage(st, a).rest| < |a|
    ensures match ParseMessage(st, a)
      case Pending(st', rest) => ParseMessage(st, a + b) == ParseMessage(st', rest + b)
      case Emit(m, st', rest) => ParseMessage(st, a + b) == Emit(m, st', rest + b)
      case Failed(e, st', rest) => ParseMessage(st, a + b) == Failed(e, st', rest + b)
  {
    match st {
      case WaitingForBody(head) => ReadBodyStable(head, a, b);
      case WaitingForHeaders =>
        if Find(a, HEADER_TERMINATOR).Some? {
          var p := Find(a, HEADER_TERMINATOR).value;
          FindStable(a, b, HEADER_TERMINATOR);
          assert (a + b)[..p] == a[..p] && (a + b)[p + 2..] == a[p + 2..] + b;
          AfterHeadStable(ReadHead(a[..p]), a[p + 2..], b);
        }
    }
  }

  lemma ReadBodyLocal(head: PendingHead, a: Bytes)
    requires ReadBody(head, a).Emit?
    ensures var raw, s := a[..head.bodyLength], ReadBody(head, a);
      a == raw + s.rest && s.st == WaitingForHeaders && ReadBody(head, raw) == Emit(s.message, s.st, [])
  {
    var raw := a[..head.bodyLength];
    assert raw[..head.bodyLength] == raw && raw[head.bodyLength..] == [];
  }

  /** The bytes of the first message of a buffer. */
  function FirstFrame(a: Bytes): Bytes
    requires ParseMessage(WaitingForHeaders, a).Emit?
  {
    var p := Find(a, HEADER_TERMINATOR).value;
    a[..p + 2 + ReadHead(a[..p]).value.bodyLength]
  }

  /** A header block is recognised by its own bytes. */
  lemma TerminatorIsLocal(a: Bytes, p: nat, body: Bytes)
    requires Find(a, HEADER_TERMINATOR) == Some(p)
    ensures p + 2 <= |a| && Find(a[..p + 2] + body, HEADER_TERMINATOR) == Some(p)
  {
    FindBlank(a, p);
    FindBlank(a[..p + 2] + body, p);
  }

  lemma AfterHeadLocal(head: Head, rest: Bytes)
    requires head.bodyLength <= MAX_MESSAGE_SIZE && AfterHead(Ok(head), rest).Emit?
    ensures head.bodyLength <= |rest|
    ensures var s, body := AfterHead(Ok(head), rest), rest[..head.bodyLength];
      && s.st == WaitingForHeaders
      && rest == body + s.rest
      && AfterHead(Ok(head), body) == Emit(s.message, s.st, [])
  {
    if head.bodyLength > 0 {
      ReadBodyLocal(head, rest);
    }
  }

  /** A message is emitted from a header block that was read. */
  lemma EmittedAfterHead(a: Bytes)
    requires ParseMessage(WaitingForHeaders, a).Emit?
    ensures Find(a, HEADER_TERMINATOR).Some?
    ensures var p := Find(a, HEADER_TERMINATOR).value;
      && p + 2 <= |a| && ReadHead(a[..p]).Ok?
      && ParseMessage(WaitingForHeaders, a) == AfterHead(ReadHead(a[..p]), a[p + 2..])
  {
  }

  lemma ParsedAfterHead(a: Bytes, p: nat, read: Result<Head, Error>)
    requires Find(a, HEADER_TERMINATOR) == Some(p) && read == ReadHead(a[..p])
    ensures ParseMessage(WaitingForHeaders, a) == AfterHead(read, a[p + 2..])
  {
  }

  lemma ParseLocal(a: Bytes)
    requires ParseMessage(WaitingForHeaders, a).Emit?
    ensures var s := ParseMessage(WaitingForHeaders, a);
      && s.st == WaitingForHeaders
      && a == FirstFrame(a) + s.rest
      && ParseMessage(WaitingForHeaders, FirstFrame(a)) == Emit(s.message, s.st, [])
  {
    EmittedAfterHead(a);
    var p := Find(a, HEADER_TERMINATOR).value;
    LocalAfterHead(a, p, ReadHead(a[..p]).value);
  }

  lemma LocalAfterHead(a: Bytes, p: nat, head: Head)
    requires Find(a, HEADER_TERMINATOR) == Some(p) && p + 2 <= |a| && ReadHead(a[..p]) == Ok(head)
    requires head.bodyLength <= MAX_MESSAGE_SIZE && AfterHead(Ok(head), a[p + 2..]).Emit?
    ensures head.bodyLength <= |a| - p - 2
    ensures var s, raw := AfterHead(Ok(head), a[p + 2..]), a[..p + 2 + head.bodyLength];
      && s.st == WaitingForHeaders
      && a == raw + s.rest
      && ParseMessage(WaitingForHeaders, raw) == Emit(s.message, s.st, [])
  {
    AfterHeadLocal(head, a[p + 2..]);
    var body := a[p + 2..][..head.bodyLength];
    FirstFrameParts(a, p, body);
    TerminatorIsLocal(a, p, body);
    ParsedAfterHead(a[..p + 2] + body, p, Ok(head));
  }

  lemma FirstFrameParts(a: Bytes, p: nat, body: Bytes)
    requires p + 2 <= |a| && body <= a[p + 2..]
    ensures a[..p + 2 + |body|] == a[..p + 2] + body
    ensures (a[..p + 2] + body)[..p] == a[..p] && (a[..p + 2] + body)[p + 2..] == body
    ensures a == a[..p + 2] + body + a[p + 2..][|body|..]
  {
    assert a == a[..p + 2] + a[p + 2..];
    assert a[p + 2..] == body + a[p + 2..][|body|..];
  }

  lemma AfterHeadSettles(read: Result<Head, Error>, rest: Bytes)
    requires (read.Ok? ==> read.value.bodyLength <= MAX_MESSAGE_SIZE) && AfterHead(read, rest).Pending?
    ensures var s := AfterHead(read, rest); ParseMessage(s.st, s.rest) == s
  {
  }

  lemma ParseSettles(st: State, a: Bytes)
    requires ParseMessage(st, a).Pending?
    ensures var s := ParseMessage(st, a); ParseMessage(s.st, s.rest) == s
  {
    if st.WaitingForHeaders? && Find(a, HEADER_TERMINATOR).Some? {
      var p := Find(a, HEADER_TERMINATOR).value;
      ParsedAfterHead(a, p, ReadHead(a[..p]));
      AfterHeadSettles(ReadHead(a[..p]), a[p + 2..]);
    }
  }

  /** The frame parser consumes what it emits, is not swayed by later bytes,
      answers the same when asked again, and reads each message from the bytes
      of that message alone. */
  lemma ParserIsIncremental()
    ensures Shrinks(ParseMessage) && Stable(ParseMessage) && Settles(ParseMessage)
    ensures Local(ParseMessage, WaitingForHeaders)
  {
    forall st, a ensures ParseMessage(st, a).Emit? ==> |ParseMessage(st, a).rest| < |a| {
      ParseStable(st, a, []);
    }
    forall st, a, b ensures ParseMessage(st, a + b) == Resume(ParseMessage, ParseMessage(st, a), b) {
      ParseStable(st, a, b);
    }
    forall st, a | ParseMessage(st, a).Pending?
      ensures ParseMessage(ParseMessage(st, a).st, ParseMessage(st, a).rest) == ParseMessage(st, a)
    {
      ParseSettles(st, a);
    }
    forall a | ParseMessage(WaitingForHeaders, a).Emit?
      ensures ParseMessage(WaitingForHeaders, a).st == WaitingForHeaders
      ensures exists raw ::
        && a == raw + ParseMessage(WaitingForHeaders, a).rest
        && IsFrame(ParseMessage, WaitingForHeaders, raw, ParseMessage(WaitingForHeaders, a).message)
    {
      ParseLocal(a);
      assert IsFrame(ParseMessage, WaitingForHeaders, FirstFrame(a), ParseMessage(WaitingForHeaders, a).message);
    }
  }

  // ---- The stream decoder ----

  /** One-shot decoding of everything that arrived. */
  function DecodeStream(data: Bytes): ParserRun {
    ParserIsIncremental();
    Decode(ParseMessage, WaitingForHeaders, data)
  }

  /** Feeding the same bytes chunk by chunk to a new parser. */
  function FeedStream(chunks: seq<Bytes>): Feeding<State, Message, Error> {
    ParserIsIncremental();
    Feed(ParseMessage, MAX_BUFFER_SIZE, START, chunks)
  }

  lemma ContinueFromStart(data: Bytes)
    ensures Shrinks(ParseMessage)
    ensures Continue(ParseMessage, START, data) == DecodeStream(data)
  {
    ParserIsIncremental();
    ContinueFresh(ParseMessage, WaitingForHeaders, data);
  }

  lemma StartIsDrained()
    ensures Drained(ParseMessage, START) && !Overflowed(START)
  {
  }

  /** For every byte stream and every split of it into reads: unless the buffer
      overflows, the read loop yields the messages, the error, the state and the
      unread bytes of one-shot decoding. */
  lemma ChunkingIndependence(chunks: seq<Bytes>)
    requires !Overflowed(FeedStream(chunks).run)
    ensures var f := FeedStream(chunks);
      && DecodeStream(Concat(chunks)) == f.run.(rest := f.run.rest + Concat(f.unread))
      && (f.run.end.None? ==> f.unread == [])
  {
    ParserIsIncremental();
    StartIsDrained();
    FeedIsContinue(ParseMessage, MAX_BUFFER_SIZE, START, chunks);
    ContinueFromStart(Concat(chunks));
  }

  lemma {:induction false} DecodeLeavesState(st: State, data: Bytes)
    requires Shrinks(ParseMessage)
    ensures var r := Decode(ParseMessage, st, data);
      r.end.None? ==> WaitsForMore(r)
    decreases |data|
  {
    match ParseMessage(st, data) {
      case Emit(_, st', rest) => DecodeLeavesState(st', rest);
      case _ =>
    }
  }

  /** Between reads: either a body is incomplete, or no header block is. */
  predicate WaitsForMore(r: ParserRun) {
    match r.st
    case WaitingForBody(head) => |r.rest| < head.bodyLength
    case WaitingForHeaders => Find(r.rest, HEADER_TERMINATOR).None?
  }

  /** A chunk meets a buffer that it overfills although the buffer holds no
      complete header block. */
  predicate HeaderlessOverflow(before: ParserRun, chunk: Bytes) {
    && before.end.None?
    && before.st.WaitingForHeaders?
    && Find(before.rest, HEADER_TERMINATOR).None?
    && |before.rest| + |chunk| > 16_777_216
  }

  predicate HeaderlessOverflowAt(chunks: seq<Bytes>, k: nat)
    requires k < |chunks|
  {
    HeaderlessOverflow(DecodeStream(Concat(chunks[..k])), chunks[k])
  }

  lemma TooBigIsHeaderless(before: ParserRun, chunk: Bytes)
    requires before.end.None? ==> WaitsForMore(before)
    requires |chunk| <= SOCKET_BUF_SIZE
    ensures TooBig(MAX_BUFFER_SIZE, before, chunk) <==> HeaderlessOverflow(before, chunk)
  {
  }

  lemma TooBigAtIsHeaderlessAt(chunks: seq<Bytes>, k: nat)
    requires k < |chunks| && |chunks[k]| <= SOCKET_BUF_SIZE && Shrinks(ParseMessage)
    ensures TooBigAt(ParseMessage, MAX_BUFFER_SIZE, START, chunks, k) <==> HeaderlessOverflowAt(chunks, k)
  {
    var data := Concat(chunks[..k]);
    ContinueFromStart(data);
    DecodeLeavesState(WaitingForHeaders, data);
    TooBigIsHeaderless(DecodeStream(data), chunks[k]);
  }

  /** With reads of at most one socket buffer, the size limit strikes exactly
      when almost 16 MiB without a header terminator are waiting; it can never
      strike while a body is awaited. */
  lemma BufferBound(chunks: seq<Bytes>)
    requires forall i | 0 <= i < |chunks| :: |chunks[i]| <= SOCKET_BUF_SIZE
    ensures Overflowed(FeedStream(chunks).run) <==>
      exists k :: 0 <= k < |chunks| && HeaderlessOverflowAt(chunks, k)
  {
    ParserIsIncremental();
    StartIsDrained();
    OverflowExactly(ParseMessage, MAX_BUFFER_SIZE, START, chunks);
    if k :| 0 <= k < |chunks| && HeaderlessOverflowAt(chunks, k) {
      TooBigAtIsHeaderlessAt(chunks, k);
    }
    if k :| 0 <= k < |chunks| && TooBigAt(ParseMessage, MAX_BUFFER_SIZE, START, chunks, k) {
      TooBigAtIsHeaderlessAt(chunks, k);
    }
  }

  /** `raw` is one frame that carries `m`: a header block, its terminator, and
      exactly the body it announces. */
  predicate FrameOf(raw: Bytes, m: Message) {
    match Find(raw, HEADER_TERMINATOR)
    case None => false
    case Some(p) =>
      match ReadHead(raw[..p])
      case Err(_) => false
      case Ok(head) =>
        && |raw| == p + 2 + head.bodyLength
        && m.messageType == head.messageType
        && m.headers == head.headers
        && m.body == (if head.bodyLength > 0 then Some(raw[p + 2..]) else None)
        && Utf8.Valid(raw[p + 2..])
  }

  lemma MakesFrame(raw: Bytes, p: nat, head: Head)
    requires Find(raw, HEADER_TERMINATOR) == Some(p) && ReadHead(raw[..p]) == Ok(head)
    requires 0 < head.bodyLength && |raw| == p + 2 + head.bodyLength && Utf8.Valid(raw[p + 2..])
    ensures FrameOf(raw, Message(head.messageType, head.headers, Some(raw[p + 2..])))
  {
  }

  lemma FrameAfterHead(head: Head, rest: Bytes, m: Message)
    requires head.bodyLength <= MAX_MESSAGE_SIZE
    ensures AfterHead(Ok(head), rest) == Emit(m, WaitingForHeaders, []) <==>
      && |rest| == head.bodyLength
      && m.messageType == head.messageType
      && m.headers == head.headers
      && m.body == (if head.bodyLength > 0 then Some(rest) else None)
      && Utf8.Valid(rest)
  {
    var n := head.bodyLength;
    if 0 < n <= |rest| {
      assert rest[n..] == [] ==> rest[..n] == rest;
    }
  }

  lemma FrameIsFrame(raw: Bytes, m: Message)
    ensures IsFrame(ParseMessage, WaitingForHeaders, raw, m) <==> FrameOf(raw, m)
  {
    match Find(raw, HEADER_TERMINATOR) {
      case None =>
      case Some(p) =>
        var read := ReadHead(raw[..p]);
        ParsedAfterHead(raw, p, read);
        if read.Ok? {
          FrameAfterHead(read.value, raw[p + 2..], m);
        }
    }
  }

  ghost predicate FramesOf(raws: seq<Bytes>, ms: seq<Message>) {
    |raws| == |ms| && forall i | 0 <= i < |ms| :: FrameOf(raws[i], ms[i])
  }

  /** A decomposition of a stream into frames and a rest that begins none. */
  ghost predicate Decomposes(data: Bytes, ms: seq<Message>, raws: seq<Bytes>, tail: Bytes) {
    && data == Concat(raws) + tail
    && FramesOf(raws, ms)
    && !ParseMessage(WaitingForHeaders, tail).Emit?
  }

  /** The decoder finds a decomposition of every stream: no byte is lost,
      invented or read twice. */
  lemma StreamDecomposes(data: Bytes) returns (raws: seq<Bytes>, tail: Bytes)
    ensures Decomposes(data, DecodeStream(data).messages, raws, tail)
  {
    ParserIsIncremental();
    raws, tail := DecodeConserves(ParseMessage, WaitingForHeaders, data);
    var ms := DecodeStream(data).messages;
    forall i | 0 <= i < |ms| ensures FrameOf(raws[i], ms[i]) {
      assert IsFrame(ParseMessage, WaitingForHeaders, raws[i], ms[i]);
      FrameIsFrame(raws[i], ms[i]);
    }
  }

  /** And there is only that one: any decomposition is what the decoder finds. */
  lemma DecompositionIsDecoded(data: Bytes, ms: seq<Message>, raws: seq<Bytes>, tail: Bytes)
    requires Decomposes(data, ms, raws, tail)
    ensures DecodeStream(data) == Prepend(ms, StepRun(ParseMessage(WaitingForHeaders, tail)))
  {
    ParserIsIncremental();
    forall i | 0 <= i < |ms| ensures IsFrame(ParseMessage, WaitingForHeaders, raws[i], ms[i]) {
      FrameIsFrame(raws[i], ms[i]);
    }
    DecodeFrames(ParseMessage, WaitingForHeaders, raws, ms, tail);
  }
}
