/** From a list of events to bytes and back: printing, the outer envelope,
    arbitrary reads, frame decoding and event parsing, composed. */
module EndToEnd {
  import opened Text
  import opened Headers
  import opened Incremental
  import opened Framing
  import opened PlainEvents
  import Event
  import Percent
  import Utf8

  const PLAIN: Bytes := "text/event-plain"

  function EnvelopeEntries(n: nat): seq<Entry> {
    [(CONTENT_LENGTH, Decimal(n)), (CONTENT_TYPE, PLAIN)]
  }

  function EnvelopeHead(n: nat): Bytes {
    Unlines(WriteLines(EnvelopeEntries(n)))
  }

  /** A body in its outer envelope, as the server sends it. */
  function Envelope(body: Bytes): Bytes {
    EnvelopeHead(|body|) + [LF] + body
  }

  function EnvelopeMessage(body: Bytes): Message {
    Message(MessageType.Event, EnvelopeHeaders(|body|), Some(body))
  }

  lemma PlainIsClean()
    ensures CleanRaw(PLAIN) && Utf8.Ascii(PLAIN) && '%' !in PLAIN
  {
  }

  lemma KeysAreClean()
    ensures CleanKey(CONTENT_LENGTH) && Utf8.Ascii(CONTENT_LENGTH)
    ensures CleanKey(CONTENT_TYPE) && Utf8.Ascii(CONTENT_TYPE)
    ensures CONTENT_LENGTH != CONTENT_TYPE
  {
    assert CONTENT_LENGTH[8] != CONTENT_TYPE[8];
  }

  lemma EnvelopeEntry(n: nat, x: Entry)
    requires x in EnvelopeEntries(n)
    ensures CleanEntry(x) && Utf8.Ascii(x.0) && Utf8.Ascii(x.1) && Percent.DecodeValue(x.1) == x.1
  {
    KeysAreClean();
    PlainIsClean();
    DecimalEntry(n);
    if x.1 == PLAIN {
      Percent.DecodeValueWithoutPercent(x.1);
    }
  }

  function EnvelopeHeaders(n: nat): HeaderMap {
    map[CONTENT_LENGTH := Decimal(n), CONTENT_TYPE := PLAIN]
  }

  lemma EnvelopeCollects(n: nat)
    ensures Collect(EnvelopeEntries(n), map[]) == EnvelopeHeaders(n)
  {
    var es := EnvelopeEntries(n);
    var x, y := es[0], es[1];
    EnvelopeEntry(n, x);
    EnvelopeEntry(n, y);
    assert es[1..] == [y] && es[1..][1..] == [];
    assert Collect(es, map[]) == Collect([y], map[x.0 := x.1]) == map[x.0 := x.1][y.0 := y.1];
  }

  // ---- UTF-8 is preserved ----

  lemma LineIsValid(x: Entry)
    requires Utf8.Valid(x.0) && Utf8.Ascii(x.1)
    ensures Utf8.Valid(WriteLine(x.0, x.1) + [LF])
  {
    var t := ": " + x.1 + [LF];
    Utf8.AsciiIsValid(t);
    Utf8.ValidConcat(x.0, t);
    assert WriteLine(x.0, x.1) + [LF] == x.0 + t;
  }

  lemma {:induction false} BlockIsValid(es: seq<Entry>)
    requires forall x | x in es :: Utf8.Valid(x.0) && Utf8.Ascii(x.1)
    ensures Utf8.Valid(Unlines(WriteLines(es)))
  {
    if es != [] {
      assert es[0] in es;
      LineIsValid(es[0]);
      BlockIsValid(es[1..]);
      assert WriteLines(es)[1..] == WriteLines(es[1..]);
      Utf8.ValidConcat(WriteLine(es[0].0, es[0].1) + [LF], Unlines(WriteLines(es[1..])));
    }
  }

  lemma {:induction false} EncodeIsAscii(v: Bytes)
    ensures Utf8.Ascii(Percent.Encode(v))
  {
    Percent.EncodeShape(v);
  }

  lemma StoredEntryIsValid(k: Bytes, v: Bytes, raw: Bytes)
    requires Utf8.Valid(k) && raw == Percent.Encode(v)
    ensures Utf8.Valid(k) && Utf8.Ascii(raw)
  {
    EncodeIsAscii(v);
  }

  lemma LengthEntryIsValid(n: nat, x: Entry)
    requires x == (CONTENT_LENGTH, Decimal(n))
    ensures Utf8.Valid(x.0) && Utf8.Ascii(x.1)
  {
    KeysAreClean();
    Utf8.AsciiIsValid(CONTENT_LENGTH);
    DecimalEntry(n);
  }

  lemma PlainEntryIsValid(e: Event.EventValue, x: Entry)
    requires TextOk(e) && x in Event.PlainEntries(e)
    ensures Utf8.Valid(x.0) && Utf8.Ascii(x.1)
  {
    PlainEntryKinds(e, x);
    if Stored(e.headers, x) {
      StoredEntryIsValid(x.0, e.headers[x.0], x.1);
    } else {
      LengthEntryIsValid(|e.body.value|, x);
    }
  }

  /** The printed form of an event is well-formed UTF-8. */
  lemma PlainFormatIsValid(e: Event.EventValue)
    requires TextOk(e)
    ensures Utf8.Valid(Event.PlainFormat(e)) && Event.PlainFormat(e) != []
  {
    var es := Event.PlainEntries(e);
    forall x | x in es ensures Utf8.Valid(x.0) && Utf8.Ascii(x.1) {
      PlainEntryIsValid(e, x);
    }
    BlockIsValid(es);
    var u := Unlines(WriteLines(es));
    Utf8.AsciiIsValid([LF]);
    Utf8.ValidConcat(u, [LF]);
    Utf8.ValidConcat(u + [LF], Event.BodyText(e.body));
  }

  // ---- The envelope is a frame ----

  /** The header block of an envelope, as the frame parser cuts it out. */
  function HeadBlock(n: nat): Bytes {
    Block(EnvelopeEntries(n))
  }

  lemma HeadIsBlock(n: nat)
    ensures EnvelopeHead(n) == HeadBlock(n) + [LF]
  {
    UnlinesEndsInLf(WriteLines(EnvelopeEntries(n)));
  }

  lemma EnvelopeReads(n: nat)
    ensures ParseStrict(HeadBlock(n)) == Ok(EnvelopeHeaders(n))
  {
    forall x | x in EnvelopeEntries(n) ensures CleanEntry(x) {
      EnvelopeEntry(n, x);
    }
    ParseWrittenBlock(EnvelopeEntries(n));
    EnvelopeCollects(n);
  }

  lemma EnvelopeIsAscii(n: nat)
    ensures Utf8.Ascii(Unlines(WriteLines(EnvelopeEntries(n))))
  {
    forall x | x in EnvelopeEntries(n) ensures Utf8.Ascii(x.0) && Utf8.Ascii(x.1) {
      EnvelopeEntry(n, x);
    }
    AsciiBlock(EnvelopeEntries(n));
  }

  lemma WithoutLastIsAscii(u: Bytes)
    requires u != [] && Utf8.Ascii(u)
    ensures Utf8.Valid(u[..|u| - 1])
  {
    Utf8.AsciiIsValid(u[..|u| - 1]);
  }

  lemma EnvelopeBlock(n: nat)
    ensures Utf8.Valid(HeadBlock(n)) && ParseStrict(HeadBlock(n)) == Ok(EnvelopeHeaders(n))
  {
    EnvelopeReads(n);
    EnvelopeIsAscii(n);
    UnlinesEndsInLf(WriteLines(EnvelopeEntries(n)));
    WithoutLastIsAscii(Unlines(WriteLines(EnvelopeEntries(n))));
  }

  lemma {:induction false} AsciiBlock(es: seq<Entry>)
    requires forall x | x in es :: Utf8.Ascii(x.0) && Utf8.Ascii(x.1)
    ensures Utf8.Ascii(Unlines(WriteLines(es)))
  {
    if es != [] {
      assert es[0] in es;
      AsciiBlock(es[1..]);
      assert WriteLines(es)[1..] == WriteLines(es[1..]);
    }
  }

  lemma EnvelopeBlank(body: Bytes)
    ensures var u := EnvelopeHead(|body|);
      u != [] && FirstBlank(Envelope(body), |u| - 1)
  {
    var es := EnvelopeEntries(|body|);
    forall x | x in es ensures CleanEntry(x) {
      EnvelopeEntry(|body|, x);
    }
    EntriesAreSolid(es);
    BlankLineAfterBlock(WriteLines(es), body);
  }

  lemma EnvelopeParts(body: Bytes, h: Bytes)
    requires h == HeadBlock(|body|)
    ensures Find(Envelope(body), HEADER_TERMINATOR) == Some(|h|)
    ensures |Envelope(body)| == |h| + 2 + |body|
    ensures Envelope(body)[..|h|] == h && Envelope(body)[|h| + 2..] == body
  {
    EnvelopeBlank(body);
    HeadIsBlock(|body|);
    FindBlank(Envelope(body), |h|);
    BlockSlices(Envelope(body), h, body);
  }

  lemma BlockSlices(text: Bytes, h: Bytes, body: Bytes)
    requires text == h + [LF] + [LF] + body
    ensures |text| == |h| + 2 + |body| && text[..|h|] == h && text[|h| + 2..] == body
  {
  }

  lemma LengthIsRead(n: nat)
    requires n <= MAX_MESSAGE_SIZE
    ensures ParseUnsigned(Trim(Decimal(n)), USIZE_MAX) == Some(n)
  {
    DecimalEntry(n);
    TrimFixed(Decimal(n));
    ParseOfDecimal(n, USIZE_MAX);
  }

  lemma PlainIsEvent()
    ensures FromContentType(PLAIN) == MessageType.Event
  {
  }

  lemma EnvelopeLookup(n: nat)
    ensures CONTENT_LENGTH in EnvelopeHeaders(n) && EnvelopeHeaders(n)[CONTENT_LENGTH] == Decimal(n)
    ensures CONTENT_TYPE in EnvelopeHeaders(n) && EnvelopeHeaders(n)[CONTENT_TYPE] == PLAIN
  {
    KeysAreClean();
  }

  lemma EnvelopeReadHead(block: Bytes, n: nat)
    requires Utf8.Valid(block) && ParseStrict(block) == Ok(EnvelopeHeaders(n)) && n <= MAX_MESSAGE_SIZE
    ensures ReadHead(block) == Ok(Head(MessageType.Event, EnvelopeHeaders(n), n))
  {
    EnvelopeLookup(n);
    LengthIsRead(n);
    PlainIsEvent();
    ReadsHead(block, EnvelopeHeaders(n), n);
  }

  lemma BlockThenBody(raw: Bytes, p: nat, block: Bytes, body: Bytes)
    requires Find(raw, HEADER_TERMINATOR) == Some(p) && p + 2 <= |raw|
    requires raw[..p] == block && raw[p + 2..] == body
    requires Utf8.Valid(block) && ParseStrict(block) == Ok(EnvelopeHeaders(|body|))
    requires Utf8.Valid(body) && 0 < |body| <= MAX_MESSAGE_SIZE
    ensures FrameOf(raw, EnvelopeMessage(body))
  {
    EnvelopeReadHead(raw[..p], |body|);
    MakesFrame(raw, p, Head(MessageType.Event, EnvelopeHeaders(|body|), |body|));
  }

  /** An enveloped body is one frame, which carries that body. */
  lemma EnvelopeIsFrame(body: Bytes)
    requires Utf8.Valid(body) && 0 < |body| <= MAX_MESSAGE_SIZE
    ensures FrameOf(Envelope(body), EnvelopeMessage(body))
  {
    var h := HeadBlock(|body|);
    EnvelopeParts(body, h);
    EnvelopeBlock(|body|);
    BlockThenBody(Envelope(body), |h|, h, body);
  }

  // ---- Streams of enveloped bodies ----

  function Envelopes(bodies: seq<Bytes>): (raws: seq<Bytes>)
    ensures |raws| == |bodies| && forall i | 0 <= i < |bodies| :: raws[i] == Envelope(bodies[i])
  {
    seq(|bodies|, i requires 0 <= i < |bodies| => Envelope(bodies[i]))
  }

  function Messages(bodies: seq<Bytes>): (ms: seq<Message>)
    ensures |ms| == |bodies| && forall i | 0 <= i < |bodies| :: ms[i] == EnvelopeMessage(bodies[i])
  {
    seq(|bodies|, i requires 0 <= i < |bodies| => EnvelopeMessage(bodies[i]))
  }

  function Stream(bodies: seq<Bytes>): Bytes {
    Concat(Envelopes(bodies))
  }

  predicate Sendable(body: Bytes) {
    Utf8.Valid(body) && 0 < |body| <= MAX_MESSAGE_SIZE
  }

  lemma StreamDecodes(bodies: seq<Bytes>)
    requires forall b | b in bodies :: Sendable(b)
    ensures DecodeStream(Stream(bodies)) == Run(Messages(bodies), None, WaitingForHeaders, [])
  {
    var raws, ms := Envelopes(bodies), Messages(bodies);
    forall i | 0 <= i < |ms| ensures FrameOf(raws[i], ms[i]) {
      assert Sendable(bodies[i]) by { assert bodies[i] in bodies; }
      EnvelopeIsFrame(bodies[i]);
    }
    assert Stream(bodies) == Concat(raws) + [];
    NothingIsPending();
    DecompositionIsDecoded(Stream(bodies), ms, raws, []);
    assert ms + [] == ms;
  }

  lemma NothingIsPending()
    ensures ParseMessage(WaitingForHeaders, []) == Pending(WaitingForHeaders, [])
  {
    assert Find([], HEADER_TERMINATOR).None?;
  }

  lemma {:induction false} DecimalLength(n: nat)
    ensures |Decimal(n)| <= n + 1
  {
    if n >= 10 {
      DecimalLength(n / 10);
    }
  }

  lemma HeadLength(n: nat)
    ensures |EnvelopeHead(n)| <= n + 80
  {
    DecimalLength(n);
    var es := EnvelopeEntries(n);
    var l0, l1 := WriteLine(es[0].0, es[0].1), WriteLine(es[1].0, es[1].1);
    assert WriteLines(es) == [l0, l1];
    assert Unlines([l0, l1]) == l0 + [LF] + Unlines([l1]);
    assert Unlines([l1]) == l1 + [LF] + Unlines([]);
  }

  /** What is buffered while headers are awaited stays small. */
  predicate SmallWait(r: ParserRun) {
    r.end.None? && (r.st.WaitingForHeaders? ==> |r.rest| <= MAX_MESSAGE_SIZE + 80)
  }

  lemma CutEnvelopePends(body: Bytes, p: Bytes, q: Bytes)
    requires Sendable(body) && Envelope(body) == p + q && q != []
    ensures ParseMessage(WaitingForHeaders, p).Pending?
  {
    EnvelopeIsFrame(body);
    FrameIsFrame(p + q, EnvelopeMessage(body));
    ParserIsIncremental();
    CutFramePends(ParseMessage, WaitingForHeaders, p, q, EnvelopeMessage(body));
  }

  lemma CutEnvelopeHead(body: Bytes, p: Bytes, q: Bytes)
    requires Envelope(body) == p + q
    ensures Find(p, HEADER_TERMINATOR).None? ==> |p| <= |body| + 80
  {
    HeadLength(|body|);
    EnvelopeBlank(body);
    BlankIsSeen(p, q, |EnvelopeHead(|body|)| - 1);
  }

  lemma PendingForHeaders(p: Bytes)
    requires ParseMessage(WaitingForHeaders, p).Pending?
    requires ParseMessage(WaitingForHeaders, p).st.WaitingForHeaders?
    ensures Find(p, HEADER_TERMINATOR).None? && ParseMessage(WaitingForHeaders, p).rest == p
  {
  }

  lemma BlankIsSeen(p: Bytes, q: Bytes, i: nat)
    requires BlankAt(p + q, i)
    ensures i + 2 <= |p| ==> Find(p, HEADER_TERMINATOR).Some?
  {
    if i + 2 <= |p| {
      assert p[i] == (p + q)[i] && p[i + 1] == (p + q)[i + 1];
      assert p[i..i + 2] == [LF, LF];
      assert IsAt(p, HEADER_TERMINATOR, i);
    }
  }

  lemma DecodeCutFrame(body: Bytes, p: Bytes, q: Bytes)
    requires Sendable(body) && Envelope(body) == p + q && q != []
    ensures SmallWait(DecodeStream(p))
  {
    ParserIsIncremental();
    CutEnvelopePends(body, p, q);
    CutEnvelopeHead(body, p, q);
    if ParseMessage(WaitingForHeaders, p).st.WaitingForHeaders? {
      PendingForHeaders(p);
    }
  }

  /** However much of a stream has arrived, decoding it has not failed, and what
      is left over is small unless a body is awaited. */
  lemma {:induction false} PrefixWaits(bodies: seq<Bytes>, p: Bytes)
    requires forall b | b in bodies :: Sendable(b)
    requires p <= Stream(bodies)
    ensures SmallWait(DecodeStream(p))
    decreases |bodies|
  {
    if bodies == [] {
      NothingIsPending();
      ParserIsIncremental();
    } else {
      var f, rest := Envelope(bodies[0]), bodies[1..];
      assert Sendable(bodies[0]) by { assert bodies[0] in bodies; }
      assert Envelopes(bodies)[1..] == Envelopes(rest);
      assert Stream(bodies) == f + Stream(rest);
      if |p| < |f| {
        assert f == p + f[|p|..];
        DecodeCutFrame(bodies[0], p, f[|p|..]);
      } else {
        var p' := p[|f|..];
        assert p == f + p' && p' <= Stream(rest) by { PrefixSplit(f, Stream(rest), p); }
        PrefixWaits(rest, p');
        EnvelopeIsFrame(bodies[0]);
        OneFrameMore(f, EnvelopeMessage(bodies[0]), p');
      }
    }
  }

  lemma PrefixSplit(a: Bytes, b: Bytes, p: Bytes)
    requires p <= a + b && |a| <= |p|
    ensures p == a + p[|a|..] && p[|a|..] <= b
  {
    assert p == (a + b)[..|p|];
  }

  lemma OneFrameMore(f: Bytes, m: Message, more: Bytes)
    requires FrameOf(f, m)
    ensures DecodeStream(f + more) == Prepend([m], DecodeStream(more))
  {
    ParserIsIncremental();
    FrameIsFrame(f, m);
    DecodeOneFrame(ParseMessage, WaitingForHeaders, f, m, more);
  }

  lemma {:induction false} ConcatPrefix(chunks: seq<Bytes>, k: nat)
    requires k <= |chunks|
    ensures Concat(chunks[..k]) <= Concat(chunks)
  {
    assert chunks == chunks[..k] + chunks[k..];
    ConcatAppend(chunks[..k], chunks[k..]);
  }

  /** Reads of a stream of enveloped bodies never overflow the buffer. */
  lemma StreamNeverOverflows(bodies: seq<Bytes>, chunks: seq<Bytes>)
    requires forall b | b in bodies :: Sendable(b)
    requires Concat(chunks) == Stream(bodies)
    requires forall i | 0 <= i < |chunks| :: |chunks[i]| <= SOCKET_BUF_SIZE
    ensures !Overflowed(FeedStream(chunks).run)
  {
    BufferBound(chunks);
    forall k | 0 <= k < |chunks| ensures !HeaderlessOverflowAt(chunks, k) {
      ConcatPrefix(chunks, k);
      PrefixWaits(bodies, Concat(chunks[..k]));
    }
  }

  /** Reads of a stream of enveloped bodies give one message for each, and leave
      nothing over, wherever the reads cut the stream. */
  lemma FeedStreamOfBodies(bodies: seq<Bytes>, chunks: seq<Bytes>)
    requires forall b | b in bodies :: Sendable(b)
    requires Concat(chunks) == Stream(bodies)
    requires forall i | 0 <= i < |chunks| :: |chunks[i]| <= SOCKET_BUF_SIZE
    ensures FeedStream(chunks) == Feeding(Run(Messages(bodies), None, WaitingForHeaders, []), [])
  {
    StreamNeverOverflows(bodies, chunks);
    ChunkingIndependence(chunks);
    StreamDecodes(bodies);
  }

  // ---- Events ----

  /** The event can be sent in one envelope and read back. */
  ghost predicate Transmissible(e: Event.EventValue) {
    && TextOk(e) && PrintableKeys(e) && e.body != Some([])
    && |Event.PlainFormat(e)| <= MAX_MESSAGE_SIZE
  }

  ghost function PlainBodies(events: seq<Event.EventValue>): (bodies: seq<Bytes>)
    ensures |bodies| == |events| && forall i | 0 <= i < |events| :: bodies[i] == Event.PlainFormat(events[i])
  {
    seq(|events|, i requires 0 <= i < |events| => Event.PlainFormat(events[i]))
  }

  lemma BodiesAreSendable(events: seq<Event.EventValue>)
    requires forall i | 0 <= i < |events| :: Transmissible(events[i])
    ensures forall b | b in PlainBodies(events) :: Sendable(b)
  {
    var bodies := PlainBodies(events);
    forall b | b in bodies ensures Sendable(b) {
      var i :| 0 <= i < |bodies| && bodies[i] == b;
      PlainFormatIsValid(events[i]);
    }
  }

  lemma MessagesParse(types: TypeTable, events: seq<Event.EventValue>, i: nat)
    requires i < |events| && Transmissible(events[i])
    ensures ParsePlainEvent(types, Messages(PlainBodies(events))[i]) == Ok(Normal(types, events[i]))
  {
    PlainRoundTrip(types, events[i]);
  }

  /** Any list of events, printed, enveloped, sent as one stream, cut into reads
      anywhere, decoded and parsed, comes back in order and complete. */
  lemma EventsArrive(types: TypeTable, events: seq<Event.EventValue>, chunks: seq<Bytes>)
    requires forall i | 0 <= i < |events| :: Transmissible(events[i])
    requires Concat(chunks) == Stream(PlainBodies(events))
    requires forall i | 0 <= i < |chunks| :: |chunks[i]| <= SOCKET_BUF_SIZE
    ensures var run := FeedStream(chunks).run;
      && run.end.None? && run.rest == [] && |run.messages| == |events|
      && forall i | 0 <= i < |events| ::
        ParsePlainEvent(types, run.messages[i]) == Ok(Normal(types, events[i]))
  {
    var bodies := PlainBodies(events);
    BodiesAreSendable(events);
    FeedStreamOfBodies(bodies, chunks);
    forall i | 0 <= i < |events|
      ensures ParsePlainEvent(types, Messages(bodies)[i]) == Ok(Normal(types, events[i]))
    {
      MessagesParse(types, events, i);
    }
  }
}
