/** The plain-text event parser, and how far it inverts the printer. */
module PlainEvents {
  import opened Text
  import opened Headers
  import opened Event
  import Framing
  import Percent
  import Utf8

  datatype EventError = NotAnEvent | MissingBody

  /** `parse_event_type`: the table of event names, left open here. */
  type TypeTable = Bytes -> Option<Bytes>

  /** The text up to the first blank line, and the text after it. */
  function SplitAtBlankLine(text: Bytes): (Bytes, Option<Bytes>) {
    match Find(text, Framing.HEADER_TERMINATOR)
    case None => (text, None)
    case Some(p) => (text[..p], Some(text[p + 2..]))
  }

  /** The event a plain body stands for. */
  function ParseText(types: TypeTable, text: Bytes): EventValue {
    var (block, inner) := SplitAtBlankLine(text);
    var headers := ParseLenient(block);
    EventValue(
      if EVENT_NAME in headers then types(headers[EVENT_NAME]) else None,
      headers,
      if inner.Some? && inner.value != [] then inner else None)
  }

  function ParsePlainEvent(types: TypeTable, m: Framing.Message): Result<EventValue, EventError> {
    if m.messageType != Framing.MessageType.Event then Err(NotAnEvent)
    else if m.body.None? then Err(MissingBody)
    else Ok(ParseText(types, m.body.value))
  }

  /** `parse_plain_event`: the event object is filled line by line. */
  method ParsePlainEventObject(types: TypeTable, m: Framing.Message) returns (r: Result<EslEvent, EventError>)
    ensures match ParsePlainEvent(types, m)
      case Err(e) => r == Err(e)
      case Ok(value) => r.Ok? && fresh(r.value) && r.value.Value() == value
  {
    if m.messageType != Framing.MessageType.Event {
      return Err(NotAnEvent);
    }
    if m.body.None? {
      return Err(MissingBody);
    }
    var event := new EslEvent();
    var (block, inner) := SplitAtBlankLine(m.body.value);
    var lines := Lines(block);
    for i := 0 to |lines|
      invariant fresh(event)
      invariant event.eventType == None && event.body == None
      invariant ParseLenient(block) == Lenient(lines[i..], event.headers)
    {
      match ParseLine(lines[i]) {
        case Some(Pair(key, value)) => event.SetHeader(key, value);
        case _ =>
      }
    }
    if inner.Some? && inner.value != [] {
      event.SetBody(inner.value);
    }
    var name := event.Header(EVENT_NAME);
    if name.Some? {
      event.SetEventType(types(name.value));
    }
    r := Ok(event);
  }

  // ---- Round trip ----

  /** What the Rust types promise about the texts of an event. */
  predicate TextOk(e: EventValue) {
    && (forall k | k in e.headers :: Utf8.Valid(k) && Utf8.Valid(e.headers[k]))
    && (e.body.Some? ==> Utf8.Valid(e.body.value))
  }

  /** Every printed key can be read back. */
  predicate PrintableKeys(e: EventValue) {
    forall k | k in e.headers && k != CONTENT_LENGTH :: CleanKey(k)
  }

  /** An event as it should come back: a stored Content-Length is replaced by
      the length of the body, and the type is the one its name stands for. */
  function Normal(types: TypeTable, e: EventValue): EventValue {
    EventValue(
      if EVENT_NAME in e.headers then types(e.headers[EVENT_NAME]) else None,
      NormalHeaders(e),
      e.body)
  }

  /** A message is refused exactly if it is no event or has no body. */
  lemma EventFailsExactly(types: TypeTable, m: Framing.Message)
    ensures ParsePlainEvent(types, m) == Err(NotAnEvent) <==> !m.messageType.Event?
    ensures ParsePlainEvent(types, m) == Err(MissingBody) <==> m.messageType.Event? && m.body == None
  {
  }

  /** Header by header: every header but the length is kept, the length is that of
      the body and is there exactly if the body is, and the type is that of the
      name. */
  lemma NormalExactly(types: TypeTable, e: EventValue, k: Bytes)
    ensures var n := Normal(types, e);
      && n.body == e.body
      && ("Event-Name" in e.headers ==> n.eventType == types(e.headers["Event-Name"]))
      && ("Event-Name" !in e.headers ==> n.eventType == None)
      && (k != "Content-Length" ==> (k in n.headers <==> k in e.headers))
      && (k != "Content-Length" && k in e.headers ==> n.headers[k] == e.headers[k])
      && ("Content-Length" in n.headers <==> e.body.Some?)
      && (e.body.Some? ==> n.headers["Content-Length"] == Decimal(|e.body.value|))
  {
  }

  lemma AlphanumericIsClean(s: Bytes)
    requires forall i | 0 <= i < |s| :: Percent.Alphanumeric(s[i]) || s[i] == '%'
    ensures CleanRaw(s)
  {
  }

  lemma DecimalEntry(n: nat)
    ensures CleanRaw(Decimal(n)) && Percent.DecodeValue(Decimal(n)) == Decimal(n)
    ensures Utf8.Ascii(Decimal(n))
  {
    AlphanumericIsClean(Decimal(n));
    Percent.DecodeWithoutPercent(Decimal(n));
    Utf8.AsciiIsValid(Decimal(n));
  }

  lemma EncodedEntry(v: Bytes)
    requires Utf8.Valid(v)
    ensures CleanRaw(Percent.Encode(v)) && Percent.DecodeValue(Percent.Encode(v)) == v
  {
    Percent.EncodeShape(v);
    AlphanumericIsClean(Percent.Encode(v));
    Percent.DecodeValueOfEncode(v);
  }

  function NormalHeaders(e: EventValue): HeaderMap {
    e.headers - {CONTENT_LENGTH} +
      (if e.body.Some? then map[CONTENT_LENGTH := Decimal(|e.body.value|)] else map[])
  }

  /** An entry stands for a header of the map, encoded so that it can be read
      back. */
  predicate Faithful(h: HeaderMap, x: Entry) {
    CleanEntry(x) && x.0 in h && Percent.DecodeValue(x.1) == h[x.0]
  }

  lemma StoredEntry(e: EventValue, x: Entry)
    requires TextOk(e) && PrintableKeys(e)
    requires x.0 in e.headers && x.0 != CONTENT_LENGTH && x.1 == Percent.Encode(e.headers[x.0])
    ensures Faithful(NormalHeaders(e), x)
  {
    EncodedEntry(e.headers[x.0]);
  }

  predicate Stored(h: HeaderMap, x: Entry) {
    x.0 in h && x.0 != CONTENT_LENGTH && x.1 == Percent.Encode(h[x.0])
  }

  lemma SortedEntriesStored(h: HeaderMap)
    ensures forall x | x in SortedEntries(h) :: Stored(h, x)
  {
    NamesIn(h);
    var es := SortedEntries(h);
    forall x | x in es ensures Stored(h, x) {
      var i :| 0 <= i < |es| && es[i] == x;
      assert x.0 in OtherNames(h);
    }
  }

  lemma NameEntryStored(h: HeaderMap)
    ensures forall x | x in NameEntry(h) :: Stored(h, x)
  {
  }

  lemma LengthEntryFaithful(e: EventValue, x: Entry)
    requires x in LengthEntry(e.body)
    ensures Faithful(NormalHeaders(e), x)
  {
    DecimalEntry(|e.body.value|);
  }

  lemma PlainEntryKinds(e: EventValue, x: Entry)
    requires x in PlainEntries(e)
    ensures Stored(e.headers, x) || x in LengthEntry(e.body)
  {
    SortedEntriesStored(e.headers);
    NameEntryStored(e.headers);
  }

  lemma PlainEntry(e: EventValue, x: Entry)
    requires TextOk(e) && PrintableKeys(e) && x in PlainEntries(e)
    ensures Faithful(NormalHeaders(e), x)
  {
    PlainEntryKinds(e, x);
    if x in LengthEntry(e.body) {
      LengthEntryFaithful(e, x);
    } else {
      StoredEntry(e, x);
    }
  }

  lemma PlainEntriesCover(e: EventValue, k: Bytes)
    requires k in NormalHeaders(e)
    ensures exists x :: x in PlainEntries(e) && x.0 == k
  {
    NamesIn(e.headers);
    var ks := SortedNames(OtherNames(e.headers));
    if k == EVENT_NAME {
      assert NameEntry(e.headers)[0] in PlainEntries(e);
    } else if k == CONTENT_LENGTH {
      assert LengthEntry(e.body)[0] in PlainEntries(e);
    } else {
      assert k in multiset(ks);
      var i :| 0 <= i < |ks| && ks[i] == k;
      assert SortedEntries(e.headers)[i] in PlainEntries(e);
    }
  }

  lemma EntriesAreSolid(es: seq<Entry>)
    requires forall x | x in es :: CleanEntry(x)
    ensures forall l | l in WriteLines(es) :: SolidLine(l)
  {
    var ls := WriteLines(es);
    forall l | l in ls ensures SolidLine(l) {
      var i :| 0 <= i < |ls| && ls[i] == l;
      assert CleanEntry(es[i]);
      WrittenLineIsPlain(es[i].0, es[i].1);
    }
  }

  lemma EmptyBlock()
    ensures SplitAtBlankLine([LF]) == ([LF], None) && ParseLenient([LF]) == map[]
  {
    var text: Bytes := [LF];
    assert text[..0] == [] && text[1..] == [] && Lines([]) == [];
    assert Lines(text) == [[]];
    var lines: seq<Bytes> := [[]];
    assert ParseLine(lines[0]) == None;
    assert lines[1..] == [];
  }

  /** A text made of clean entries, a blank line and a body is split there. */
  lemma SplitWritten(es: seq<Entry>, body: Bytes)
    requires es != [] && forall x | x in es :: CleanEntry(x)
    ensures SplitAtBlankLine(Unlines(WriteLines(es)) + [LF] + body) == (Block(es), Some(body))
  {
    EntriesAreSolid(es);
    SplitAfterLines(WriteLines(es), body);
  }

  lemma SplitAfterLines(ls: seq<Bytes>, body: Bytes)
    requires ls != [] && forall l | l in ls :: SolidLine(l)
    ensures Unlines(ls) != []
    ensures SplitAtBlankLine(Unlines(ls) + [LF] + body) == (Unlines(ls)[..|Unlines(ls)| - 1], Some(body))
  {
    var u := Unlines(ls);
    BlankLineAfterBlock(ls, body);
    var text := u + [LF] + body;
    FindBlank(text, |u| - 1);
    assert text[..|u| - 1] == u[..|u| - 1];
    assert text[|u| + 1..] == body;
  }

  lemma PlainEntriesCollect(e: EventValue)
    requires TextOk(e) && PrintableKeys(e)
    ensures Collect(PlainEntries(e), map[]) == NormalHeaders(e)
    ensures forall x | x in PlainEntries(e) :: CleanEntry(x)
  {
    var es := PlainEntries(e);
    forall x | x in es ensures Faithful(NormalHeaders(e), x) {
      PlainEntry(e, x);
    }
    forall k | k in NormalHeaders(e) ensures exists x :: x in es && x.0 == k {
      PlainEntriesCover(e, k);
    }
    CollectIs(es, NormalHeaders(e));
  }

  lemma PlainBlock(e: EventValue)
    requires TextOk(e) && PrintableKeys(e)
    ensures var (block, inner) := SplitAtBlankLine(PlainFormat(e));
      && ParseLenient(block) == NormalHeaders(e)
      && (inner == Some(BodyText(e.body)) || (inner.None? && e.body.None?))
  {
    var es := PlainEntries(e);
    PlainEntriesCollect(e);
    if es == [] {
      assert LengthEntry(e.body) == [];
      assert PlainFormat(e) == [LF];
      EmptyBlock();
    } else {
      SplitWritten(es, BodyText(e.body));
      ParseWrittenBlock(es);
    }
  }

  lemma NameIsNormal(e: EventValue)
    ensures EVENT_NAME in e.headers <==> EVENT_NAME in NormalHeaders(e)
    ensures EVENT_NAME in e.headers ==> NormalHeaders(e)[EVENT_NAME] == e.headers[EVENT_NAME]
  {
  }

  /** Printing and parsing gives the normalized event, for every event whose
      keys can be read back. */
  lemma PlainRoundTrip(types: TypeTable, e: EventValue)
    requires TextOk(e) && PrintableKeys(e) && e.body != Some([])
    ensures ParseText(types, PlainFormat(e)) == Normal(types, e)
  {
    PlainBlock(e);
    NameIsNormal(e);
  }

  /** The documented inverse holds exactly for events whose keys can be read
      back and whose body is not an empty text. */
  lemma PlainRoundTripExactly(types: TypeTable, e: EventValue)
    requires TextOk(e)
    ensures ParseText(types, PlainFormat(e)) == Normal(types, e)
      <==> PrintableKeys(e) && e.body != Some([])
  {
    if PrintableKeys(e) && e.body != Some([]) {
      PlainRoundTrip(types, e);
    }
    var parsed := ParseText(types, PlainFormat(e));
    if parsed == Normal(types, e) {
      ParsedKeysClean(SplitAtBlankLine(PlainFormat(e)).0);
      forall k | k in e.headers && k != CONTENT_LENGTH ensures CleanKey(k) {
        assert k in parsed.headers;
      }
    }
  }

  lemma SameEntries(a: HeaderMap, b: HeaderMap, ks: seq<Bytes>)
    requires forall i | 0 <= i < |ks| :: ks[i] in a && ks[i] in b && a[ks[i]] == b[ks[i]]
    ensures Encoded(a, ks) == Encoded(b, ks)
  {
  }

  lemma NormalNames(e: EventValue, h: HeaderMap)
    requires h == NormalHeaders(e)
    ensures OtherNames(h) == OtherNames(e.headers)
    ensures forall k | k in OtherNames(h) :: k in e.headers && k in h && h[k] == e.headers[k]
  {
  }

  lemma SortedEntriesAgree(a: HeaderMap, b: HeaderMap)
    requires OtherNames(a) == OtherNames(b)
    requires forall k | k in OtherNames(a) :: k in a && k in b && a[k] == b[k]
    ensures SortedEntries(a) == SortedEntries(b)
  {
    NamesIn(a);
    SameEntries(a, b, SortedNames(OtherNames(a)));
  }

  /** A normalized event prints as the event it came from. */
  lemma NormalPrintsTheSame(types: TypeTable, e: EventValue)
    ensures PlainFormat(Normal(types, e)) == PlainFormat(e)
  {
    var h := NormalHeaders(e);
    NormalNames(e, h);
    SortedEntriesAgree(h, e.headers);
    NameIsNormal(e);
    assert PlainEntries(Normal(types, e)) == PlainEntries(e);
  }

  /** Printing what was read back gives the identical text. */
  lemma PrintAgain(types: TypeTable, e: EventValue)
    requires TextOk(e) && PrintableKeys(e) && e.body != Some([])
    ensures PlainFormat(ParseText(types, PlainFormat(e))) == PlainFormat(e)
  {
    PlainRoundTrip(types, e);
    NormalPrintsTheSame(types, e);
  }

  /** An event with a header name that contains a colon is not read back. */
  lemma ColonKeyIsLost(types: TypeTable, e: EventValue, k: Bytes)
    requires TextOk(e) && k in e.headers && ':' in k
    ensures ParseText(types, PlainFormat(e)) != Normal(types, e)
  {
    LengthNameHasNoColon();
    PlainRoundTripExactly(types, e);
  }

  lemma LengthNameHasNoColon()
    ensures ':' !in CONTENT_LENGTH
  {
  }

  /** Such as this one. */
  lemma ColonKeyExample(types: TypeTable, e: EventValue)
    requires e == EventValue(None, map[[':'] := []], None)
    ensures TextOk(e) && ParseText(types, PlainFormat(e)) != Normal(types, e)
  {
    Utf8.AsciiIsValid([':']);
    assert e.headers.Keys == {[':']};
    ColonKeyIsLost(types, e, [':']);
  }
}
