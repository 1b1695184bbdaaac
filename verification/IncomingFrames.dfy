/** What the bytes of a frame decode to, from the header lines as they are
    written: which message, with which body, or which failure. */
module IncomingFrames {
  import opened Text
  import opened Headers
  import opened Incremental
  import opened Framing
  import Percent
  import Utf8

  const BLANK_LINE: Bytes := "\n\n"

  // ---- What a list of entries says ----

  predicate Clean(es: seq<Entry>) {
    es != [] && forall e | e in es :: CleanEntry(e)
  }

  predicate Omits(es: seq<Entry>, key: Bytes) {
    forall i | 0 <= i < |es| :: es[i].0 != key
  }

  /** The last entry under the key, as it is written. */
  predicate SaysAt(es: seq<Entry>, key: Bytes, raw: Bytes, i: nat) {
    && i < |es| && es[i] == (key, raw)
    && forall j | i < j < |es| :: es[j].0 != key
  }

  predicate Says(es: seq<Entry>, key: Bytes, raw: Bytes) {
    exists i | 0 <= i < |es| :: SaysAt(es, key, raw, i)
  }

  lemma {:induction false} CollectKeeps(es: seq<Entry>, sofar: HeaderMap, key: Bytes)
    requires Omits(es, key)
    ensures key in Collect(es, sofar) <==> key in sofar
    ensures key in sofar ==> Collect(es, sofar)[key] == sofar[key]
    decreases |es|
  {
    if es != [] {
      CollectKeeps(es[1..], sofar[es[0].0 := Percent.DecodeValue(es[0].1)], key);
    }
  }

  lemma {:induction false} CollectSays(es: seq<Entry>, sofar: HeaderMap, key: Bytes, raw: Bytes, i: nat)
    requires SaysAt(es, key, raw, i)
    ensures key in Collect(es, sofar) && Collect(es, sofar)[key] == Percent.DecodeValue(raw)
    decreases |es|
  {
    var after := sofar[es[0].0 := Percent.DecodeValue(es[0].1)];
    if i == 0 {
      CollectKeeps(es[1..], after, key);
    } else {
      assert es[1..][i - 1] == es[i];
      CollectSays(es[1..], after, key, raw, i - 1);
    }
  }

  /** The decoded map has a header exactly if the entries do, with the value of the
      last one. */
  lemma HeaderIsSaid(es: seq<Entry>, key: Bytes, raw: Bytes)
    ensures Omits(es, key) ==> key !in Collect(es, map[])
    ensures Says(es, key, raw) ==> key in Collect(es, map[]) && Collect(es, map[])[key] == Percent.DecodeValue(raw)
  {
    if Omits(es, key) {
      CollectKeeps(es, map[], key);
    }
    if i :| 0 <= i < |es| && SaysAt(es, key, raw, i) {
      CollectSays(es, map[], key, raw, i);
    }
  }

  // ---- The bytes of a frame ----

  /** Header lines, a blank line, and what follows. */
  function Wire(es: seq<Entry>, rest: Bytes): Bytes
    requires es != []
  {
    Block(es) + BLANK_LINE + rest
  }

  lemma WireSlices(u: Bytes, rest: Bytes)
    requires u != [] && u[|u| - 1] == LF
    ensures var text := u[..|u| - 1] + BLANK_LINE + rest;
      && text == u + [LF] + rest
      && text[..|u| - 1] == u[..|u| - 1] && text[|u| + 1..] == rest
  {
    assert u == u[..|u| - 1] + [LF];
  }

  lemma WireIsCut(es: seq<Entry>, rest: Bytes)
    requires Clean(es)
    ensures Find(Wire(es, rest), BLANK_LINE) == Some(|Block(es)|)
    ensures Wire(es, rest)[..|Block(es)|] == Block(es) && Wire(es, rest)[|Block(es)| + 2..] == rest
  {
    var ls := WriteLines(es);
    WrittenLinesArePlain(es);
    assert forall l | l in ls :: SolidLine(l);
    UnlinesEndsInLf(ls);
    WireSlices(Unlines(ls), rest);
    BlankLineAfterBlock(ls, rest);
    assert BLANK_LINE == [LF, LF];
    FindBlank(Wire(es, rest), |Block(es)|);
  }

  /** Written entries are read as their map. */
  lemma WireIsRead(es: seq<Entry>, rest: Bytes)
    requires Clean(es)
    ensures ParseMessage(WaitingForHeaders, Wire(es, rest)) == AfterHead(ReadHead(Block(es)), rest)
    ensures ParseStrict(Block(es)) == Ok(Collect(es, map[]))
  {
    WireIsCut(es, rest);
    ParseWrittenBlock(es);
    ParsedAfterHead(Wire(es, rest), |Block(es)|, ReadHead(Block(es)));
  }

  // ---- Messages ----

  /** The message types by their literal names. */
  lemma MessageTypesExactly(text: Bytes)
    ensures FromContentType(text) == CommandReply <==> text == "command/reply"
    ensures FromContentType(text) == ApiResponse <==> text == "api/response"
    ensures FromContentType(text) == AuthRequest <==> text == "auth/request"
    ensures FromContentType(text) == Disconnect <==> text == "text/disconnect-notice"
    ensures FromContentType(text) == MessageType.Event <==>
      text in ["text/event-plain", "text/event-json", "text/event-xml", "log/data"]
    ensures FromContentType(text).Unknown? ==> FromContentType(text).text == text
  {
  }

  /** Header lines with a content type. */
  predicate Typed(es: seq<Entry>, contentType: Bytes) {
    Clean(es) && Utf8.Valid(Block(es)) && Says(es, "Content-Type", contentType)
  }

  function TypeOf(contentType: Bytes): MessageType {
    FromContentType(Percent.DecodeValue(contentType))
  }

  /** Without a length there is no body: the message is complete at the blank line,
      and what follows is left for the next one. */
  lemma NoLengthNoBody(es: seq<Entry>, contentType: Bytes, rest: Bytes)
    requires Typed(es, contentType) && Omits(es, "Content-Length")
    ensures ParseMessage(WaitingForHeaders, Wire(es, rest)) ==
      Emit(Message(TypeOf(contentType), Collect(es, map[]), None), WaitingForHeaders, rest)
  {
    WireIsRead(es, rest);
    HeaderIsSaid(es, "Content-Type", contentType);
    HeaderIsSaid(es, "Content-Length", []);
  }

  // ---- A command reply, byte by byte ----

  function ReplyEntries(reply: Bytes): seq<Entry> {
    [("Content-Type", "command/reply"), ("Reply-Text", reply)]
  }

  lemma ReplyKeys()
    ensures CleanKey("Content-Type") && CleanKey("Reply-Text")
    ensures "Content-Type" != "Reply-Text" && "Content-Length" != "Content-Type" && "Content-Length" != "Reply-Text"
  {
    assert |"Content-Type"| < |"Content-Length"| && "Content-Length"[0] != "Reply-Text"[0];
  }

  lemma ReplyType()
    ensures CleanRaw("command/reply") && '%' !in "command/reply"
  {
  }

  lemma ReplyAscii(reply: Bytes)
    requires Utf8.Ascii(reply)
    ensures Utf8.Ascii("Content-Type: command/reply" + [LF] + ("Reply-Text: " + reply))
  {
    AsciiConcat("Reply-Text: ", reply);
    AsciiConcat("Content-Type: command/reply" + [LF], "Reply-Text: " + reply);
  }

  lemma AsciiConcat(a: Bytes, b: Bytes)
    requires Utf8.Ascii(a) && Utf8.Ascii(b)
    ensures Utf8.Ascii(a + b)
  {
  }

  lemma ReplyBlock(reply: Bytes)
    ensures Block(ReplyEntries(reply)) == "Content-Type: command/reply" + [LF] + ("Reply-Text: " + reply)
  {
    var es := ReplyEntries(reply);
    var a, b := WriteLine("Content-Type", "command/reply"), WriteLine("Reply-Text", reply);
    assert a == "Content-Type: command/reply";
    assert WriteLines(es) == [a, b];
    assert Unlines([a, b]) == a + [LF] + Unlines([b]) by { assert [a, b][1..] == [b]; }
    assert Unlines([b]) == b + [LF] by { assert [b][1..] == []; }
    assert (a + [LF] + (b + [LF]))[..|a| + 1 + |b|] == a + [LF] + b;
  }

  lemma ReplyIsClean(reply: Bytes)
    requires CleanRaw(reply) && Utf8.Ascii(reply)
    ensures Typed(ReplyEntries(reply), "command/reply") && Omits(ReplyEntries(reply), "Content-Length")
  {
    ReplyKeys();
    ReplyType();
    ReplyBlock(reply);
    ReplyAscii(reply);
    Utf8.AsciiIsValid(Block(ReplyEntries(reply)));
    assert SaysAt(ReplyEntries(reply), "Content-Type", "command/reply", 0);
  }

  lemma CollectTwo(a: Entry, b: Entry)
    requires a.0 != b.0 && Percent.DecodeValue(a.1) == a.1 && Percent.DecodeValue(b.1) == b.1
    ensures Collect([a, b], map[]) == map[a.0 := a.1, b.0 := b.1]
  {
    assert [a, b][1..] == [b] && [b][1..] == [];
    assert Collect([b], map[a.0 := a.1]) == map[a.0 := a.1][b.0 := b.1];
  }

  /** An ordinary command reply has no length: it is complete at its blank line. */
  lemma CommandReplyArrives(reply: Bytes, text: Bytes, rest: Bytes)
    requires CleanRaw(reply) && Utf8.Ascii(reply) && '%' !in reply
    requires text == "Content-Type: command/reply" + [LF] + ("Reply-Text: " + reply) + "\n\n" + rest
    ensures ParseMessage(WaitingForHeaders, text) ==
      Emit(Message(CommandReply, map["Content-Type" := "command/reply", "Reply-Text" := reply], None),
           WaitingForHeaders, rest)
  {
    ReplyBlock(reply);
    ReplyIsClean(reply);
    NoLengthNoBody(ReplyEntries(reply), "command/reply", rest);
    ReplyKeys();
    ReplyType();
    Percent.DecodeValueWithoutPercent(reply);
    Percent.DecodeValueWithoutPercent("command/reply");
    CollectTwo(("Content-Type", "command/reply"), ("Reply-Text", reply));
    MessageTypesExactly("command/reply");
  }

  // ---- Messages with a length ----

  /** The length is stated by a numeral of the canonical form. */
  predicate Announces(es: seq<Entry>, n: nat) {
    Says(es, "Content-Length", Decimal(n))
  }

  lemma AnnouncedLength(es: seq<Entry>, n: nat)
    requires Announces(es, n)
    ensures "Content-Length" in Collect(es, map[])
    ensures var v := Collect(es, map[])["Content-Length"]; Trim(v) == v == Decimal(n)
    ensures ParseUnsigned(Decimal(n), USIZE_MAX) == if n <= USIZE_MAX then Some(n) else None
  {
    HeaderIsSaid(es, "Content-Length", Decimal(n));
    NumeralIsPlain(Decimal(n));
    DigitsValueOfDecimal(n);
  }

  lemma NumeralIsPlain(d: Bytes)
    requires d != [] && forall i | 0 <= i < |d| :: IsDigit(d[i])
    ensures Percent.DecodeValue(d) == d && Trim(d) == d && d[0] != '+'
  {
    Percent.DecodeValueWithoutPercent(d);
    TrimFixed(d);
  }

  lemma AnnouncedHead(es: seq<Entry>, contentType: Bytes, n: nat)
    requires Typed(es, contentType) && Announces(es, n) && n <= MAX_MESSAGE_SIZE
    requires ParseStrict(Block(es)) == Ok(Collect(es, map[]))
    ensures ReadHead(Block(es)) == Ok(Head(TypeOf(contentType), Collect(es, map[]), n))
  {
    HeaderIsSaid(es, "Content-Type", contentType);
    AnnouncedLength(es, n);
    ReadsHead(Block(es), Collect(es, map[]), n);
  }

  /** With a length of at most 8 MiB, the next so many bytes are the body: it is
      awaited, read, or refused when it is not UTF-8; a length of zero means no
      body. */
  lemma LengthSaysBody(es: seq<Entry>, contentType: Bytes, n: nat, rest: Bytes)
    requires Typed(es, contentType) && Announces(es, n) && n <= 8_388_608
    ensures var step := ParseMessage(WaitingForHeaders, Wire(es, rest));
      var headers := Collect(es, map[]);
      && (n == 0 ==> step == Emit(Message(TypeOf(contentType), headers, None), WaitingForHeaders, rest))
      && (n > |rest| ==> step.Pending? && step.st.WaitingForBody? && step.rest == rest)
      && (0 < n <= |rest| && Utf8.Valid(rest[..n]) ==>
            step == Emit(Message(TypeOf(contentType), headers, Some(rest[..n])), WaitingForHeaders, rest[n..]))
      && (0 < n <= |rest| && !Utf8.Valid(rest[..n]) ==>
            step.Failed? && step.error == BodyNotUtf8 && step.st.WaitingForBody? && step.rest == rest[n..])
  {
    WireIsRead(es, rest);
    AnnouncedHead(es, contentType, n);
  }

  // ---- Failures ----

  lemma RefusedHead(block: Bytes, headers: HeaderMap, v: Bytes)
    requires Utf8.Valid(block) && ParseStrict(block) == Ok(headers) && CONTENT_TYPE in headers
    requires CONTENT_LENGTH in headers && headers[CONTENT_LENGTH] == v && Trim(v) == v
    requires ParseUnsigned(v, USIZE_MAX).Some? ==> ParseUnsigned(v, USIZE_MAX).value > MAX_MESSAGE_SIZE
    ensures ReadHead(block) ==
      match ParseUnsigned(v, USIZE_MAX)
      case None => Err(InvalidLength(v))
      case Some(n) => Err(TooLarge(n))
  {
  }

  /** A block without a content type fails. */
  lemma NoTypeFails(es: seq<Entry>, rest: Bytes)
    requires Clean(es) && Utf8.Valid(Block(es)) && Omits(es, "Content-Type")
    ensures ParseMessage(WaitingForHeaders, Wire(es, rest)) == Failed(MissingContentType, WaitingForHeaders, rest)
  {
    WireIsRead(es, rest);
    HeaderIsSaid(es, "Content-Type", []);
  }

  /** A length above 8 MiB fails; one that no 64-bit number can hold is not a
      number. */
  lemma LongLengthFails(es: seq<Entry>, contentType: Bytes, n: nat, rest: Bytes)
    requires Typed(es, contentType) && Announces(es, n) && n > 8_388_608
    ensures ParseMessage(WaitingForHeaders, Wire(es, rest)) ==
      Failed(if n < 0x1_0000_0000_0000_0000 then TooLarge(n) else InvalidLength(Decimal(n)), WaitingForHeaders, rest)
  {
    WireIsRead(es, rest);
    HeaderIsSaid(es, "Content-Type", contentType);
    AnnouncedLength(es, n);
    RefusedHead(Block(es), Collect(es, map[]), Decimal(n));
  }

  /** One character that is neither a digit nor a sign in front makes a length
      unreadable, and so does its absence. */
  predicate NotANumeral(v: Bytes) {
    v == [] || v == "+" || exists i | 0 <= i < |v| :: !IsDigit(v[i]) && (i > 0 || v[0] != '+')
  }

  lemma NotANumeralFails(v: Bytes, max: nat)
    requires NotANumeral(v)
    ensures ParseUnsigned(v, max).None?
  {
    if v != [] && v != "+" {
      var i :| 0 <= i < |v| && !IsDigit(v[i]) && (i > 0 || v[0] != '+');
      assert !IsDigit(WithoutPlus(v)[if v[0] == '+' then i - 1 else i]);
    }
  }

  lemma BadLengthFails(es: seq<Entry>, contentType: Bytes, raw: Bytes, rest: Bytes)
    requires Typed(es, contentType) && Says(es, "Content-Length", raw) && CleanRaw(raw)
    requires '%' !in raw && NotANumeral(raw)
    ensures ParseMessage(WaitingForHeaders, Wire(es, rest)) == Failed(InvalidLength(raw), WaitingForHeaders, rest)
  {
    WireIsRead(es, rest);
    HeaderIsSaid(es, "Content-Type", contentType);
    HeaderIsSaid(es, "Content-Length", raw);
    Percent.DecodeValueWithoutPercent(raw);
    TrimFixed(raw);
    NotANumeralFails(raw, USIZE_MAX);
    RefusedHead(Block(es), Collect(es, map[]), raw);
  }

  /** A header block that is not UTF-8 fails, whatever it says. */
  lemma BadTextFails(text: Bytes, p: nat)
    requires Find(text, BLANK_LINE) == Some(p) && !Utf8.Valid(text[..p])
    ensures ParseMessage(WaitingForHeaders, text) == Failed(HeadersNotUtf8, WaitingForHeaders, text[p + 2..])
  {
    ParsedAfterHead(text, p, ReadHead(text[..p]));
  }

  /** So does one with a line that has no colon, and the first such line is
      named. */
  lemma NoColonFails(text: Bytes, p: nat, i: nat)
    requires Find(text, BLANK_LINE) == Some(p) && Utf8.Valid(text[..p]) && FirstNoColon(Lines(text[..p]), i)
    ensures ParseMessage(WaitingForHeaders, text) ==
      Failed(InvalidHeader(Trim(Lines(text[..p])[i])), WaitingForHeaders, text[p + 2..])
  {
    StrictFailsAt(Lines(text[..p]), map[], i);
    ParsedAfterHead(text, p, ReadHead(text[..p]));
  }
}
