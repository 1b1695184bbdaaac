/** The incremental parser object and the read loop around it, refining the
    one-shot decoder. */
module Parser {
  import opened Text
  import opened Headers
  import opened Incremental
  import opened Framing
  import opened Buffer
  import Utf8

  class EslParser {
    const buffer: EslBuffer
    var state: State

    /** Between calls the read cursor is at the front, so that the size check
        measures exactly the unread bytes. */
    ghost predicate Valid()
      reads this, buffer
    {
      buffer.Valid() && buffer.position == 0
    }

    function Unread(): Bytes
      reads this, buffer, buffer.store
      requires Valid()
    {
      buffer.Data()
    }

    constructor ()
      ensures Valid() && fresh(buffer) && fresh(buffer.store)
      ensures state == WaitingForHeaders && Unread() == []
    {
      buffer := new EslBuffer();
      state := WaitingForHeaders;
    }

    /** `add_data`: append, then check the size of the whole buffer. */
    method AddData(bytes: Bytes) returns (r: Option<Stop<Error>>)
      requires Valid()
      modifies buffer, buffer.store
      ensures Valid() && (buffer.store == old(buffer.store) || fresh(buffer.store))
      ensures Unread() == old(Unread()) + bytes
      ensures r == if |Unread()| > MAX_BUFFER_SIZE then Some(BufferOverflow(|Unread()|)) else None
    {
      buffer.ExtendFromSlice(bytes);
      var size := buffer.CheckSizeLimits(MAX_BUFFER_SIZE);
      r := if size.Some? then Some(BufferOverflow(size.value)) else None;
    }

    /** `parse_headers`: a loop over the lines that fills the map and gives up
        at the first line without a colon. */
    method ParseHeaders(text: Bytes) returns (r: Result<HeaderMap, Error>)
      ensures r == match ParseStrict(text)
        case Ok(headers) => Ok(headers)
        case Err(line) => Err(InvalidHeader(line))
    {
      var lines := Lines(text);
      var headers: HeaderMap := map[];
      for i := 0 to |lines|
        invariant ParseStrict(text) == Strict(lines[i..], headers)
      {
        match ParseLine(lines[i]) {
          case None =>
          case Some(NoColon(line)) => return Err(InvalidHeader(line));
          case Some(Pair(key, value)) => headers := headers[key := value];
        }
      }
      r := Ok(headers);
    }

    /** The part of `parse_message` that reads a header block. */
    method ParseHead(block: Bytes) returns (r: Result<Head, Error>)
      ensures r == ReadHead(block)
    {
      if !Utf8.Valid(block) {
        return Err(HeadersNotUtf8);
      }
      var parsed := ParseHeaders(block);
      if parsed.Err? {
        return Err(parsed.error);
      }
      var headers := parsed.value;
      if CONTENT_TYPE !in headers {
        return Err(MissingContentType);
      }
      var messageType := FromContentType(headers[CONTENT_TYPE]);
      var bodyLength: nat := 0;
      if CONTENT_LENGTH in headers {
        var length := ParseUnsigned(Trim(headers[CONTENT_LENGTH]), USIZE_MAX);
        if length.None? {
          return Err(InvalidLength(headers[CONTENT_LENGTH]));
        }
        if length.value > MAX_MESSAGE_SIZE {
          return Err(TooLarge(length.value));
        }
        bodyLength := length.value;
      }
      r := Ok(Head(messageType, headers, bodyLength));
    }

    /** The outcome of a step, as the caller sees it. */
    function Answer(step: ParseStep): Result<Option<Message>, Error> {
      match step
      case Pending(_, _) => Ok(None)
      case Emit(m, _, _) => Ok(Some(m))
      case Failed(e, _, _) => Err(e)
    }

    /** `parse_message`: one step of the one-shot decoder, done in place. */
    method ParseMessage() returns (r: Result<Option<Message>, Error>)
      requires Valid()
      modifies this`state, buffer, buffer.store
      ensures Valid() && buffer.store == old(buffer.store)
      ensures var step := Framing.ParseMessage(old(state), old(Unread()));
        r == Answer(step) && state == step.st && Unread() == step.rest
      decreases if state.WaitingForHeaders? then 1 else 0
    {
      match state {
        case WaitingForHeaders =>
          var block := buffer.ExtractUntilPattern(HEADER_TERMINATOR);
          if block.None? {
            return Ok(None);
          }
          buffer.Compact();
          var head := ParseHead(block.value);
          if head.Err? {
            return Err(head.error);
          }
          if head.value.bodyLength > 0 {
            state := WaitingForBody(head.value);
            r := ParseMessage();
          } else {
            r := Ok(Some(Message(head.value.messageType, head.value.headers, None)));
          }
        case WaitingForBody(head) =>
          var body := buffer.ExtractBytes(head.bodyLength);
          if body.None? {
            return Ok(None);
          }
          buffer.Compact();
          if !Utf8.Valid(body.value) {
            return Err(BodyNotUtf8);
          }
          state := WaitingForHeaders;
          r := Ok(Some(Message(head.messageType, head.headers, Some(body.value))));
      }
    }
  }
}
