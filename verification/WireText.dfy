/** The text of every command, literally: what goes out for which command. */
module WireText {
  import opened Text
  import opened Headers
  import opened Event
  import opened WireFormat
  import opened OutgoingFrames

  // ---- Commands of one line ----

  predicate IsEventCommand(c: EslCommand) {
    c.SendMsg? || c.Execute? || c.SendEvent?
  }

  function WithUuid(line: Bytes, uuid: Option<Bytes>): Bytes {
    if uuid.Some? then line + [' '] + uuid.value else line
  }

  /** The line of a command that carries no event. */
  function LineText(c: EslCommand): Bytes
    requires !IsEventCommand(c)
  {
    match c
    case Auth(password) => "auth " + password
    case UserAuth(user, password) => "userauth " + user + ":" + password
    case Api(command) => "api " + command
    case BgApi(command) => "bgapi " + command
    case Events(format, events) => "event " + format + " " + events
    case Filter(header, value) => "filter " + header + " " + value
    case Exit => "exit"
    case Log(level) => "log " + level
    case NoLog => "nolog"
    case NoOp => "noop"
    case MyEvents(format, uuid) => WithUuid("myevents", uuid) + " " + format
    case Linger(None) => "linger"
    case Linger(Some(seconds)) => "linger " + Decimal(seconds)
    case NoLinger => "nolinger"
    case Resume => "resume"
    case NixEvent(events) => "nixevent " + events
    case NoEvents => "noevents"
    case FilterDelete(header, value) =>
      if header == "all" then "filter delete all" else WithUuid("filter delete " + header, value)
    case DivertEvents(true) => "divert_events on"
    case DivertEvents(false) => "divert_events off"
    case GetVar(name) => "getvar " + name
    case Connect => "connect"
  }

  lemma NoWords(name: Bytes)
    ensures name + Words([]) == name
  {
  }

  lemma OneWord(name: Bytes, w: Bytes)
    ensures name + Words([w]) == name + [' '] + w
  {
    WordsOfOne(w);
  }

  lemma TwoWords(name: Bytes, v: Bytes, w: Bytes)
    ensures name + Words([v, w]) == name + [' '] + v + [' '] + w
  {
    WordsOfOne(w);
    assert [v, w][1..] == [w];
  }

  lemma ThreeWords(name: Bytes, u: Bytes, v: Bytes, w: Bytes)
    ensures name + Words([u, v, w]) == name + [' '] + u + [' '] + v + [' '] + w
  {
    TwoWords([], v, w);
    assert [u, v, w][1..] == [v, w];
  }

  lemma FixedLine(c: EslCommand)
    requires Fixed(c) && !c.Linger? && !c.DivertEvents?
    ensures CommandLine(c) == LineText(c)
  {
    NoWords(CommandWords(c).0);
  }

  lemma LingerLine(timeout: Option<nat>)
    ensures CommandLine(Linger(timeout)) == LineText(Linger(timeout))
  {
    if timeout.Some? {
      OneWord("linger", Decimal(timeout.value));
    } else {
      NoWords("linger");
    }
  }

  lemma DivertLine(on: bool)
    ensures CommandLine(DivertEvents(on)) == LineText(DivertEvents(on))
  {
    OneWord("divert_events", if on then "on" else "off");
  }

  lemma AccessLine(c: EslCommand)
    requires c.Auth? || c.UserAuth? || c.Api? || c.BgApi?
    ensures CommandLine(c) == LineText(c)
  {
    match c {
      case Auth(password) => OneWord("auth", password);
      case UserAuth(user, password) => OneWord("userauth", user + ":" + password);
      case Api(command) => OneWord("api", command);
      case BgApi(command) => OneWord("bgapi", command);
    }
  }

  lemma EventsLine(format: Bytes, events: Bytes)
    ensures CommandLine(Events(format, events)) == LineText(Events(format, events))
  {
    TwoWords("event", format, events);
  }

  lemma FilterLine(header: Bytes, value: Bytes)
    ensures CommandLine(Filter(header, value)) == LineText(Filter(header, value))
  {
    TwoWords("filter", header, value);
  }

  lemma SelectionLine(c: EslCommand)
    requires c.NixEvent? || c.Log? || c.GetVar?
    ensures CommandLine(c) == LineText(c)
  {
    match c {
      case NixEvent(events) => OneWord("nixevent", events);
      case Log(level) => OneWord("log", level);
      case GetVar(name) => OneWord("getvar", name);
    }
  }

  lemma MyEventsLine(format: Bytes, uuid: Option<Bytes>)
    ensures CommandLine(MyEvents(format, uuid)) == LineText(MyEvents(format, uuid))
  {
    if uuid.Some? {
      assert [uuid.value] + [format] == [uuid.value, format];
      TwoWords("myevents", uuid.value, format);
    } else {
      assert [] + [format] == [format];
      OneWord("myevents", format);
    }
  }

  lemma DeleteAllLine(value: Option<Bytes>)
    ensures CommandLine(FilterDelete("all", value)) == "filter delete all"
  {
    assert ["delete", "all"] + [] == ["delete", "all"];
    TwoWords("filter", "delete", "all");
    assert "filter" + [' '] + "delete" + [' '] + "all" == "filter delete all";
  }

  lemma DeleteOneLine(header: Bytes, value: Option<Bytes>)
    requires header != "all"
    ensures CommandLine(FilterDelete(header, value)) == WithUuid("filter delete " + header, value)
  {
    assert "filter" + [' '] + "delete" + [' '] == "filter delete ";
    if value.Some? {
      assert ["delete", header] + [value.value] == ["delete", header, value.value];
      ThreeWords("filter", "delete", header, value.value);
    } else {
      assert ["delete", header] + [] == ["delete", header];
      TwoWords("filter", "delete", header);
    }
  }

  lemma FilterDeleteLine(header: Bytes, value: Option<Bytes>)
    ensures CommandLine(FilterDelete(header, value)) == LineText(FilterDelete(header, value))
  {
    if header == "all" {
      DeleteAllLine(value);
    } else {
      DeleteOneLine(header, value);
    }
  }

  lemma CommandLineIsText(c: EslCommand)
    requires !IsEventCommand(c)
    ensures CommandLine(c) == LineText(c)
  {
    match c {
      case Auth(_) | UserAuth(_, _) | Api(_) | BgApi(_) => AccessLine(c);
      case Events(format, events) => EventsLine(format, events);
      case Filter(header, value) => FilterLine(header, value);
      case NixEvent(_) | Log(_) | GetVar(_) => SelectionLine(c);
      case MyEvents(format, uuid) => MyEventsLine(format, uuid);
      case FilterDelete(header, value) => FilterDeleteLine(header, value);
      case Linger(timeout) => LingerLine(timeout);
      case DivertEvents(on) => DivertLine(on);
      case _ => FixedLine(c);
    }
  }

  // ---- Which commands are accepted ----

  lemma OneLineConcat(a: Bytes, b: Bytes)
    ensures OneLine(a + b) <==> OneLine(a) && OneLine(b)
  {
    assert forall c | c in a + b :: c in a || c in b;
    assert forall c | c in a :: c in a + b;
    assert forall c | c in b :: c in a + b;
  }

  lemma {:induction false} OneLineWords(ws: seq<Bytes>)
    ensures OneLine(Words(ws)) <==> forall w | w in ws :: OneLine(w)
  {
    if ws != [] {
      OneLineWords(ws[1..]);
      assert ws[0] in ws && forall w | w in ws[1..] :: w in ws;
      assert forall w | w in ws :: w == ws[0] || w in ws[1..];
      assert Words(ws) == [' '] + ws[0] + Words(ws[1..]);
      OneLineConcat([' '], ws[0]);
      OneLineConcat([' '] + ws[0], Words(ws[1..]));
    }
  }

  lemma OneLineCommand(c: EslCommand)
    ensures OneLine(CommandLine(c)) <==> forall w | w in CommandWords(c).1 :: OneLine(w)
  {
    OneLineWords(CommandWords(c).1);
    OneLineConcat(CommandWords(c).0, Words(CommandWords(c).1));
    NameIsOneLine(c);
  }

  predicate WordsClean(c: EslCommand) {
    forall w | w in CommandWords(c).1 :: OneLine(w)
  }

  lemma FixedWordsClean(c: EslCommand)
    requires Fixed(c)
    ensures WordsClean(c)
  {
    if c.Linger? && c.timeout.Some? {
      DecimalIsNumber(c.timeout.value);
    }
  }

  lemma AccessClean(c: EslCommand)
    requires c.Auth? || c.UserAuth? || c.Api? || c.BgApi? || c.NixEvent? || c.Log? || c.GetVar?
    ensures WordsClean(c) <==> Clean(c)
  {
    var w := CommandWords(c).1[0];
    assert CommandWords(c).1 == [w];
    if c.UserAuth? {
      OneLineConcat(c.user, ":");
      OneLineConcat(c.user + ":", c.userPassword);
    }
  }

  lemma TwoClean(c: EslCommand)
    requires c.Events? || c.Filter? || c.MyEvents?
    ensures WordsClean(c) <==> Clean(c)
  {
    var ws := CommandWords(c).1;
    assert forall w | w in ws :: exists i | 0 <= i < |ws| :: ws[i] == w;
    assert |ws| == 2 ==> ws[0] in ws && ws[1] in ws;
    assert |ws| == 1 ==> ws[0] in ws;
  }

  lemma FilterDeleteClean(header: Bytes, value: Option<Bytes>)
    requires header != "all" || value.None?
    ensures WordsClean(FilterDelete(header, value)) <==> Clean(FilterDelete(header, value))
  {
    var ws := CommandWords(FilterDelete(header, value)).1;
    assert ws == ["delete", header] + (if header == "all" then [] else UuidWord(value));
    assert "delete" in ws && header in ws && (value.Some? ==> value.value in ws);
    assert OneLine("delete");
  }

  /** A command of one line is accepted exactly if its line is one line; a deletion of
      all filters also checks the value that it does not send. */
  lemma LineCommandAcceptedExactly(c: EslCommand)
    requires !IsEventCommand(c)
    ensures (c.FilterDelete? && c.header == "all" && c.deleted.Some?) || (Clean(c) <==> OneLine(LineText(c)))
    ensures c.FilterDelete? && c.header == "all" ==> (Clean(c) <==> OneLineIfGiven(c.deleted))
  {
    CommandLineIsText(c);
    OneLineCommand(c);
    match c {
      case Auth(_) | UserAuth(_, _) | Api(_) | BgApi(_) | NixEvent(_) | Log(_) | GetVar(_) => AccessClean(c);
      case Events(_, _) | Filter(_, _) | MyEvents(_, _) => TwoClean(c);
      case FilterDelete(header, value) =>
        if header != "all" || value.None? {
          FilterDeleteClean(header, value);
        }
      case _ => FixedWordsClean(c);
    }
  }

  /** One that carries an event is accepted exactly if its session and all its header
      names and values are one line each; the body may hold any text. */
  lemma EventCommandAcceptedExactly(c: EslCommand)
    requires IsEventCommand(c)
    ensures Clean(c) <==>
      && (!c.SendEvent? ==> OneLine(WithUuid("sendmsg", c.uuid)))
      && (c.Execute? ==> OneLine(c.app) && OneLineIfGiven(c.args))
      && (!c.Execute? ==> forall k | k in c.event.headers :: OneLine(k) && OneLine(c.event.headers[k]))
  {
    if !c.SendEvent? && c.uuid.Some? {
      OneLineConcat("sendmsg" + [' '], c.uuid.value);
    }
    assert OneLine("sendmsg") && OneLine("sendmsg" + [' ']);
  }

  lemma NoHeadersText(text: Bytes, line: Bytes)
    requires Built(text, line, map[], None)
    ensures text == line + "\n\n"
  {
    var none: HeaderMap := map[];
    var ks :| Enumerates(ks, none.Keys) && text == Framed(BuiltLines(line, none, ks, None), BodyText(None));
    assert ks == [] && BuiltLines(line, none, ks, None) == [line];
    UnlinesOfOne(line);
    assert text == line + [LF] + [LF] + [];
  }

  /** What goes out for a command that carries no event is exactly its line and a
      blank line. */
  lemma LineCommandText(c: EslCommand, text: Bytes)
    requires !IsEventCommand(c) && IsWire(c, text)
    ensures text == LineText(c) + "\n\n"
  {
    CommandLineIsText(c);
    NoHeadersText(text, CommandLine(c));
  }

  // ---- Commands that carry an event ----

  /** A first line, a header line for each name, and the length of the body, if
      there is one. */
  predicate EventLines(lines: seq<Bytes>, ks: seq<Bytes>, first: Bytes, headers: HeaderMap, body: Option<Bytes>) {
    && |lines| == 1 + |ks| + (if body.Some? then 1 else 0)
    && lines[0] == first
    && (forall i | 0 <= i < |ks| :: ks[i] in headers && lines[i + 1] == ks[i] + ": " + headers[ks[i]])
    && (body.Some? ==> lines[|ks| + 1] == "Content-Length: " + Decimal(|body.value|))
  }

  /** The text is read as such lines, with the names in some order, and the body. */
  ghost predicate ReadsAsEvent(text: Bytes, first: Bytes, headers: HeaderMap, body: Option<Bytes>) {
    exists lines: seq<Bytes>, ks: seq<Bytes> ::
      Enumerates(ks, headers.Keys) && EventLines(lines, ks, first, headers, body) && Reads(text, lines, BodyText(body))
  }

  lemma BuiltLinesLiterally(first: Bytes, headers: HeaderMap, ks: seq<Bytes>, body: Option<Bytes>)
    requires Enumerates(ks, headers.Keys)
    ensures EventLines(BuiltLines(first, headers, ks, body), ks, first, headers, body)
  {
    var lines, hs := BuiltLines(first, headers, ks, body), HeaderLines(headers, ks);
    assert lines[0] == first;
    assert forall i | 0 <= i < |ks| :: lines[i + 1] == hs[i];
    if body.Some? {
      assert "Content-Length" + ": " == "Content-Length: ";
      assert lines[|ks| + 1] == LengthLine(body)[0];
    }
  }

  lemma ReadsLiterally(text: Bytes, first: Bytes, headers: HeaderMap, body: Option<Bytes>)
    returns (lines: seq<Bytes>, ks: seq<Bytes>)
    requires ReadsAs(text, first, headers, body)
    ensures Enumerates(ks, headers.Keys) && EventLines(lines, ks, first, headers, body)
    ensures Reads(text, lines, BodyText(body))
    ensures ReadsAsEvent(text, first, headers, body)
  {
    ks :| Enumerates(ks, headers.Keys) && Reads(text, BuiltLines(first, headers, ks, body), BodyText(body));
    lines := BuiltLines(first, headers, ks, body);
    BuiltLinesLiterally(first, headers, ks, body);
  }

  /** A message to a session names the session on the first line; without one it
      goes to the own session. */
  lemma SendMsgText(uuid: Option<Bytes>, event: EventValue, text: Bytes)
    requires Clean(SendMsg(uuid, event)) && IsWire(SendMsg(uuid, event), text)
    ensures ReadsAsEvent(text, WithUuid("sendmsg", uuid), event.headers, event.body)
  {
    SendMsgLine(SendMsg(uuid, event), uuid);
    WireIsOneFrame(SendMsg(uuid, event), text);
    var lines, ks := ReadsLiterally(text, WithUuid("sendmsg", uuid), event.headers, event.body);
  }

  lemma SendMsgLine(c: EslCommand, uuid: Option<Bytes>)
    requires (c.SendMsg? || c.Execute?) && c.uuid == uuid
    ensures CommandLine(c) == WithUuid("sendmsg", uuid)
  {
    if uuid.Some? {
      OneWord("sendmsg", uuid.value);
    } else {
      NoWords("sendmsg");
    }
  }

  /** What names a sent event: its type, else its Event-Name header, else that it is
      a custom event. */
  predicate Names(event: EventValue, name: Bytes) {
    if event.eventType.Some? then name == event.eventType.value
    else if "Event-Name" in event.headers then name == event.headers["Event-Name"]
    else name == "CUSTOM"
  }

  lemma SendEventText(event: EventValue, name: Bytes, text: Bytes)
    requires Clean(SendEvent(event)) && IsWire(SendEvent(event), text)
    requires Names(event, name) && OneLine(name)
    ensures ReadsAsEvent(text, "sendevent " + name, event.headers, event.body)
  {
    SendEventLine(event, name);
    WireIsOneFrame(SendEvent(event), text);
    var lines, ks := ReadsLiterally(text, "sendevent " + name, event.headers, event.body);
  }

  lemma SendEventLine(event: EventValue, name: Bytes)
    requires Names(event, name)
    ensures CommandLine(SendEvent(event)) == "sendevent " + name
  {
    OneWord("sendevent", name);
  }

  // ---- Running an application ----

  lemma ExecuteNames(app: Bytes, args: Option<Bytes>)
    ensures var m := ExecuteHeaders(app, args);
      && "call-command" in m && m["call-command"] == "execute"
      && "execute-app-name" in m && m["execute-app-name"] == app
      && (args.Some? ==> "execute-app-arg" in m && m["execute-app-arg"] == args.value)
      && |m.Keys| == (if args.Some? then 3 else 2)
  {
    KeysOfExecute();
    var m := ExecuteHeaders(app, args);
    if args.Some? {
      assert m.Keys == {"call-command", "execute-app-name", "execute-app-arg"};
    } else {
      assert m.Keys == {"call-command", "execute-app-name"};
    }
  }

  lemma LineOf(headers: HeaderMap, ks: seq<Bytes>, lines: seq<Bytes>, first: Bytes, k: Bytes)
    requires Enumerates(ks, headers.Keys) && k in headers && EventLines(lines, ks, first, headers, None)
    ensures k + ": " + headers[k] in lines[1..]
  {
    EnumerationCovers(ks, headers.Keys);
    var i :| 0 <= i < |ks| && ks[i] == k;
    assert lines[1..][i] == lines[i + 1];
  }

  /** The lines that ask for an application: in some order and with nothing else, one
      that asks for it, one that names it, and one that carries its arguments if
      there are any. */
  predicate ExecuteLines(lines: seq<Bytes>, app: Bytes, args: Option<Bytes>, uuid: Option<Bytes>) {
    && |lines| == (if args.Some? then 4 else 3)
    && lines[0] == WithUuid("sendmsg", uuid)
    && "call-command: execute" in lines[1..]
    && "execute-app-name: " + app in lines[1..]
    && (args.Some? ==> "execute-app-arg: " + args.value in lines[1..])
  }

  lemma ExecuteLinesLiterally(lines: seq<Bytes>, ks: seq<Bytes>, app: Bytes, args: Option<Bytes>, uuid: Option<Bytes>)
    requires Enumerates(ks, ExecuteHeaders(app, args).Keys)
    requires EventLines(lines, ks, WithUuid("sendmsg", uuid), ExecuteHeaders(app, args), None)
    ensures ExecuteLines(lines, app, args, uuid)
  {
    var m, first := ExecuteHeaders(app, args), WithUuid("sendmsg", uuid);
    ExecuteNames(app, args);
    LineOf(m, ks, lines, first, "call-command");
    LineOf(m, ks, lines, first, "execute-app-name");
    assert "call-command" + ": " + "execute" == "call-command: execute";
    assert "execute-app-name" + ": " + app == "execute-app-name: " + app;
    if args.Some? {
      LineOf(m, ks, lines, first, "execute-app-arg");
      assert "execute-app-arg" + ": " + args.value == "execute-app-arg: " + args.value;
    }
  }

  /** Running an application sends these lines and no body. */
  lemma ExecuteText(app: Bytes, args: Option<Bytes>, uuid: Option<Bytes>, text: Bytes) returns (lines: seq<Bytes>)
    requires Clean(Execute(app, args, uuid)) && IsWire(Execute(app, args, uuid), text)
    ensures Reads(text, lines, []) && ExecuteLines(lines, app, args, uuid)
  {
    var c, ks := Execute(app, args, uuid), [];
    SendMsgLine(c, uuid);
    WireIsOneFrame(c, text);
    lines, ks := ReadsLiterally(text, WithUuid("sendmsg", uuid), ExecuteHeaders(app, args), None);
    ExecuteLinesLiterally(lines, ks, app, args, uuid);
  }
}
