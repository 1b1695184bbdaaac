/** The outgoing side: commands, the builder with headers and a body, and the
    framing of what is written to the socket. */
module WireFormat {
  import opened Text
  import opened Headers
  import opened Event

  datatype Rejected = ContainsNewline

  type Wire = Result<Bytes, Rejected>

  datatype EslCommand =
    | Auth(password: Bytes)
    | UserAuth(user: Bytes, userPassword: Bytes)
    | Api(api: Bytes)
    | BgApi(api: Bytes)
    | Events(format: Bytes, events: Bytes)
    | Filter(header: Bytes, value: Bytes)
    | SendMsg(uuid: Option<Bytes>, event: EventValue)
    | Execute(app: Bytes, args: Option<Bytes>, uuid: Option<Bytes>)
    | Exit
    | Log(level: Bytes)
    | NoLog
    | NoOp
    | SendEvent(event: EventValue)
    | MyEvents(format: Bytes, uuid: Option<Bytes>)
    | Linger(timeout: Option<nat>)
    | NoLinger
    | Resume
    | NixEvent(events: Bytes)
    | NoEvents
    | FilterDelete(header: Bytes, deleted: Option<Bytes>)
    | DivertEvents(on: bool)
    | GetVar(name: Bytes)
    | Connect

  /** `validate_no_newlines`. */
  predicate OneLine(s: Bytes) {
    LF !in s && CR !in s
  }

  predicate OneLineIfGiven(s: Option<Bytes>) {
    s.Some? ==> OneLine(s.value)
  }

  // ---- Commands of one line ----

  function Words(args: seq<Bytes>): Bytes {
    if args == [] then [] else [' '] + args[0] + Words(args[1..])
  }

  lemma {:induction false} WordsConcat(a: seq<Bytes>, b: seq<Bytes>)
    ensures Words(a + b) == Words(a) + Words(b)
  {
    if a == [] {
      assert a + b == b;
    } else {
      assert (a + b)[1..] == a[1..] + b;
      WordsConcat(a[1..], b);
    }
  }

  /** `format_simple_command`. */
  method FormatSimpleCommand(cmd: Bytes, args: seq<Bytes>) returns (text: Bytes)
    ensures text == cmd + Words(args) + [LF, LF]
  {
    text := cmd;
    assert args[..0] == [];
    for i := 0 to |args|
      invariant text == cmd + Words(args[..i])
    {
      assert args[..i + 1] == args[..i] + [args[i]];
      WordsConcat(args[..i], [args[i]]);
      assert Words([args[i]]) == [' '] + args[i] by {
        assert [args[i]][1..] == [];
      }
      text := text + [' '];
      text := text + args[i];
    }
    assert args[..|args|] == args;
    text := text + [LF, LF];
  }

  // ---- Commands with headers and a body ----

  /** The header lines for one enumeration of the names. */
  function HeaderLines(headers: HeaderMap, ks: seq<Bytes>): (ls: seq<Bytes>)
    requires forall i | 0 <= i < |ks| :: ks[i] in headers
    ensures |ls| == |ks|
    ensures forall i | 0 <= i < |ks| :: ls[i] == WriteLine(ks[i], headers[ks[i]])
  {
    seq(|ks|, i requires 0 <= i < |ks| => WriteLine(ks[i], headers[ks[i]]))
  }

  function LengthLine(body: Option<Bytes>): seq<Bytes> {
    if body.Some? then [WriteLine(CONTENT_LENGTH, Decimal(|body.value|))] else []
  }

  /** A block of lines, a blank line and what follows it. */
  function Framed(lines: seq<Bytes>, body: Bytes): Bytes {
    Unlines(lines) + [LF] + body
  }

  function BuiltLines(command: Bytes, headers: HeaderMap, ks: seq<Bytes>, body: Option<Bytes>): seq<Bytes>
    requires forall i | 0 <= i < |ks| :: ks[i] in headers
  {
    [command] + HeaderLines(headers, ks) + LengthLine(body)
  }

  /** The text is what the builder produces for some order of the headers. */
  ghost predicate Built(text: Bytes, command: Bytes, headers: HeaderMap, body: Option<Bytes>) {
    exists ks :: Enumerates(ks, headers.Keys) &&
      text == Framed(BuiltLines(command, headers, ks, body), BodyText(body))
  }

  lemma UnlinesOfOne(l: Bytes)
    ensures Unlines([l]) == l + [LF]
  {
    assert [l][1..] == [];
  }

  lemma UnlinesSnoc(ls: seq<Bytes>, l: Bytes)
    ensures Unlines(ls + [l]) == Unlines(ls) + (l + [LF])
  {
    UnlinesConcat(ls, [l]);
    UnlinesOfOne(l);
  }

  lemma HeaderLinesSnoc(command: Bytes, headers: HeaderMap, ks: seq<Bytes>, k: Bytes)
    requires (forall i | 0 <= i < |ks| :: ks[i] in headers) && k in headers
    ensures Unlines([command] + HeaderLines(headers, ks + [k])) ==
      Unlines([command] + HeaderLines(headers, ks)) + (WriteLine(k, headers[k]) + [LF])
  {
    var ls := HeaderLines(headers, ks);
    assert [command] + HeaderLines(headers, ks + [k]) == ([command] + ls) + [WriteLine(k, headers[k])];
    UnlinesSnoc([command] + ls, WriteLine(k, headers[k]));
  }

  class CommandBuilder {
    var command: Bytes
    var headers: HeaderMap
    var body: Option<Bytes>

    constructor (command: Bytes)
      ensures this.command == command && headers == map[] && body == None
    {
      this.command := command;
      headers := map[];
      body := None;
    }

    /** `header`: rejects a name or a value with a newline. */
    method Header(name: Bytes, value: Bytes) returns (ok: bool)
      modifies this`headers
      ensures ok <==> OneLine(name) && OneLine(value)
      ensures headers == if ok then old(headers)[name := value] else old(headers)
    {
      ok := OneLine(name) && OneLine(value);
      if ok {
        headers := headers[name := value];
      }
    }

    method Body(text: Bytes)
      modifies this`body
      ensures body == Some(text)
    {
      body := Some(text);
    }

    /** `build`: the headers come in whatever order the map yields them. */
    method Build() returns (text: Bytes)
      ensures Built(text, command, headers, body)
    {
      text := command + [LF];
      var left := headers.Keys;
      ghost var ks: seq<Bytes> := [];
      UnlinesOfOne(command);
      assert [command] + HeaderLines(headers, []) == [command];
      while left != {}
        invariant left <= headers.Keys
        invariant Enumerates(ks, headers.Keys - left)
        invariant text == Unlines([command] + HeaderLines(headers, ks))
      {
        var k :| k in left;
        text := text + (WriteLine(k, headers[k]) + [LF]);
        HeaderLinesSnoc(command, headers, ks, k);
        EnumerationSnoc(ks, k, headers.Keys, left);
        ks := ks + [k];
        left := left - {k};
      }
      assert headers.Keys - {} == headers.Keys;
      ghost var ls := [command] + HeaderLines(headers, ks);
      if body.Some? {
        UnlinesSnoc(ls, WriteLine(CONTENT_LENGTH, Decimal(|body.value|)));
        text := text + (WriteLine(CONTENT_LENGTH, Decimal(|body.value|)) + [LF]);
        text := text + [LF];
        text := text + body.value;
      } else {
        assert ls + [] == ls;
        text := text + [LF];
      }
      assert text == Framed(BuiltLines(command, headers, ks, body), BodyText(body));
    }
  }

  // ---- What each command says ----

  function UuidWord(uuid: Option<Bytes>): seq<Bytes> {
    if uuid.Some? then [uuid.value] else []
  }

  /** The name on the command line of a sent event. */
  function EventLabel(e: EventValue): Bytes {
    if e.eventType.Some? then e.eventType.value
    else if EVENT_NAME in e.headers then e.headers[EVENT_NAME]
    else "CUSTOM"
  }

  function ExecuteHeaders(app: Bytes, args: Option<Bytes>): HeaderMap {
    var m: HeaderMap := map["call-command" := "execute", "execute-app-name" := app];
    if args.Some? then m["execute-app-arg" := args.value] else m
  }

  /** The command and its words, as they appear on the first line. */
  function CommandWords(c: EslCommand): (Bytes, seq<Bytes>) {
    match c
    case Auth(password) => ("auth", [password])
    case UserAuth(user, password) => ("userauth", [user + ":" + password])
    case Api(command) => ("api", [command])
    case BgApi(command) => ("bgapi", [command])
    case Events(format, events) => ("event", [format, events])
    case Filter(header, value) => ("filter", [header, value])
    case SendMsg(uuid, _) => ("sendmsg", UuidWord(uuid))
    case Execute(_, _, uuid) => ("sendmsg", UuidWord(uuid))
    case Exit => ("exit", [])
    case Log(level) => ("log", [level])
    case NoLog => ("nolog", [])
    case NoOp => ("noop", [])
    case SendEvent(event) => ("sendevent", [EventLabel(event)])
    case MyEvents(format, uuid) => ("myevents", UuidWord(uuid) + [format])
    case Linger(timeout) => ("linger", if timeout.Some? then [Decimal(timeout.value)] else [])
    case NoLinger => ("nolinger", [])
    case Resume => ("resume", [])
    case NixEvent(events) => ("nixevent", [events])
    case NoEvents => ("noevents", [])
    case FilterDelete(header, value) =>
      ("filter", ["delete", header] + if header == "all" then [] else UuidWord(value))
    case DivertEvents(on) => ("divert_events", [if on then "on" else "off"])
    case GetVar(name) => ("getvar", [name])
    case Connect => ("connect", [])
  }

  function CommandLine(c: EslCommand): Bytes {
    CommandWords(c).0 + Words(CommandWords(c).1)
  }

  /** The headers and the body that go out under the command line. */
  function Payload(c: EslCommand): (HeaderMap, Option<Bytes>) {
    match c
    case SendMsg(_, event) => (event.headers, event.body)
    case SendEvent(event) => (event.headers, event.body)
    case Execute(app, args, _) => (ExecuteHeaders(app, args), None)
    case _ => (map[], None)
  }

  predicate OneLineHeaders(headers: HeaderMap) {
    forall k | k in headers :: OneLine(k) && OneLine(headers[k])
  }

  /** No field that the caller supplied has a newline; the text of a body may. */
  predicate Clean(c: EslCommand) {
    match c
    case Auth(password) => OneLine(password)
    case UserAuth(user, password) => OneLine(user) && OneLine(password)
    case Api(command) => OneLine(command)
    case BgApi(command) => OneLine(command)
    case Events(format, events) => OneLine(format) && OneLine(events)
    case Filter(header, value) => OneLine(header) && OneLine(value)
    case SendMsg(uuid, event) => OneLineIfGiven(uuid) && OneLineHeaders(event.headers)
    case Execute(app, args, uuid) => OneLine(app) && OneLineIfGiven(args) && OneLineIfGiven(uuid)
    case Log(level) => OneLine(level)
    case SendEvent(event) => OneLineHeaders(event.headers)
    case MyEvents(format, uuid) => OneLine(format) && OneLineIfGiven(uuid)
    case NixEvent(events) => OneLine(events)
    case FilterDelete(header, value) => OneLine(header) && OneLineIfGiven(value)
    case GetVar(name) => OneLine(name)
    case _ => true
  }

  /** A text the command may be sent as. */
  ghost predicate IsWire(c: EslCommand, text: Bytes) {
    Built(text, CommandLine(c), Payload(c).0, Payload(c).1)
  }

  // ---- Conversion as it runs ----

  lemma SimpleIsBuilt(line: Bytes)
    ensures Built(line + [LF, LF], line, map[], None)
  {
    var ks: seq<Bytes>, none: HeaderMap := [], map[];
    assert Enumerates(ks, none.Keys);
    assert BuiltLines(line, none, ks, None) == [line];
    UnlinesOfOne(line);
    assert line + [LF, LF] == (line + [LF]) + [LF] + [];
  }

  method Simple(cmd: Bytes, args: seq<Bytes>) returns (r: Wire)
    ensures r.Ok? && Built(r.value, cmd + Words(args), map[], None)
  {
    var text := FormatSimpleCommand(cmd, args);
    SimpleIsBuilt(cmd + Words(args));
    r := Ok(text);
  }

  /** Adds every header to the builder; each is validated as it is added. */
  method AddHeaders(builder: CommandBuilder, headers: HeaderMap) returns (ok: bool)
    requires builder.headers == map[]
    modifies builder`headers
    ensures ok <==> OneLineHeaders(headers)
    ensures ok ==> builder.headers == headers
  {
    var left := headers.Keys;
    while left != {}
      invariant left <= headers.Keys
      invariant builder.headers == headers - left
      invariant forall k | k in headers && k !in left :: OneLine(k) && OneLine(headers[k])
    {
      var k :| k in left;
      ok := builder.Header(k, headers[k]);
      if !ok {
        return;
      }
      left := left - {k};
    }
    ok := true;
  }

  /** The arms that send an event. */
  method SendWithHeaders(line: Bytes, headers: HeaderMap, body: Option<Bytes>) returns (r: Wire)
    ensures r.Ok? <==> OneLineHeaders(headers)
    ensures r.Ok? ==> Built(r.value, line, headers, body)
  {
    var builder := new CommandBuilder(line);
    var ok := AddHeaders(builder, headers);
    if !ok {
      return Err(ContainsNewline);
    }
    if body.Some? {
      builder.Body(body.value);
    }
    var text := builder.Build();
    r := Ok(text);
  }

  lemma WordsOfOne(w: Bytes)
    ensures Words([w]) == [' '] + w
  {
    assert [w][1..] == [];
  }

  method SendMessage(uuid: Option<Bytes>, event: EventValue) returns (r: Wire)
    ensures r.Ok? <==> Clean(SendMsg(uuid, event))
    ensures r.Ok? ==> IsWire(SendMsg(uuid, event), r.value)
  {
    if uuid.Some? && !OneLine(uuid.value) {
      return Err(ContainsNewline);
    }
    var line: Bytes := "sendmsg";
    if uuid.Some? {
      WordsOfOne(uuid.value);
      line := line + ([' '] + uuid.value);
    }
    assert line == CommandLine(SendMsg(uuid, event));
    r := SendWithHeaders(line, event.headers, event.body);
  }

  lemma ExecuteHeadersOneLine(app: Bytes, args: Option<Bytes>)
    ensures OneLineHeaders(ExecuteHeaders(app, args)) <==> OneLine(app) && OneLineIfGiven(args)
  {
    var m := ExecuteHeaders(app, args);
    KeysOfExecute();
    assert m["execute-app-name"] == app;
    assert args.Some? ==> "execute-app-arg" in m && m["execute-app-arg"] == args.value;
    assert m["call-command"] == "execute";
  }

  lemma KeysOfExecute()
    ensures OneLine("call-command") && OneLine("execute-app-name") && OneLine("execute-app-arg") && OneLine("execute")
    ensures |"call-command"| < |"execute-app-arg"| < |"execute-app-name"|
  {
  }

  /** The event that an execute command sends. */
  method ExecuteEvent(app: Bytes, args: Option<Bytes>) returns (e: EventValue)
    ensures e == EventValue(None, ExecuteHeaders(app, args), None)
  {
    var event := new EslEvent();
    event.SetHeader("call-command", "execute");
    event.SetHeader("execute-app-name", app);
    if args.Some? {
      event.SetHeader("execute-app-arg", args.value);
    }
    e := event.Value();
  }

  method ExecuteApplication(app: Bytes, args: Option<Bytes>, uuid: Option<Bytes>) returns (r: Wire)
    ensures r.Ok? <==> Clean(Execute(app, args, uuid))
    ensures r.Ok? ==> IsWire(Execute(app, args, uuid), r.value)
  {
    if !OneLine(app) || (args.Some? && !OneLine(args.value)) || (uuid.Some? && !OneLine(uuid.value)) {
      return Err(ContainsNewline);
    }
    ExecuteHeadersOneLine(app, args);
    var event := ExecuteEvent(app, args);
    r := SendMessage(uuid, event);
  }

  method SendToBus(event: EventValue) returns (r: Wire)
    ensures r.Ok? <==> Clean(SendEvent(event))
    ensures r.Ok? ==> IsWire(SendEvent(event), r.value)
  {
    WordsOfOne(EventLabel(event));
    r := SendWithHeaders("sendevent" + ([' '] + EventLabel(event)), event.headers, event.body);
  }

  method DeleteFilter(header: Bytes, value: Option<Bytes>) returns (r: Wire)
    ensures r.Ok? <==> Clean(FilterDelete(header, value))
    ensures r.Ok? ==> IsWire(FilterDelete(header, value), r.value)
  {
    if !OneLine(header) || (value.Some? && !OneLine(value.value)) {
      return Err(ContainsNewline);
    }
    var words: seq<Bytes>;
    if header == "all" {
      words := ["delete", "all"];
    } else if value.Some? {
      words := ["delete", header, value.value];
    } else {
      words := ["delete", header];
    }
    assert words == CommandWords(FilterDelete(header, value)).1;
    r := Simple("filter", words);
  }

  method ListenToSession(format: Bytes, uuid: Option<Bytes>) returns (r: Wire)
    ensures r.Ok? <==> Clean(MyEvents(format, uuid))
    ensures r.Ok? ==> IsWire(MyEvents(format, uuid), r.value)
  {
    if !OneLine(format) || (uuid.Some? && !OneLine(uuid.value)) {
      return Err(ContainsNewline);
    }
    var words := if uuid.Some? then [uuid.value, format] else [format];
    assert words == CommandWords(MyEvents(format, uuid)).1;
    r := Simple("myevents", words);
  }

  /** One line made of words that may hold a newline. */
  method Checked(fields: seq<Bytes>, cmd: Bytes, args: seq<Bytes>) returns (r: Wire)
    ensures r.Ok? <==> forall f | f in fields :: OneLine(f)
    ensures r.Ok? ==> Built(r.value, cmd + Words(args), map[], None)
  {
    for i := 0 to |fields|
      invariant forall k | 0 <= k < i :: OneLine(fields[k])
    {
      if !OneLine(fields[i]) {
        return Err(ContainsNewline);
      }
    }
    r := Simple(cmd, args);
  }

  /** The commands that carry no text of the caller. */
  predicate Fixed(c: EslCommand) {
    || c.Exit? || c.NoLog? || c.NoOp? || c.Linger? || c.NoLinger? || c.Resume? || c.NoEvents?
    || c.DivertEvents? || c.Connect?
  }

  /** One line whose words are those of the command's arm. */
  method Fitting(ghost c: EslCommand, cmd: Bytes, args: seq<Bytes>) returns (r: Wire)
    requires CommandWords(c) == (cmd, args) && Payload(c) == (map[], None)
    ensures r.Ok? && IsWire(c, r.value)
  {
    r := Simple(cmd, args);
  }

  method FixedCommand(c: EslCommand) returns (r: Wire)
    requires Fixed(c)
    ensures r.Ok? && IsWire(c, r.value)
  {
    match c {
      case Exit => r := Fitting(c, "exit", []);
      case NoLog => r := Fitting(c, "nolog", []);
      case NoOp => r := Fitting(c, "noop", []);
      case Linger(timeout) =>
        r := Fitting(c, "linger", if timeout.Some? then [Decimal(timeout.value)] else []);
      case NoLinger => r := Fitting(c, "nolinger", []);
      case Resume => r := Fitting(c, "resume", []);
      case NoEvents => r := Fitting(c, "noevents", []);
      case DivertEvents(on) => r := Fitting(c, "divert_events", [if on then "on" else "off"]);
      case Connect => r := Fitting(c, "connect", []);
    }
  }

  /** The commands that say which events to send. */
  predicate Selects(c: EslCommand) {
    c.Events? || c.Filter? || c.MyEvents? || c.NixEvent? || c.FilterDelete? || c.Log?
  }

  method SelectCommand(c: EslCommand) returns (r: Wire)
    requires Selects(c)
    ensures r.Ok? <==> Clean(c)
    ensures r.Ok? ==> IsWire(c, r.value)
  {
    match c {
      case Events(format, events) => r := Checked([format, events], "event", [format, events]);
      case Filter(header, value) => r := Checked([header, value], "filter", [header, value]);
      case MyEvents(format, uuid) => r := ListenToSession(format, uuid);
      case NixEvent(events) => r := Checked([events], "nixevent", [events]);
      case FilterDelete(header, value) => r := DeleteFilter(header, value);
      case Log(level) => r := Checked([level], "log", [level]);
    }
  }

  /** `to_wire_format`. */
  method ToWireFormat(c: EslCommand) returns (r: Wire)
    ensures r.Ok? <==> Clean(c)
    ensures r.Ok? ==> IsWire(c, r.value)
  {
    if Fixed(c) {
      r := FixedCommand(c);
      return;
    }
    if Selects(c) {
      r := SelectCommand(c);
      return;
    }
    match c {
      case Auth(password) => r := Checked([password], "auth", [password]);
      case UserAuth(user, password) => r := Checked([user, password], "userauth", [user + ":" + password]);
      case Api(command) => r := Checked([command], "api", [command]);
      case BgApi(command) => r := Checked([command], "bgapi", [command]);
      case GetVar(name) => r := Checked([name], "getvar", [name]);
      case SendMsg(uuid, event) => r := SendMessage(uuid, event);
      case Execute(app, args, uuid) => r := ExecuteApplication(app, args, uuid);
      case SendEvent(event) => r := SendToBus(event);
    }
  }
}
