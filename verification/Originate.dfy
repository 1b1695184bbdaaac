/** The originate command line: printing, parsing, and exactly which commands are
    read back from their printed form. */
module Originate {
  import opened Text
  import opened Chars
  import opened Tokenizer
  import Applications
  import Endpoints

  type U32 = n: nat | n < 0x1_0000_0000

  datatype Command = Command(
    endpoint: Endpoints.Endpoint,
    applications: seq<Applications.Application>,
    dialplan: Option<Applications.Dialplan>,
    context: Option<string>,
    cidName: Option<string>,
    cidNum: Option<string>,
    timeout: Option<U32>)

  const WORD := "originate"

  function Given(field: Option<string>): seq<string> {
    if field.Some? then [field.value] else []
  }

  function DialplanField(d: Option<Applications.Dialplan>): seq<string> {
    if d.Some? then [Applications.DialplanText(d.value)] else []
  }

  function TimeoutField(n: Option<U32>): seq<string> {
    if n.Some? then [Decimal(n.value)] else []
  }

  /** What is written after the applications. */
  function Fields(o: Command): seq<string> {
    DialplanField(o.dialplan) + Given(o.context) + Given(o.cidName) + Given(o.cidNum) + TimeoutField(o.timeout)
  }

  function AppsText(o: Command): Result<string, OriginateError> {
    Applications.Display(o.applications, Applications.Effective(o.dialplan))
  }

  /** `Originate` as text: everything after the command word is separated by
      single spaces. */
  function Display(o: Command): Result<string, OriginateError> {
    match AppsText(o)
    case Err(e) => Err(e)
    case Ok(a) => Ok(WORD + [' '] + Join([Endpoints.Display(o.endpoint), Quote(a)] + Fields(o), ' '))
  }

  function Nth(ts: seq<string>, k: nat): Option<string> {
    if k < |ts| then Some(ts[k]) else None
  }

  /** The command that a list of tokens stands for. */
  function FromTokens(args: seq<string>): Result<Command, OriginateError> {
    if args == [] then Err(ParseError)
    else
      match Endpoints.Parse(args[0])
      case Err(e) => Err(e)
      case Ok(endpoint) =>
        if |args| == 1 then Err(ParseError)
        else
          var dialplan := if |args| > 2 then Applications.ParseDialplan(args[2]) else None;
          var rest := args[if dialplan.Some? then 3 else 2..];
          match Applications.Parse(Unquote(args[1]), dialplan)
          case Err(e) => Err(e)
          case Ok(apps) => Assemble(endpoint, apps, dialplan, rest)
  }

  function Assemble(endpoint: Endpoints.Endpoint, apps: seq<Applications.Application>,
                    dialplan: Option<Applications.Dialplan>, rest: seq<string>): Result<Command, OriginateError> {
    var o := Command(endpoint, apps, dialplan, Nth(rest, 0), Nth(rest, 1), Nth(rest, 2), None);
    if |rest| <= 3 then Ok(o)
    else
      match ParseUnsigned(rest[3], 0xFFFF_FFFF)
      case None => Err(ParseError)
      case Some(n) => Ok(o.(timeout := Some(n)))
  }

  function AfterWord(s: string): string {
    if WORD <= s then s[|WORD|..] else s
  }

  /** `Originate::from_str`. */
  function Parse(s: string): Result<Command, OriginateError> {
    match Split(Strip(AfterWord(s)), ' ')
    case Err(e) => Err(e)
    case Ok(args) => FromTokens(args)
  }

  /** `args.remove(0)`, if there is one. */
  method TakeFirst(args: seq<string>) returns (first: Option<string>, rest: seq<string>)
    ensures first == Nth(args, 0)
    ensures rest == if args == [] then [] else args[1..]
  {
    if args == [] {
      return None, [];
    }
    return Some(args[0]), args[1..];
  }

  /** Parsing as it runs, taking tokens off the front of the list. */
  method ParseOriginate(s: string) returns (r: Result<Command, OriginateError>)
    ensures r == Parse(s)
  {
    var split := OriginateSplit(Strip(AfterWord(s)), ' ');
    if split.Err? {
      return Err(split.error);
    }
    r := TakeFields(split.value);
  }

  method TakeFields(tokens: seq<string>) returns (r: Result<Command, OriginateError>)
    ensures r == FromTokens(tokens)
  {
    var args := tokens;
    var first: Option<string>;
    first, args := TakeFirst(args);
    if first.None? {
      return Err(ParseError);
    }
    var endpoint := Endpoints.Parse(first.value);
    if endpoint.Err? {
      return Err(endpoint.error);
    }
    first, args := TakeFirst(args);
    if first.None? {
      return Err(ParseError);
    }
    var app := Unquote(first.value);
    assert args == tokens[2..];
    var dialplan := if args != [] then Applications.ParseDialplan(args[0]) else None;
    if dialplan.Some? {
      first, args := TakeFirst(args);
    }
    var apps := Applications.ParseApplicationList(app, dialplan);
    if apps.Err? {
      return Err(apps.error);
    }
    assert args == tokens[if dialplan.Some? then 3 else 2..];
    r := TakeOptionalFields(args, endpoint.value, apps.value, dialplan);
  }

  lemma NthOfRest(ts: seq<string>, k: nat)
    ensures Nth(if ts == [] then [] else ts[1..], k) == Nth(ts, k + 1)
  {
  }

  method TakeOptionalFields(tokens: seq<string>, endpoint: Endpoints.Endpoint, apps: seq<Applications.Application>,
                            dialplan: Option<Applications.Dialplan>) returns (r: Result<Command, OriginateError>)
    ensures r == Assemble(endpoint, apps, dialplan, tokens)
  {
    var context, args := TakeFirst(tokens);
    NthOfRest(tokens, 0);
    NthOfRest(tokens, 1);
    NthOfRest(tokens, 2);
    var cidName, cidNum, timeout;
    NthOfRest(args, 0);
    NthOfRest(args, 1);
    cidName, args := TakeFirst(args);
    NthOfRest(args, 0);
    cidNum, args := TakeFirst(args);
    timeout, args := TakeFirst(args);
    var o := Command(endpoint, apps, dialplan, context, cidName, cidNum, None);
    if timeout.None? {
      return Ok(o);
    }
    var n := ParseUnsigned(timeout.value, 0xFFFF_FFFF);
    r := if n.None? then Err(ParseError) else Ok(o.(timeout := Some(n.value)));
  }

  // ---- Which commands are read back ----

  /** The command with its endpoint as the parser can see it. */
  function Generalized(o: Command): Command {
    o.(endpoint := Endpoints.Generalized(o.endpoint))
  }

  predicate GoodField(field: Option<string>) {
    field.Some? ==> GoodToken(field.value, ' ')
  }

  /** The optional fields are tokens, leave no gap, and do not start with a
      dialplan name of their own. */
  predicate FieldsFit(o: Command) {
    && GoodField(o.context) && GoodField(o.cidName) && GoodField(o.cidNum)
    && (o.cidName.Some? ==> o.context.Some?)
    && (o.cidNum.Some? ==> o.cidName.Some?)
    && (o.timeout.Some? ==> o.cidNum.Some?)
    && (o.dialplan.None? && o.context.Some? ==> Applications.ParseDialplan(o.context.value).None?)
  }

  predicate AppsFit(o: Command) {
    match AppsText(o)
    case Err(_) => false
    case Ok(a) =>
      && Applications.Printable(o.applications, Applications.Effective(o.dialplan))
      && GoodToken(Quote(a), ' ')
      && (' ' in a || !Wrapped(a))
  }

  predicate EndpointFits(e: Endpoints.Endpoint) {
    Endpoints.Printable(e) && GoodToken(Endpoints.Display(e), ' ')
  }

  predicate WellFormed(o: Command) {
    EndpointFits(o.endpoint) && AppsFit(o) && FieldsFit(o)
  }

  lemma WordStarts(w: string, j: string)
    ensures w <= w + [' '] + j && (w + [' '] + j)[|w|..] == [' '] + j
  {
    var s := w + [' '] + j;
    assert s[..|w|] == w;
  }

  /** The command word and the white space around the line change nothing. */
  lemma ParseOfPrinted(text: string, j: string)
    requires text == WORD + [' '] + j
    ensures Parse(text).Ok? ==> Split(j, ' ').Ok?
    ensures Split(j, ' ').Ok? ==> Parse(text) == FromTokens(Split(j, ' ').value)
  {
    WordStarts(WORD, j);
    StripOfFront(' ', j);
    SplitOfStrip(j, ' ');
  }

  lemma {:induction false} NoQuoteNoToggle(s: string, escaped: bool, quoted: bool)
    requires '\'' !in s
    ensures QuotedAfter(s, escaped, quoted) == quoted
  {
    if s != "" {
      NoQuoteNoToggle(s[1..], s[0] == '\\', quoted);
    }
  }

  lemma PlainIsGood(s: string)
    requires s != "" && ' ' !in s && '\'' !in s && Stripped(s)
    ensures GoodToken(s, ' ')
  {
    NoQuoteNoToggle(s, false, false);
    Applications.NoSeparatorIsWhole(s, ' ', false, false, true);
  }

  lemma DialplanIsPlain(d: Applications.Dialplan)
    ensures Applications.PlainWord(Applications.DialplanText(d))
  {
    var s := Applications.DialplanText(d);
    assert s[0] == 'i' || s[0] == 'X';
    PlainIsGood(s);
    assert Ink(s[1..]) >= 1;
  }

  lemma DecimalIsGood(n: nat)
    ensures GoodToken(Decimal(n), ' ')
  {
    var s := Decimal(n);
    assert forall i | 0 <= i < |s| :: IsDigit(s[i]);
    PlainIsGood(s);
  }

  lemma FieldsAreGood(o: Command)
    requires FieldsFit(o)
    ensures forall t | t in Fields(o) :: GoodToken(t, ' ')
  {
    if o.dialplan.Some? {
      DialplanIsPlain(o.dialplan.value);
    }
    if o.timeout.Some? {
      DecimalIsGood(o.timeout.value);
    }
  }

  function FieldsAfterDialplan(o: Command): seq<string> {
    Given(o.context) + Given(o.cidName) + Given(o.cidNum) + TimeoutField(o.timeout)
  }

  /** Fields that leave no gap are read back into their places. */
  lemma AssembleFields(o: Command)
    requires FieldsFit(o)
    ensures Assemble(o.endpoint, o.applications, o.dialplan, FieldsAfterDialplan(o)) == Ok(o)
  {
    if o.timeout.Some? {
      ParseOfDecimal(o.timeout.value, 0xFFFF_FFFF);
      assert FieldsAfterDialplan(o) ==
        [o.context.value, o.cidName.value, o.cidNum.value, Decimal(o.timeout.value)];
    } else if o.cidNum.Some? {
      assert FieldsAfterDialplan(o) == [o.context.value, o.cidName.value, o.cidNum.value];
    } else if o.cidName.Some? {
      assert FieldsAfterDialplan(o) == [o.context.value, o.cidName.value];
    } else if o.context.Some? {
      assert FieldsAfterDialplan(o) == [o.context.value];
    }
  }

  lemma DialplanPosition(o: Command, e: string, q: string, args: seq<string>)
    requires FieldsFit(o) && args == [e, q] + Fields(o)
    ensures (if |args| > 2 then Applications.ParseDialplan(args[2]) else None) == o.dialplan
    ensures args[if o.dialplan.Some? then 3 else 2..] == FieldsAfterDialplan(o)
  {
    var rest := FieldsAfterDialplan(o);
    if o.dialplan.Some? {
      var d := o.dialplan.value;
      Applications.ParseDialplanExactly(Applications.DialplanText(d), d);
      assert args == [e, q, Applications.DialplanText(d)] + rest;
    } else {
      assert args == [e, q] + rest;
      assert rest != [] ==> rest[0] == o.context.value;
    }
  }

  lemma FromGoodTokens(o: Command, a: string, args: seq<string>)
    requires WellFormed(o) && AppsText(o) == Ok(a)
    requires args == [Endpoints.Display(o.endpoint), Quote(a)] + Fields(o)
    ensures FromTokens(args) == Ok(Generalized(o))
  {
    Endpoints.RoundTripExactly(o.endpoint);
    UnquoteOfQuote(a);
    Applications.RoundTripExactly(o.applications, o.dialplan);
    DialplanPosition(o, Endpoints.Display(o.endpoint), Quote(a), args);
    AssembleFields(Generalized(o));
    assert FieldsAfterDialplan(Generalized(o)) == FieldsAfterDialplan(o);
  }

  lemma WellFormedReadsBack(o: Command, text: string)
    requires WellFormed(o) && Display(o) == Ok(text)
    ensures Parse(text) == Ok(Generalized(o))
  {
    var a := AppsText(o).value;
    var args := [Endpoints.Display(o.endpoint), Quote(a)] + Fields(o);
    FieldsAreGood(o);
    SplitOfJoin(args, ' ');
    ParseOfPrinted(text, Join(args, ' '));
    FromGoodTokens(o, a, args);
  }

  // ---- Only those commands ----

  lemma FirstTokenIsPrefix(line: string)
    requires line != "" && !IsWs(line[0]) && Split(line, ' ').Ok?
    ensures Split(line, ' ').value != [] && Split(line, ' ').value[0] <= line
  {
    var c := [line[0]];
    assert "" + c == c && line == c + line[1..];
    assert Split(line, ' ') == Scan(line[1..], ' ', line[0] == '\\', c, Toggle(line[0], false, false));
    FirstTokenStarts(line[1..], ' ', line[0] == '\\', c, Toggle(line[0], false, false));
  }

  /** Fields read from good tokens leave no gap and are good. */
  lemma FieldsFitIfRead(args: seq<string>, o: Command)
    requires FromTokens(args) == Ok(o) && forall t | t in args :: GoodToken(t, ' ')
    ensures FieldsFit(o)
  {
    var rest := args[if o.dialplan.Some? then 3 else 2..];
    assert forall i | 0 <= i < |rest| :: rest[i] in args;
  }

  /** The variables of a printed endpoint start the line, so they start its first
      token. */
  lemma VariablesStartToken(g: Endpoints.Endpoint, j: string)
    requires g.Generic? && Endpoints.Written(g.variables).Some? && Endpoints.Display(g) <= j && Split(j, ' ').Ok?
    ensures Split(j, ' ').value != [] && Split(j, ' ').value[0] <= j
  {
    assert Endpoints.Display(g) != "" && j[0] == Endpoints.Display(g)[0] && !IsWs(j[0]);
    FirstTokenIsPrefix(j);
  }

  /** The endpoint that is read was printed as the first token, and it fits. */
  lemma EndpointFitsIfRead(e: Endpoints.Endpoint, j: string, rest: string, token: string)
    requires j == Endpoints.Display(e) + ([' '] + rest) && Split(j, ' ').Ok?
    requires Split(j, ' ').value != [] && token == Split(j, ' ').value[0] && GoodToken(token, ' ')
    requires Endpoints.Parse(token) == Ok(Endpoints.Generalized(e))
    ensures EndpointFits(e)
  {
    var g := Endpoints.Generalized(e);
    Endpoints.DisplayOfGeneralized(e);
    if g.variables.Some? {
      VariablesStartToken(g, j);
    }
    Endpoints.TokenIsDisplay(token, j, g);
    Endpoints.RoundTripExactly(e);
  }

  /** A list of fields with a space in front of each. */
  function Tail(fs: seq<string>): string {
    if fs == [] then "" else [' '] + Join(fs, ' ')
  }

  lemma TailStep(fs: seq<string>)
    requires fs != []
    ensures Tail(fs) == [' '] + fs[0] + Tail(fs[1..])
  {
  }

  lemma JoinAsTail(e: string, q: string, fs: seq<string>)
    ensures Join([e, q] + fs, ' ') == e + ([' '] + (q + Tail(fs)))
  {
    assert ([e, q] + fs)[1..] == [q] + fs;
    assert ([q] + fs)[1..] == fs;
    assert Join([q] + fs, ' ') == q + Tail(fs);
  }

  /** The applications that are read were printed as the second token, and they
      fit. */
  lemma AppsFitIfRead(o: Command, a: string, token: string)
    requires AppsText(o) == Ok(a) && GoodToken(token, ' ')
    requires Applications.FirstIs(Quote(a) + Tail(Fields(o)), token)
    requires Applications.Parse(Unquote(token), o.dialplan) == Ok(o.applications)
    ensures AppsFit(o)
  {
    var fs := Fields(o);
    if o.dialplan == Some(Applications.Inline) {
      var word := Applications.DialplanText(Applications.Inline);
      assert fs[0] == word;
      TailStep(fs);
      DialplanIsPlain(Applications.Inline);
      Applications.InlineToken(o.applications, a, word, Tail(fs[1..]), token);
    } else {
      var app := o.applications[0];
      assert o.applications == [app];
      Applications.XmlToken(app, o.dialplan, Tail(fs), token);
    }
    UnquoteOfQuote(a);
    Applications.RoundTripExactly(o.applications, o.dialplan);
  }

  lemma FromTokensParts(args: seq<string>, o: Command)
    requires FromTokens(args) == Ok(o)
    ensures |args| >= 2 && Endpoints.Parse(args[0]) == Ok(o.endpoint)
    ensures Applications.Parse(Unquote(args[1]), o.dialplan) == Ok(o.applications)
  {
  }

  lemma WellFormedIfTokens(o: Command, a: string, j: string, args: seq<string>)
    requires AppsText(o) == Ok(a)
    requires j == Endpoints.Display(o.endpoint) + ([' '] + (Quote(a) + Tail(Fields(o))))
    requires Split(j, ' ') == Ok(args) && FromTokens(args) == Ok(Generalized(o))
    ensures WellFormed(o)
  {
    var r := Quote(a) + Tail(Fields(o));
    ScanYieldsGood(j, ' ', "");
    FromTokensParts(args, Generalized(o));
    FieldsFitIfRead(args, Generalized(o));
    EndpointFitsIfRead(o.endpoint, j, r, args[0]);
    SplitFirst(Endpoints.Display(o.endpoint), [' '] + r, ' ');
    assert ([' '] + r)[1..] == r;
    AppsFitIfRead(o, a, args[1]);
  }

  lemma WellFormedIfReadBack(o: Command, text: string)
    requires Display(o) == Ok(text) && Parse(text) == Ok(Generalized(o))
    ensures WellFormed(o)
  {
    var a := AppsText(o).value;
    var j := Endpoints.Display(o.endpoint) + ([' '] + (Quote(a) + Tail(Fields(o))));
    JoinAsTail(Endpoints.Display(o.endpoint), Quote(a), Fields(o));
    ParseOfPrinted(text, j);
    WellFormedIfTokens(o, a, j, Split(j, ' ').value);
  }

  /** Reading a printed command gives the command back, its endpoint as a plain
      dial string, exactly when the command is well formed. */
  lemma RoundTripExactly(o: Command, text: string)
    requires Display(o) == Ok(text)
    ensures Parse(text) == Ok(Generalized(o)) <==> WellFormed(o)
  {
    if WellFormed(o) {
      WellFormedReadsBack(o, text);
    } else if Parse(text) == Ok(Generalized(o)) {
      WellFormedIfReadBack(o, text);
    }
  }

  lemma DisplayOfGeneralized(o: Command)
    ensures Display(Generalized(o)) == Display(o) && Generalized(Generalized(o)) == Generalized(o)
  {
    Endpoints.DisplayOfGeneralized(o.endpoint);
  }

  /** The command itself comes back exactly when, in addition, its endpoint is a
      plain dial string whose variables, if any, are not an empty set. */
  lemma IdentityExactly(o: Command, text: string)
    requires Display(o) == Ok(text)
    ensures Parse(text) == Ok(o) <==> WellFormed(o) && Generalized(o) == o
  {
    RoundTripExactly(o, text);
    if Parse(text) == Ok(o) {
      ParsedIsGeneral(text);
    }
  }

  lemma ParsedIsGeneral(text: string)
    requires Parse(text).Ok?
    ensures Generalized(Parse(text).value) == Parse(text).value
  {
    FromTokensParts(Split(Strip(AfterWord(text)), ' ').value, Parse(text).value);
  }

  /** Every well-formed command, whatever its endpoint, prints the same text
      again after it was read. */
  lemma PrintsTheSameAgain(o: Command, text: string)
    requires Display(o) == Ok(text) && WellFormed(o)
    ensures Parse(text).Ok? && Display(Parse(text).value) == Ok(text)
  {
    RoundTripExactly(o, text);
    DisplayOfGeneralized(o);
  }
}
