/** Application lists: `&name(args)` for the XML dialplan, comma-separated
    `name:args` for the inline one. */
module Applications {
  import opened Text
  import opened Chars
  import opened Tokenizer

  datatype Application = Application(name: string, args: Option<string>)

  datatype Dialplan = Inline | Xml

  function DialplanText(d: Dialplan): string {
    match d
    case Inline => "inline"
    case Xml => "XML"
  }

  /** `DialplanType::from_str`, with every failure alike. */
  function ParseDialplan(s: string): Option<Dialplan> {
    if s == "inline" then Some(Inline)
    else if s == "XML" then Some(Xml)
    else None
  }

  lemma ParseDialplanExactly(s: string, d: Dialplan)
    ensures ParseDialplan(s) == Some(d) <==> s == DialplanText(d)
  {
    assert "inline"[0] != "XML"[0];
  }

  /** Without a dialplan the XML form is used. */
  function Effective(d: Option<Dialplan>): Dialplan {
    if d.Some? then d.value else Xml
  }

  function ArgsText(app: Application): string {
    if app.args.Some? then app.args.value else ""
  }

  function AppText(app: Application, d: Dialplan): string {
    match d
    case Inline => app.name + [':'] + ArgsText(app)
    case Xml => ['&'] + app.name + ['('] + ArgsText(app) + [')']
  }

  function InlineTexts(apps: seq<Application>): (r: seq<string>)
    ensures |r| == |apps|
    ensures forall i | 0 <= i < |apps| :: r[i] == AppText(apps[i], Inline)
  {
    if apps == [] then [] else [AppText(apps[0], Inline)] + InlineTexts(apps[1..])
  }

  /** `ApplicationList::to_string_with_dialplan`. */
  function Display(apps: seq<Application>, d: Dialplan): Result<string, OriginateError> {
    match d
    case Inline => Ok(Join(InlineTexts(apps), ','))
    case Xml => if |apps| != 1 then Err(TooManyApplications) else Ok(AppText(apps[0], Xml))
  }

  function ParseInline(parts: seq<string>): Result<seq<Application>, OriginateError> {
    if parts == [] then Ok([])
    else
      match IndexOf(parts[0], ':')
      case None => Err(ParseError)
      case Some(i) =>
        match ParseInline(parts[1..])
        case Err(e) => Err(e)
        case Ok(apps) => Ok([Application(parts[0][..i], Some(parts[0][i + 1..]))] + apps)
  }

  /** The text between `&` and `)`. */
  function ParseXml(inside: string): Result<seq<Application>, OriginateError> {
    match IndexOf(inside, '(')
    case None => Err(ParseError)
    case Some(i) =>
      var args := inside[i + 1..];
      Ok([Application(inside[..i], if args == "" then None else Some(args))])
  }

  /** `parse_application_list`. */
  function Parse(s: string, d: Option<Dialplan>): Result<seq<Application>, OriginateError> {
    if d == Some(Inline) then
      match Split(s, ',')
      case Err(e) => Err(e)
      case Ok(parts) => ParseInline(parts)
    else if s != "" && s[0] == '&' then
      if |s| >= 2 && s[|s| - 1] == ')' then ParseXml(s[1..|s| - 1]) else Err(ParseError)
    else Ok([Application(s, None)])
  }

  lemma ParseInlineFrom(parts: seq<string>, k: nat)
    requires k < |parts|
    ensures ParseInline(parts[k..]) ==
      match IndexOf(parts[k], ':')
      case None => Err(ParseError)
      case Some(i) =>
        match ParseInline(parts[k + 1..])
        case Err(e) => Err(e)
        case Ok(apps) => Ok([Application(parts[k][..i], Some(parts[k][i + 1..]))] + apps)
  {
    assert parts[k..][1..] == parts[k + 1..];
  }

  predicate Continues(whole: Result<seq<Application>, OriginateError>, done: seq<Application>,
                      rest: Result<seq<Application>, OriginateError>) {
    whole == match rest case Err(e) => Err(e) case Ok(apps) => Ok(done + apps)
  }

  lemma ContinuesLaws(whole: Result<seq<Application>, OriginateError>, done: seq<Application>,
                      app: Application, rest: Result<seq<Application>, OriginateError>)
    ensures Continues(whole, [], whole)
    ensures rest.Ok? && Continues(whole, done, Ok([app] + rest.value)) ==> Continues(whole, done + [app], rest)
    ensures rest.Err? && Continues(whole, done, Err(rest.error)) ==> Continues(whole, done + [app], rest)
  {
    if whole.Ok? {
      assert [] + whole.value == whole.value;
    }
    if rest.Ok? {
      assert done + ([app] + rest.value) == (done + [app]) + rest.value;
    }
  }

  /** Parsing as it runs, pushing the inline applications one by one. */
  method ParseApplicationList(s: string, d: Option<Dialplan>) returns (r: Result<seq<Application>, OriginateError>)
    ensures r == Parse(s, d)
  {
    if d != Some(Inline) {
      if s == "" || s[0] != '&' {
        return Ok([Application(s, None)]);
      }
      var rest := s[1..];
      if rest == "" || rest[|rest| - 1] != ')' {
        return Err(ParseError);
      }
      rest := rest[..|rest| - 1];
      assert rest == s[1..|s| - 1];
      var open := IndexOf(rest, '(');
      if open.None? {
        return Err(ParseError);
      }
      var (name, args) := (rest[..open.value], rest[open.value + 1..]);
      return Ok([Application(name, if args == "" then None else Some(args))]);
    }
    var split := OriginateSplit(s, ',');
    if split.Err? {
      return Err(split.error);
    }
    var parts := split.value;
    var apps: seq<Application> := [];
    assert parts[0..] == parts;
    ContinuesLaws(ParseInline(parts), [], Application("", None), Ok([]));
    for k := 0 to |parts|
      invariant Continues(ParseInline(parts), apps, ParseInline(parts[k..]))
    {
      ParseInlineFrom(parts, k);
      var part := parts[k];
      var i := IndexOf(part, ':');
      if i.None? {
        return Err(ParseError);
      }
      var app := Application(part[..i.value], Some(part[i.value + 1..]));
      ContinuesLaws(ParseInline(parts), apps, app, ParseInline(parts[k + 1..]));
      apps := apps + [app];
    }
    assert parts[|parts|..] == [];
    assert apps + [] == apps;
    r := Ok(apps);
  }

  // ---- Round trip ----

  predicate InlineFits(app: Application) {
    app.args.Some? && ':' !in app.name && GoodToken(AppText(app, Inline), ',')
  }

  predicate XmlFits(app: Application) {
    '(' !in app.name && app.args != Some("")
  }

  predicate Printable(apps: seq<Application>, d: Dialplan) {
    match d
    case Inline => forall app | app in apps :: InlineFits(app)
    case Xml => |apps| == 1 && XmlFits(apps[0])
  }

  predicate Named(app: Application) {
    app.args.Some? && ':' !in app.name
  }

  lemma PartIsText(p: string, i: nat)
    requires IndexOf(p, ':') == Some(i)
    ensures AppText(Application(p[..i], Some(p[i + 1..])), Inline) == p
    ensures Named(Application(p[..i], Some(p[i + 1..])))
  {
    assert p == p[..i] + [':'] + p[i + 1..];
  }

  lemma TextIsPart(app: Application)
    requires Named(app)
    ensures var t := AppText(app, Inline);
      && IndexOf(t, ':') == Some(|app.name|)
      && app == Application(t[..|app.name|], Some(t[|app.name| + 1..]))
  {
    IndexOfSplit(app.name, ':', ArgsText(app));
    assert AppText(app, Inline)[|app.name| + 1..] == app.args.value;
  }

  lemma InlineTextsCons(app: Application, apps: seq<Application>)
    ensures InlineTexts([app] + apps) == [AppText(app, Inline)] + InlineTexts(apps)
  {
    assert ([app] + apps)[1..] == apps;
  }

  lemma ParseInlineCons(t: string, i: nat, ts: seq<string>, apps: seq<Application>)
    requires IndexOf(t, ':') == Some(i) && ParseInline(ts) == Ok(apps)
    ensures ParseInline([t] + ts) == Ok([Application(t[..i], Some(t[i + 1..]))] + apps)
  {
    assert ([t] + ts)[1..] == ts;
  }

  lemma {:induction false} InlineOfTexts(apps: seq<Application>)
    requires forall i | 0 <= i < |apps| :: Named(apps[i])
    ensures ParseInline(InlineTexts(apps)) == Ok(apps)
  {
    if apps != [] {
      var app, rest := apps[0], apps[1..];
      TextIsPart(app);
      InlineOfTexts(rest);
      ParseInlineCons(AppText(app, Inline), |app.name|, InlineTexts(rest), rest);
      assert apps == [app] + rest;
      InlineTextsCons(app, rest);
    }
  }

  lemma {:induction false} TextsOfInline(parts: seq<string>, apps: seq<Application>)
    requires ParseInline(parts) == Ok(apps)
    ensures InlineTexts(apps) == parts
    ensures forall i | 0 <= i < |apps| :: Named(apps[i])
  {
    if parts != [] {
      var i := IndexOf(parts[0], ':').value;
      var app, rest := Application(parts[0][..i], Some(parts[0][i + 1..])), ParseInline(parts[1..]).value;
      TextsOfInline(parts[1..], rest);
      PartIsText(parts[0], i);
      InlineTextsCons(app, rest);
      assert parts == [parts[0]] + parts[1..];
    }
  }

  /** Whatever is read as an inline list prints back as its own parts. */
  lemma InlineIsNormal(s: string, apps: seq<Application>)
    requires Parse(s, Some(Inline)) == Ok(apps)
    ensures Split(s, ',') == Ok(InlineTexts(apps)) && Printable(apps, Inline)
  {
    var parts := Split(s, ',').value;
    TextsOfInline(parts, apps);
    ScanYieldsGood(s, ',', "");
    forall app | app in apps ensures InlineFits(app) {
      var i :| 0 <= i < |apps| && apps[i] == app;
      assert parts[i] in parts && Named(apps[i]);
    }
  }

  lemma XmlRoundTrip(app: Application, d: Option<Dialplan>)
    requires d != Some(Inline)
    ensures Parse(AppText(app, Xml), d) == Ok([app]) <==> XmlFits(app)
  {
    var s := AppText(app, Xml);
    var inside := app.name + ['('] + ArgsText(app);
    assert s[1..|s| - 1] == inside;
    assert inside[|app.name|] == '(' && inside[..|app.name|] == app.name;
    if '(' !in app.name {
      IndexOfSplit(app.name, '(', ArgsText(app));
      assert inside[|app.name| + 1..] == ArgsText(app);
    }
  }

  /** Reading back a printed list gives the list exactly when it is printable:
      in XML form a single application without an opening parenthesis in its
      name and without empty arguments; in inline form applications that have
      arguments, no colon in the name, and a text that is one token. */
  lemma RoundTripExactly(apps: seq<Application>, d: Option<Dialplan>)
    ensures Display(apps, Effective(d)).Ok? && Parse(Display(apps, Effective(d)).value, d) == Ok(apps) <==>
      Printable(apps, Effective(d))
  {
    if d == Some(Inline) {
      var s := Join(InlineTexts(apps), ',');
      if Parse(s, d) == Ok(apps) {
        InlineIsNormal(s, apps);
      } else if Printable(apps, Inline) {
        SplitOfInlineTexts(apps);
        forall i | 0 <= i < |apps| ensures Named(apps[i]) {
          assert InlineFits(apps[i]);
        }
        InlineOfTexts(apps);
        assert false;
      }
    } else if |apps| == 1 {
      XmlRoundTrip(apps[0], d);
      assert apps == [apps[0]];
    }
  }

  lemma SplitOfInlineTexts(apps: seq<Application>)
    requires Printable(apps, Inline)
    ensures Split(Join(InlineTexts(apps), ','), ',') == Ok(InlineTexts(apps))
  {
    var ts := InlineTexts(apps);
    forall t | t in ts ensures GoodToken(t, ',') {
      var i :| 0 <= i < |ts| && ts[i] == t;
      assert apps[i] in apps;
    }
    SplitOfJoin(ts, ',');
  }

  // ---- The list as one token of a command ----

  lemma {:induction false} NoSeparatorIsWhole(s: string, sep: char, escaped: bool, quoted: bool, blank: bool)
    requires sep !in s
    ensures Whole(s, sep, escaped, quoted, blank)
  {
    if s != "" {
      NoSeparatorIsWhole(s[1..], sep, s[0] == '\\', Toggle(s[0], escaped, quoted), blank && IsWs(s[0]));
    }
  }

  /** A token that reads as one XML application and starts with its printed form
      is its printed form. */
  lemma XmlTokenIsText(token: string, app: Application, d: Option<Dialplan>)
    requires d != Some(Inline) && AppText(app, Xml) <= token && Parse(token, d) == Ok([app])
    ensures token == AppText(app, Xml)
  {
    var inside := token[1..|token| - 1];
    var i := IndexOf(inside, '(').value;
    assert |inside[..i]| == |app.name| && |inside[i + 1..]| == |ArgsText(app)|;
  }

  /** The first token of a line. */
  predicate FirstIs(line: string, token: string) {
    match Split(line, ' ')
    case Err(_) => false
    case Ok(ts) => ts != [] && ts[0] == token
  }

  lemma FirstIsGood(t: string, rest: string, token: string)
    requires GoodToken(t, ' ') && EndsToken(rest, ' ')
    requires FirstIs(t + rest, token)
    ensures token == t
  {
    SplitFirst(t, rest, ' ');
  }

  /** In an originate command, the token after the endpoint that reads as an XML
      list is the quoted text of that list. */
  lemma XmlToken(app: Application, d: Option<Dialplan>, tail: string, token: string)
    requires d != Some(Inline) && EndsToken(tail, ' ')
    requires FirstIs(Quote(AppText(app, Xml)) + tail, token)
    requires Parse(Unquote(token), d) == Ok([app])
    ensures token == Quote(AppText(app, Xml)) && !Wrapped(AppText(app, Xml))
  {
    var a := AppText(app, Xml);
    assert a[0] == '&' && a[|a| - 1] == ')';
    if ' ' in a {
      QuoteIsGoodExactly(a);
      FirstIsGood(Quote(a), tail, token);
    } else {
      NoSeparatorIsWhole(a, ' ', false, false, true);
      FirstStartsWithWhole(a, tail, token);
      XmlTokenIsText(token, app, d);
    }
  }

  lemma {:induction false} JoinIsBalanced(ts: seq<string>, sep: char)
    requires sep != '\\' && sep != '\'' && ts != [] && AllGood(ts, sep)
    ensures !QuotedAfter(Join(ts, sep), false, false)
    ensures Join(ts, sep) != "" && Stripped(Join(ts, sep))
  {
    var t := ts[0];
    AllGoodRest(ts, sep);
    if |ts| > 1 {
      var j := Join(ts[1..], sep);
      JoinIsBalanced(ts[1..], sep);
      AfterConcat(t, [sep] + j, false, false);
      assert ([sep] + j)[1..] == j;
      assert Join(ts, sep) == t + ([sep] + j);
    }
  }

  lemma {:induction false} EscapeNone(s: string, c: char)
    requires c !in s
    ensures Escape(s, c) == s
  {
    if s != "" {
      EscapeNone(s[1..], c);
      assert s == [s[0]] + s[1..];
    }
  }

  lemma {:induction false} InkOfEscape(s: string, c: char)
    ensures Ink(Escape(s, c)) >= Ink(s)
  {
    if s != "" {
      var head := if s[0] == c then ['\\', c] else [s[0]];
      InkOfEscape(s[1..], c);
      InkConcat(head, Escape(s[1..], c));
      assert Ink(head) >= Ink([s[0]]) by {
        InkConcat(['\\'], [c]);
        assert ['\\', c] == ['\\'] + [c];
      }
      InkConcat([s[0]], s[1..]);
      assert s == [s[0]] + s[1..];
    }
  }

  /** Quoted text whose closing quote is escaped is still open at its end. */
  lemma QuoteStaysOpen(a: string, q: string)
    requires ' ' in a && a[|a| - 1] == '\\' && q == Quote(a)
    ensures Whole(q, ' ', false, false, true) && QuotedAfter(q, false, false) && !EscapedAfter(q, false)
  {
    var e, c := Escape(a, '\''), ['\''];
    EscapeLast(a, '\'');
    EscapedStaysQuoted(a, ' ', false);
    WholeOfOne('\'', ' ', false, false, true);
    WholeOfOne('\'', ' ', true, true, false);
    WholeConcat(c, e, ' ', false, false, true);
    AfterConcat(c, e, false, false);
    WholeConcat(c + e, c, ' ', false, false, true);
    AfterConcat(c + e, c, false, false);
    assert (c + e)[0] == '\'';
  }

  lemma OpenOverWord(q: string, w: string)
    requires Whole(q, ' ', false, false, true) && QuotedAfter(q, false, false) && !EscapedAfter(q, false)
    requires '\'' !in w && q != "" && !IsWs(q[0])
    ensures Whole(q + w, ' ', false, false, true) && QuotedAfter(q + w, false, false)
  {
    NoQuoteStaysOpen(w, ' ', false);
    WholeConcat(q, w, ' ', false, false, true);
    AfterConcat(q, w, false, false);
  }

  /** A token starts with whatever text is not split in front of it. */
  lemma FirstStartsWithWhole(p: string, tail: string, token: string)
    requires Whole(p, ' ', false, false, true) && p != "" && Stripped(p)
    requires FirstIs(p + tail, token)
    ensures p <= token
  {
    ScanWhole(p, tail, ' ', false, "", false);
    assert "" + p == p;
    FirstTokenStarts(tail, ' ', EscapedAfter(p, false), p, QuotedAfter(p, false, false));
  }

  /** So the token that starts with it runs on over the next word. */
  lemma OpenQuoteRunsOn(q: string, w: string, tail: string, token: string)
    requires Whole(q, ' ', false, false, true) && QuotedAfter(q, false, false) && !EscapedAfter(q, false)
    requires '\'' !in w && w != "" && !IsWs(w[|w| - 1]) && q != "" && !IsWs(q[0])
    requires FirstIs(q + (w + tail), token)
    ensures q + w <= token
  {
    OpenOverWord(q, w);
    assert q + (w + tail) == (q + w) + tail;
    FirstStartsWithWhole(q + w, tail, token);
  }

  lemma {:induction false} NoQuoteStaysOpen(s: string, sep: char, escaped: bool)
    requires '\'' !in s
    ensures Whole(s, sep, escaped, true, false) && QuotedAfter(s, escaped, true)
  {
    if s != "" {
      NoQuoteStaysOpen(s[1..], sep, s[0] == '\\');
    }
  }

  lemma EscapeOfOpen(a0: string, w: string)
    requires '\'' !in w
    ensures Escape(a0 + ['\''] + w, '\'') == Escape(a0 + ['\\'], '\'') + ['\''] + w
  {
    EscapeConcat(a0, ['\\'], '\'');
    EscapeConcat(a0, ['\''], '\'');
    EscapeConcat(a0 + ['\''], w, '\'');
    EscapeNone(w, '\'');
    EscapeNone(['\\'], '\'');
    assert Escape(['\''], '\'') == ['\\', '\''];
    assert Escape(a0, '\'') + ['\\', '\''] == Escape(a0, '\'') + ['\\'] + ['\''];
  }

  /** The escaped closing quote reads as a quote in place of the last backslash. */
  lemma WrappedReadsMore(a0: string, w: string, y: string)
    requires '\'' !in w && w != "" && w[|w| - 1] != '\\'
    ensures Ink(Unescape(Escape(a0 + ['\\'], '\'') + ['\''] + w + y, '\'')) >= Ink(a0 + ['\\']) + Ink(w)
  {
    var u := a0 + ['\''] + w;
    EscapeOfOpen(a0, w);
    UnescapeOfEscaped(u, y, '\'');
    InkConcat(u, Unescape(y, '\''));
    InkConcat(a0 + ['\''], w);
    InkConcat(a0, ['\'']);
    InkConcat(a0, ['\\']);
  }

  lemma UnwrappedReadsMore(a: string, e: string, w: string, y: string)
    requires e == Escape(a, '\'')
    ensures Ink(['\''] + e + ['\''] + w + y) >= Ink(a) + Ink(w)
  {
    InkConcat(['\''] + e + ['\''] + w, y);
    InkConcat(['\''] + e + ['\''], w);
    InkConcat(['\''] + e, ['\'']);
    InkConcat(['\''], e);
    InkOfEscape(a, '\'');
  }

  lemma InsideQuotes(token: string, e: string, w: string, y: string)
    requires token == ['\''] + e + ['\''] + w + y
    requires w != "" && w[|w| - 1] != '\'' && Wrapped(token)
    ensures y != "" && token[1..|token| - 1] == e + ['\''] + w + y[..|y| - 1]
  {
    var front := ['\''] + e + ['\''] + w;
    assert front[|front| - 1] == w[|w| - 1];
    assert front + "" == front;
  }

  lemma UnquoteOfWrapped(token: string, inner: string)
    requires Wrapped(token) && token[1..|token| - 1] == inner
    ensures Unquote(token) == Unescape(inner, '\'')
  {
  }

  /** Such a token is read as more than the text that was quoted. */
  lemma OpenQuoteReadsMore(token: string, a: string, e: string, w: string, y: string)
    requires token == ['\''] + e + ['\''] + w + y && e == Escape(a, '\'')
    requires a != "" && a[|a| - 1] == '\\'
    requires '\'' !in w && w != "" && w[|w| - 1] != '\\'
    ensures Ink(Unquote(token)) >= Ink(a) + Ink(w)
  {
    if Wrapped(token) {
      InsideQuotes(token, e, w, y);
      UnquoteOfWrapped(token, e + ['\''] + w + y[..|y| - 1]);
      WrappedToken(a, a[..|a| - 1], e, w, y[..|y| - 1]);
    } else {
      UnwrappedReadsMore(a, e, w, y);
    }
  }

  lemma WrappedToken(a: string, a0: string, e: string, w: string, y: string)
    requires a == a0 + ['\\'] && e == Escape(a, '\'')
    requires '\'' !in w && w != "" && w[|w| - 1] != '\\'
    ensures Ink(Unescape(e + ['\''] + w + y, '\'')) >= Ink(a) + Ink(w)
  {
    WrappedReadsMore(a0, w, y);
  }

  lemma InlineTextsAreGood(s: string, apps: seq<Application>)
    requires Parse(s, Some(Inline)) == Ok(apps)
    ensures AllGood(InlineTexts(apps), ',')
    ensures Ink(Join(InlineTexts(apps), ',')) + 1 >= Ink(s)
    ensures |Join(InlineTexts(apps), ',')| <= |s|
  {
    InlineIsNormal(s, apps);
    ScanYieldsGood(s, ',', "");
    JoinOfSplit(s, ',', false, "", false);
    assert "" + s == s;
  }

  /** A word that cannot be taken for the end of a quoted text. */
  predicate PlainWord(word: string) {
    GoodToken(word, ' ') && '\'' !in word && '\\' !in word && Ink(word) >= 2
  }

  /** In an originate command, the token after the endpoint that reads as an
      inline list is the quoted text of that list, and did not look quoted
      already. */
  lemma InlineToken(apps: seq<Application>, a: string, word: string, tail: string, token: string)
    requires a == Join(InlineTexts(apps), ',') && PlainWord(word) && EndsToken(tail, ' ')
    requires FirstIs(Quote(a) + ([' '] + word + tail), token)
    requires Parse(Unquote(token), Some(Inline)) == Ok(apps)
    ensures token == Quote(a) && GoodToken(token, ' ') && (' ' in a || !Wrapped(a))
  {
    var w := [' '] + word;
    InlineTextsAreGood(Unquote(token), apps);
    if apps == [] {
      NoListToken(word, tail, token);
    } else if ' ' !in a {
      UnquotedToken(InlineTexts(apps), a, w + tail, token);
    } else if a[|a| - 1] != '\\' {
      QuoteIsGoodExactly(a);
      FirstIsGood(Quote(a), w + tail, token);
    } else {
      EndsInBackslash(a, w, tail, token);
      InkConcat([' '], word);
    }
  }

  lemma UnquotedToken(ts: seq<string>, a: string, rest: string, token: string)
    requires a == Join(ts, ',') && ts != [] && ' ' !in a && AllGood(ts, ',')
    requires FirstIs(a + rest, token) && EndsToken(rest, ' ') && |a| <= |Unquote(token)|
    ensures token == a && GoodToken(token, ' ') && !Wrapped(a)
  {
    JoinIsBalanced(ts, ',');
    NoSeparatorIsWhole(a, ' ', false, false, true);
    FirstIsGood(a, rest, token);
  }

  lemma EndsInBackslash(a: string, w: string, tail: string, token: string)
    requires ' ' in a && a[|a| - 1] == '\\'
    requires '\'' !in w && '\\' !in w && w != "" && !IsWs(w[|w| - 1])
    requires FirstIs(Quote(a) + (w + tail), token)
    ensures Ink(Unquote(token)) >= Ink(a) + Ink(w)
  {
    QuoteStaysOpen(a, Quote(a));
    OpenQuoteRunsOn(Quote(a), w, tail, token);
    var y := token[|Quote(a) + w|..];
    assert token == Quote(a) + w + y;
    OpenQuoteReadsMore(token, a, Escape(a, '\''), w, y);
  }

  lemma NoListToken(word: string, tail: string, token: string)
    requires PlainWord(word) && EndsToken(tail, ' ')
    requires FirstIs(Quote("") + ([' '] + word + tail), token)
    ensures Ink(Unquote(token)) >= 2
  {
    var s := word + tail;
    assert Quote("") + ([' '] + word + tail) == [' '] + s && ([' '] + s)[1..] == s;
    ScanAfterWs(s, ' ', false, ' ', "", false);
    assert [' '] + "" == [' '] && "" + [' '] == [' '];
    FirstIsGood(word, tail, token);
  }
}
