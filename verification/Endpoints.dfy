/** Dial targets of an originate command, with their variables in front. */
module Endpoints {
  import opened Text
  import opened Chars
  import opened Tokenizer
  import Variables

  type VarSet = Variables.VarSet

  datatype Endpoint =
    | Generic(uri: string, variables: Option<VarSet>)
    | Loopback(uri: string, context: string, variables: Option<VarSet>)
    | SofiaGateway(uri: string, profile: Option<string>, gateway: string, variables: Option<VarSet>)

  /** The dial string without the variables. */
  function Target(e: Endpoint): string {
    match e
    case Generic(uri, _) => uri
    case Loopback(uri, context, _) => "loopback/" + uri + "/" + context
    case SofiaGateway(uri, Some(profile), gateway, _) => "sofia/gateway/" + profile + "::" + gateway + "/" + uri
    case SofiaGateway(uri, None, gateway, _) => "sofia/gateway/" + gateway + "/" + uri
  }

  /** An empty set of variables is not written. */
  function Written(vars: Option<VarSet>): Option<VarSet> {
    if vars.Some? && vars.value.inner == [] then None else vars
  }

  function Display(e: Endpoint): string {
    match Written(e.variables)
    case None => Target(e)
    case Some(vs) => Variables.Display(vs) + Target(e)
  }

  /** `Endpoint::from_str`. */
  function Parse(s: string): Result<Endpoint, OriginateError> {
    if '{' !in s then Ok(Generic(s, None))
    else
      match IndexOf(s, '}')
      case None => Err(ParseError)
      case Some(close) =>
        match Variables.Parse(s[..close + 1])
        case Err(e) => Err(e)
        case Ok(vs) => Ok(Generic(Strip(s[close + 1..]), Written(Some(vs))))
  }

  /** The endpoint as the parser can see it: a dial string and what variables
      were written. */
  function Generalized(e: Endpoint): Endpoint {
    Generic(Target(e), Written(e.variables))
  }

  lemma DisplayOfGeneralized(e: Endpoint)
    ensures Display(Generalized(e)) == Display(e)
    ensures Generalized(Generalized(e)) == Generalized(e)
  {
  }

  predicate Without(s: string, c: char) {
    c !in s
  }

  /** The character is in no name and no value. */
  predicate Lacks(es: seq<(string, string)>, c: char) {
    forall e | e in es :: Without(e.0, c) && Without(e.1, c)
  }

  /** What an endpoint needs to be read back. */
  predicate Printable(e: Endpoint) {
    match Written(e.variables)
    case None => '{' !in Target(e)
    case Some(vs) =>
      && vs.scope.Default?
      && Variables.Printable(vs.inner)
      && Lacks(vs.inner, '}')
      && Stripped(Target(e))
  }

  // ---- Where the variables end ----

  lemma {:induction false} UnescapeAddsNothing(s: string, c: char)
    ensures forall d | d in Unescape(s, c) :: d in s
    decreases |s|
  {
    if |s| >= 2 {
      if s[0] == '\\' && s[1] == c {
        UnescapeAddsNothing(s[2..], c);
      } else {
        UnescapeAddsNothing(s[1..], c);
      }
    }
  }

  lemma UnescapeValueAddsNothing(s: string)
    ensures forall d | d in Variables.UnescapeValue(s) :: d in s
  {
    var inner := if Wrapped(s) then s[1..|s| - 1] else s;
    UnescapeAddsNothing(inner, ',');
    UnescapeAddsNothing(Unescape(inner, ','), '\'');
  }

  lemma {:induction false} PartsAddNothing(rest: string, escaped: bool, part: string, c: char)
    requires c !in rest && c !in part
    ensures AllLack(Variables.SplitCommas(rest, escaped, part), c)
    decreases |rest|
  {
    if rest == "" {
    } else if rest[0] == ',' && !escaped {
      PartsAddNothing(rest[1..], false, "", c);
    } else {
      PartsAddNothing(rest[1..], rest[0] == '\\', part + [rest[0]], c);
    }
  }

  lemma InsertedLacks(found: Variables.Entries, p: string, c: char)
    requires Lacks(found, c) && c !in p && Variables.ParsePart(p).Some?
    ensures var e := Variables.ParsePart(p).value; Lacks(Variables.Inserted(found, e.0, e.1), c)
  {
    var i := IndexOf(p, '=').value;
    UnescapeValueAddsNothing(p[i + 1..]);
    EntryLacks(p[..i], Variables.UnescapeValue(p[i + 1..]), p, c);
  }

  lemma EntryLacks(k: string, v: string, p: string, c: char)
    requires c !in p && (forall d | d in k :: d in p) && (forall d | d in v :: d in p)
    ensures c !in k && c !in v
  {
  }

  predicate AllLack(parts: seq<string>, c: char) {
    forall p | p in parts :: Without(p, c)
  }

  lemma AllLackRest(parts: seq<string>, c: char)
    requires parts != [] && AllLack(parts, c)
    ensures Without(parts[0], c) && AllLack(parts[1..], c)
  {
    assert parts[0] in parts;
    assert forall p | p in parts[1..] :: p in parts;
  }

  lemma {:induction false} ParsePartsAddsNothing(parts: seq<string>, found: Variables.Entries, c: char,
                                                 es: Variables.Entries)
    requires Variables.ParseParts(parts, found) == Ok(es)
    requires AllLack(parts, c) && Lacks(found, c)
    ensures Lacks(es, c)
  {
    if parts != [] {
      AllLackRest(parts, c);
      InsertedLacks(found, parts[0], c);
      var e := Variables.ParsePart(parts[0]).value;
      ParsePartsAddsNothing(parts[1..], Variables.Inserted(found, e.0, e.1), c, es);
    }
  }

  lemma {:induction false} StripIsSuffix(s: string) returns (k: nat)
    requires s != "" && !IsWs(s[|s| - 1])
    ensures k < |s| && Strip(s) == s[k..]
  {
    k := 0;
    if IsWs(s[0]) {
      k := StripIsSuffix(s[1..]);
      assert s[1..][k..] == s[k + 1..];
      k := k + 1;
    }
  }

  lemma InnerAddsNothing(inner: string, es: Variables.Entries, c: char)
    requires Variables.ParseParts(Variables.SplitCommas(inner, false, ""), []) == Ok(es) && c !in inner
    ensures Lacks(es, c)
  {
    PartsAddNothing(inner, false, "", c);
    ParsePartsAddsNothing(Variables.SplitCommas(inner, false, ""), [], c, es);
  }

  lemma ParsedInner(s: string, t: string, vs: VarSet)
    requires Variables.Parse(s) == Ok(vs) && t == Strip(s)
    ensures |t| >= 2
    ensures Variables.ParseParts(Variables.SplitCommas(t[1..|t| - 1], false, ""), []) == Ok(vs.inner)
  {
  }

  lemma SuffixLacks(s: string, c: char, k: nat)
    requires k + 1 < |s| && c !in s[..|s| - 1]
    ensures c !in s[k..][1..|s| - k - 1]
  {
    assert s[k..][1..|s| - k - 1] == s[..|s| - 1][k + 1..];
  }

  lemma LacksBeforeFirst(s: string, c: char)
    requires IndexOf(s, c) == Some(|s| - 1)
    ensures c !in s[..|s| - 1] && s[|s| - 1] == c
  {
  }

  /** Trimming a text that ends at its first `c` leaves no `c` before the end. */
  lemma InnerLacks(s: string, c: char, t: string)
    requires IndexOf(s, c) == Some(|s| - 1) && !IsWs(c) && t == Strip(s) && |t| >= 2
    ensures t[|t| - 1] == c && c !in t[1..|t| - 1]
  {
    LacksBeforeFirst(s, c);
    var k := StripIsSuffix(s);
    SuffixLacks(s, c, k);
  }

  lemma ParsedScope(s: string, t: string, vs: VarSet)
    requires Variables.Parse(s) == Ok(vs) && t == Strip(s)
    ensures |t| >= 2 && vs.inner != [] && (t[|t| - 1] == '}' ==> vs.scope.Default?)
  {
  }

  /** What a block that ends at its first closing brace can say. */
  lemma ParsedLacksBrace(s: string, vs: VarSet)
    requires IndexOf(s, '}') == Some(|s| - 1) && Variables.Parse(s) == Ok(vs)
    ensures Lacks(vs.inner, '}') && vs.scope.Default? && vs.inner != []
  {
    var t := Strip(s);
    ParsedScope(s, t, vs);
    InnerLacks(s, '}', t);
    ParsedInner(s, t, vs);
    InnerAddsNothing(t[1..|t| - 1], vs.inner, '}');
  }

  lemma EscapeValueAddsNoBrace(v: string)
    requires '}' !in v
    ensures '}' !in Variables.EscapeValue(v)
  {
    EscapeHas(v, '\'', '}');
    EscapeHas(Escape(v, '\''), ',', '}');
  }

  lemma {:induction false} PrintedLacksBrace(es: seq<(string, string)>)
    requires Lacks(es, '}')
    ensures '}' !in Join(Variables.Printed(es), ',')
  {
    if es != [] {
      assert es[0] in es;
      EscapeValueAddsNoBrace(es[0].1);
      PrintedLacksBrace(es[1..]);
      assert Variables.Printed(es)[1..] == Variables.Printed(es[1..]);
    }
  }

  /** The first closing brace of a printed block is its last character. */
  lemma BlockEndsAtBrace(vs: VarSet, rest: string)
    requires vs.scope.Default? && Lacks(vs.inner, '}')
    ensures |Variables.Display(vs)| >= 2
    ensures IndexOf(Variables.Display(vs) + rest, '}') == Some(|Variables.Display(vs)| - 1)
  {
    var d := Variables.Display(vs);
    PrintedLacksBrace(vs.inner);
    assert d[..|d| - 1] + ['}'] + rest == d + rest;
    IndexOfSplit(d[..|d| - 1], '}', rest);
  }

  lemma ParsedShape(s: string, uri: string, vs: VarSet)
    requires Parse(s) == Ok(Generic(uri, Some(vs)))
    ensures IndexOf(s, '}').Some?
    ensures Variables.Parse(s[..IndexOf(s, '}').value + 1]) == Ok(vs)
    ensures uri == Strip(s[IndexOf(s, '}').value + 1..])
  {
  }

  lemma CutAtBrace(s: string, close: nat)
    requires IndexOf(s, '}') == Some(close)
    ensures IndexOf(s[..close + 1], '}') == Some(close)
  {
    IndexOfSplit(s[..close], '}', "");
    assert s[..close] + ['}'] + "" == s[..close + 1];
  }

  /** What a successful parse with variables says about the text. */
  lemma ParsedBlock(s: string, uri: string, vs: VarSet) returns (close: nat)
    requires Parse(s) == Ok(Generic(uri, Some(vs)))
    ensures IndexOf(s, '}') == Some(close) && Variables.Parse(s[..close + 1]) == Ok(vs)
    ensures uri == Strip(s[close + 1..])
    ensures vs.scope.Default? && Lacks(vs.inner, '}') && vs.inner != []
  {
    ParsedShape(s, uri, vs);
    close := IndexOf(s, '}').value;
    CutAtBrace(s, close);
    ParsedLacksBrace(s[..close + 1], vs);
  }

  lemma FirstBraceOfPrefix(p: string, s: string)
    requires p <= s && IndexOf(p, '}').Some?
    ensures IndexOf(s, '}') == IndexOf(p, '}')
  {
    var i := IndexOf(p, '}').value;
    assert s == s[..i] + ['}'] + s[i + 1..];
    IndexOfSplit(s[..i], '}', s[i + 1..]);
  }

  // ---- Round trip ----

  /** Parsing a printed endpoint gives its general form exactly when: without
      variables, the dial string has no opening brace; with variables, they are
      of the default scope, print back, hold no closing brace, and the dial
      string is unchanged by trimming. */
  lemma RoundTripExactly(e: Endpoint)
    ensures Parse(Display(e)) == Ok(Generalized(e)) <==> Printable(e)
  {
    if Written(e.variables).Some? {
      BlockRoundTrip(Written(e.variables).value, Target(e));
    }
  }

  /** Variables of any other scope, such as `[a=b]`, are not read back. */
  lemma ChannelScopeExample(e: Endpoint)
    requires e == Generic("u", Some(Variables.VarSet(Variables.Channel, [("a", "b")])))
    ensures Generalized(e) == e && Parse(Display(e)) != Ok(e)
  {
    RoundTripExactly(e);
  }

  lemma BlockRoundTrip(vs: VarSet, uri: string)
    requires vs.inner != []
    ensures Parse(Variables.Display(vs) + uri) == Ok(Generic(uri, Some(vs))) <==>
      vs.scope.Default? && Variables.Printable(vs.inner) && Lacks(vs.inner, '}') && Stripped(uri)
  {
    var d := Variables.Display(vs);
    var s := d + uri;
    Variables.RoundTripExactly(vs);
    assert s[..|d|] == d && s[|d|..] == uri;
    if vs.scope.Default? && Lacks(vs.inner, '}') {
      BlockEndsAtBrace(vs, uri);
      assert s[0] == '{';
    }
    if Parse(s) == Ok(Generic(uri, Some(vs))) {
      var close := ParsedBlock(s, uri, vs);
    }
  }

  /** A token that parses to an endpoint, and that starts the same line as the
      printed endpoint does, is the printed endpoint. */
  lemma TokenIsDisplay(token: string, line: string, e: Endpoint)
    requires Parse(token) == Ok(e) && Stripped(token)
    requires e.variables.Some? ==> token <= line && Display(e) <= line
    ensures token == Display(e)
  {
    ParsedDisplay(token, e);
    if e.variables.Some? {
      BlockTokenIsDisplay(token, line, e.uri, e.variables.value);
    }
  }

  /** What is read is a dial string, with a variable set only if it was written. */
  lemma ParsedDisplay(token: string, e: Endpoint)
    requires Parse(token) == Ok(e)
    ensures e == Generic(e.uri, e.variables)
    ensures Display(e) == if e.variables.Some? then Variables.Display(e.variables.value) + e.uri else token
  {
  }

  lemma BlockTokenIsDisplay(token: string, line: string, uri: string, vs: VarSet)
    requires Parse(token) == Ok(Generic(uri, Some(vs))) && Stripped(token)
    requires token <= line && Variables.Display(vs) + uri <= line
    ensures token == Variables.Display(vs) + uri
  {
    var d := Variables.Display(vs);
    var close := ParsedBlock(token, uri, vs);
    BlockEndsAtBrace(vs, uri);
    FirstBraceOfPrefix(token, line);
    FirstBraceOfPrefix(d + uri, line);
    RestIsSame(token, d, uri, line);
  }

  lemma RestIsSame(token: string, d: string, uri: string, line: string)
    requires |d| <= |token| && token <= line && d + uri <= line
    requires uri == Strip(token[|d|..]) && Stripped(token)
    ensures token == d + uri
  {
    var y, tail := token[|d|..], line[|d|..];
    assert token == line[..|token|] && y == tail[..|y|];
    assert d + uri == line[..|d + uri|] && (d + uri)[|d|..] == uri;
    assert uri == tail[..|uri|];
    SuffixUnchanged(y, uri);
    assert token == line[..|d| + |uri|];
  }

  lemma SuffixUnchanged(y: string, uri: string)
    requires uri == Strip(y) && (y <= uri || uri <= y)
    requires y == "" || !IsWs(y[|y| - 1])
    ensures y == uri
  {
    if y != "" {
      var k := StripIsSuffix(y);
      if k > 0 {
        assert uri[0] == y[0];
        StripIsSuffixWs(y);
      }
    }
  }

  lemma StripIsSuffixWs(y: string)
    requires y != "" && !IsWs(y[0]) && !IsWs(y[|y| - 1])
    ensures Strip(y) == y
  {
  }
}
