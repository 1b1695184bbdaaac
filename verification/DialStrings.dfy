/** Dial strings of printed endpoints: how another reader takes them apart. */
module DialStrings {
  import opened Text
  import opened Endpoints
  import Variables

  const LOOPBACK := "loopback/"
  const GATEWAY := "sofia/gateway/"
  const QUALIFIER := "::"

  /** What is left of a printed endpoint behind its variables. */
  function DialString(e: Endpoint): string {
    match Written(e.variables)
    case None => Display(e)
    case Some(vs) =>
      VariablesInFront(e, vs);
      Display(e)[|Variables.Display(vs)|..]
  }

  lemma VariablesInFront(e: Endpoint, vs: VarSet)
    requires Written(e.variables) == Some(vs)
    ensures Variables.Display(vs) <= Display(e)
  {
    assert Display(e)[..|Variables.Display(vs)|] == Variables.Display(vs);
  }

  // ---- A reader of dial strings ----

  datatype Dialed =
    | ToLoopback(destination: string, context: string)
    | ToGateway(profile: Option<string>, gateway: string, destination: string)

  /** Up to the first slash is the gateway, qualified by a profile if it has a double
      colon; behind the slash is the destination. */
  function ReadGateway(s: string): Option<Dialed> {
    match IndexOf(s, '/')
    case None => None
    case Some(i) =>
      var middle := s[..i];
      match Find(middle, QUALIFIER)
      case None => Some(ToGateway(None, middle, s[i + 1..]))
      case Some(k) => Some(ToGateway(Some(middle[..k]), middle[k + 2..], s[i + 1..]))
  }

  function LastIndexOf(s: string, c: char): (r: Option<nat>)
    ensures r.Some? ==> r.value < |s| && s[r.value] == c && c !in s[r.value + 1..]
    ensures r.None? ==> c !in s
  {
    if s == "" then None
    else if s[|s| - 1] == c then Some(|s| - 1)
    else LastIndexOf(s[..|s| - 1], c)
  }

  /** Behind the last slash is the context. */
  function ReadLoopback(s: string): Option<Dialed> {
    match LastIndexOf(s, '/')
    case None => None
    case Some(i) => Some(ToLoopback(s[..i], s[i + 1..]))
  }

  function ReadDialString(s: string): Option<Dialed> {
    if GATEWAY <= s then ReadGateway(s[|GATEWAY|..])
    else if LOOPBACK <= s then ReadLoopback(s[|LOOPBACK|..])
    else None
  }

  // ---- What it reads ----

  lemma TargetOf(e: Endpoint)
    ensures DialString(e) == Target(e)
  {
    if Written(e.variables).Some? {
      var d := Variables.Display(Written(e.variables).value);
      assert (d + Target(e))[|d|..] == Target(e);
    }
  }

  lemma Heads(s: string)
    ensures var t := "sofia/gateway/" + s; GATEWAY <= t && t[|GATEWAY|..] == s
    ensures var t := "loopback/" + s; LOOPBACK <= t && t[|LOOPBACK|..] == s && !(GATEWAY <= t)
  {
    assert ("sofia/gateway/" + s)[..14] == "sofia/gateway/";
    assert ("loopback/" + s)[..9] == "loopback/";
    assert ("loopback/" + s)[0] == 'l' && GATEWAY[0] == 's';
  }

  lemma FirstSlash(a: string, b: string)
    ensures var s := a + ['/'] + b;
      IndexOf(s, '/').Some? && (IndexOf(s, '/') == Some(|a|) <==> '/' !in a)
    ensures var s := a + ['/'] + b; s[..|a|] == a && s[|a| + 1..] == b
  {
    var s := a + ['/'] + b;
    assert s[|a|] == '/';
    if '/' !in a {
      IndexOfSplit(a, '/', b);
    } else {
      var j :| 0 <= j < |a| && a[j] == '/';
      assert s[j] == '/';
    }
  }

  lemma LastSlash(a: string, b: string)
    ensures var s := a + ['/'] + b; LastIndexOf(s, '/') == Some(|a|) <==> '/' !in b
    ensures var s := a + ['/'] + b; LastIndexOf(s, '/').Some? && s[..|a|] == a && s[|a| + 1..] == b
  {
    var s := a + ['/'] + b;
    assert s[|a|] == '/';
    var r := LastIndexOf(s, '/').value;
    assert forall j | r < j < |s| :: s[j] == s[r + 1..][j - r - 1];
    if r > |a| {
      assert b[r - |a| - 1] == '/';
    } else {
      assert s[r + 1..] == b;
    }
  }

  /** The first double colon of the text is the one between the parts. */
  predicate Qualifies(profile: string) {
    Find(profile + ":", QUALIFIER).None?
  }

  lemma DoubleColonAt(s: string, j: nat)
    ensures IsAt(s, QUALIFIER, j) <==> j + 2 <= |s| && s[j] == ':' && s[j + 1] == ':'
  {
    if j + 2 <= |s| {
      assert s[j..j + 2] == [s[j], s[j + 1]];
    }
  }

  lemma FirstQualifier(a: string, b: string)
    ensures var s := a + "::" + b; Find(s, QUALIFIER) == Some(|a|) <==> Qualifies(a)
    ensures var s := a + "::" + b; Find(s, QUALIFIER).Some? && s[..|a|] == a && s[|a| + 2..] == b
  {
    var s, t := a + "::" + b, a + ":";
    assert forall j | 0 <= j < |t| :: s[j] == t[j];
    DoubleColonAt(s, |a|);
    assert IsAt(s, QUALIFIER, |a|);
    forall j: nat | j < |a| ensures IsAt(s, QUALIFIER, j) <==> IsAt(t, QUALIFIER, j) {
      DoubleColonAt(s, j);
      DoubleColonAt(t, j);
    }
    if !Qualifies(a) {
      var j := Find(t, QUALIFIER).value;
      assert j < |a| && IsAt(s, QUALIFIER, j);
    } else {
      assert forall j: nat | j < |a| :: !IsAt(t, QUALIFIER, j);
      FindIsFirst(s, QUALIFIER, |a|);
    }
  }

  /** The gateway cannot be mistaken for something else. */
  predicate PlainGateway(profile: Option<string>, gateway: string) {
    match profile
    case None => '/' !in gateway && Find(gateway, QUALIFIER).None?
    case Some(p) => '/' !in p && '/' !in gateway && Qualifies(p)
  }

  lemma GatewayReads(profile: Option<string>, gateway: string, uri: string)
    ensures var middle := if profile.Some? then profile.value + "::" + gateway else gateway;
      ReadGateway(middle + ['/'] + uri) == Some(ToGateway(profile, gateway, uri)) <==> PlainGateway(profile, gateway)
  {
    var middle := if profile.Some? then profile.value + "::" + gateway else gateway;
    var s := middle + ['/'] + uri;
    FirstSlash(middle, uri);
    var i := IndexOf(s, '/').value;
    if profile.Some? {
      FirstQualifier(profile.value, gateway);
      SlashInMiddle(profile.value, gateway);
    }
    if i == |middle| && profile.Some? {
      var k := Find(middle, QUALIFIER).value;
      assert |middle[..k]| == k;
    } else if i != |middle| {
      assert |s[i + 1..]| != |uri|;
    }
  }

  lemma SlashInMiddle(p: string, g: string)
    ensures '/' !in p + "::" + g <==> '/' !in p && '/' !in g
  {
    var s := p + "::" + g;
    assert forall i | 0 <= i < |p| :: s[i] == p[i];
    assert forall i | 0 <= i < |g| :: s[|p| + 2 + i] == g[i];
  }

  /** A printed gateway endpoint dials its own destination through its own gateway
      and profile, whatever its variables, exactly when these names hold no slash and
      no double colon of their own. */
  lemma GatewayDialsExactly(e: Endpoint)
    requires e.SofiaGateway?
    ensures ReadDialString(DialString(e)) == Some(ToGateway(e.profile, e.gateway, e.uri)) <==>
      PlainGateway(e.profile, e.gateway)
  {
    TargetOf(e);
    var middle := if e.profile.Some? then e.profile.value + "::" + e.gateway else e.gateway;
    assert Target(e) == "sofia/gateway/" + (middle + ['/'] + e.uri);
    Heads(middle + ['/'] + e.uri);
    GatewayReads(e.profile, e.gateway, e.uri);
  }

  /** A printed loopback endpoint dials its own destination in its own context
      exactly when the context holds no slash. */
  lemma LoopbackDialsExactly(e: Endpoint)
    requires e.Loopback?
    ensures ReadDialString(DialString(e)) == Some(ToLoopback(e.uri, e.context)) <==> '/' !in e.context
  {
    TargetOf(e);
    assert Target(e) == "loopback/" + (e.uri + ['/'] + e.context);
    Heads(e.uri + ['/'] + e.context);
    LastSlash(e.uri, e.context);
  }

  /** A general endpoint is printed as it was given. */
  lemma GeneralDials(e: Endpoint)
    requires e.Generic?
    ensures DialString(e) == e.uri
  {
    TargetOf(e);
  }
}
