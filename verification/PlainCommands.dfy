/** A class of originate commands that can be recognised field by field, without
    printing them, and that are all read back. */
module PlainCommands {
  import opened Text
  import opened Chars
  import opened Tokenizer
  import Applications
  import Endpoints
  import Originate
  import Variables

  predicate Clear(s: string) {
    ' ' !in s && '\'' !in s
  }

  predicate PlainVariable(e: (string, string)) {
    && Clear(e.0) && ',' !in e.0 && '=' !in e.0 && '}' !in e.0
    && '}' !in e.1 && (e.1 == "" || e.1[|e.1| - 1] != '\\')
  }

  predicate PlainEndpoint(e: Endpoints.Endpoint) {
    var t := Endpoints.Target(e);
    && Clear(t) && Stripped(t)
    && match Endpoints.Written(e.variables)
       case None => t != "" && '{' !in t
       case Some(vs) => vs.scope.Default? && forall v | v in vs.inner :: PlainVariable(v)
  }

  predicate PlainInline(app: Applications.Application) {
    && app.args.Some? && ':' !in app.name
    && var t := Applications.AppText(app, Applications.Inline);
       ',' !in t && '\'' !in t && Stripped(t) && t[|t| - 1] != '\\'
  }

  predicate PlainXml(app: Applications.Application) {
    && Applications.XmlFits(app)
    && var t := Applications.AppText(app, Applications.Xml);
       ' ' in t || '\'' !in t
  }

  predicate PlainApps(apps: seq<Applications.Application>, d: Applications.Dialplan) {
    match d
    case Inline => apps != [] && forall app | app in apps :: PlainInline(app)
    case Xml => |apps| == 1 && PlainXml(apps[0])
  }

  predicate PlainCommand(o: Originate.Command) {
    && PlainEndpoint(o.endpoint)
    && PlainApps(o.applications, Applications.Effective(o.dialplan))
    && Originate.FieldsFit(o)
  }

  // ---- The printed endpoint is one token ----

  /** The text leaves the quotes as they are and is not split outside them. */
  predicate Neutral(s: string) {
    Whole(s, ' ', false, false, false) && !QuotedAfter(s, false, false) && !EscapedAfter(s, false)
  }

  lemma NeutralConcat(a: string, b: string)
    requires Neutral(a) && Neutral(b)
    ensures Neutral(a + b)
  {
    WholeConcat(a, b, ' ', false, false, false);
    AfterConcat(a, b, false, false);
  }

  lemma ClearIsNeutral(s: string)
    requires Clear(s) && (s == "" || s[|s| - 1] != '\\')
    ensures Neutral(s)
  {
    Applications.NoSeparatorIsWhole(s, ' ', false, false, false);
    Originate.NoQuoteNoToggle(s, false, false);
  }

  /** Escaping leaves no quote that opens or closes. */
  lemma {:induction false} EscapesKeepQuotes(v: string, escaped: bool, quoted: bool)
    requires quoted || ' ' !in v
    ensures QuotedAfter(Escape(Escape(v, '\''), ','), escaped, quoted) == quoted
    ensures Whole(Escape(Escape(v, '\''), ','), ' ', escaped, quoted, false)
  {
    if v != "" {
      var head := if v[0] == '\'' then ['\\', '\''] else [v[0]];
      var rest := Escape(v[1..], '\'');
      EscapeConcat(head, rest, ',');
      if v[0] == '\'' {
        assert head[1..] == ['\''] && ['\''][1..] == "";
        assert Escape(head, ',') == ['\\', '\''];
        KeepsAfterTwo('\'', Escape(rest, ','), escaped, quoted);
        EscapesKeepQuotes(v[1..], false, quoted);
      } else {
        assert head[1..] == "";
        if v[0] == ',' {
          assert Escape(head, ',') == ['\\', ','];
          KeepsAfterTwo(',', Escape(rest, ','), escaped, quoted);
          EscapesKeepQuotes(v[1..], false, quoted);
        } else {
          assert Escape(head, ',') == [v[0]];
          assert ([v[0]] + Escape(rest, ','))[1..] == Escape(rest, ',');
          EscapesKeepQuotes(v[1..], v[0] == '\\', quoted);
        }
      }
    }
  }

  lemma KeepsAfterTwo(c: char, rest: string, escaped: bool, quoted: bool)
    requires c != ' ' && c != '\\'
    ensures QuotedAfter(['\\', c] + rest, escaped, quoted) == QuotedAfter(rest, false, quoted)
    ensures Whole(['\\', c] + rest, ' ', escaped, quoted, false) <==> Whole(rest, ' ', false, quoted, false)
  {
    var s := ['\\', c] + rest;
    assert s[1..] == [c] + rest && s[1..][1..] == rest;
  }

  lemma ValueIsNeutral(v: string)
    requires v == "" || v[|v| - 1] != '\\'
    ensures Neutral(Variables.EscapeValue(v))
  {
    var q := Escape(v, '\'');
    var e, c := Escape(q, ','), ['\''];
    EscapeHas(v, '\'', ' ');
    EscapeHas(q, ',', ' ');
    Variables.EscapedValueShape(v);
    if ' ' in v {
      EscapeLast(v, '\'');
      EscapeLast(q, ',');
      EscapesKeepQuotes(v, false, true);
      WholeOfOne('\'', ' ', false, false, false);
      WholeOfOne('\'', ' ', false, true, false);
      WholeConcat(c, e, ' ', false, false, false);
      AfterConcat(c, e, false, false);
      WholeConcat(c + e, c, ' ', false, false, false);
      AfterConcat(c + e, c, false, false);
    } else {
      EscapesKeepQuotes(v, false, false);
    }
  }

  lemma EntryIsNeutral(e: (string, string))
    requires PlainVariable(e)
    ensures Neutral(Variables.Entry(e))
  {
    var name := e.0 + ['='];
    ClearIsNeutral(name);
    ValueIsNeutral(e.1);
    NeutralConcat(name, Variables.EscapeValue(e.1));
  }

  lemma {:induction false} PrintedIsNeutral(es: seq<(string, string)>)
    requires forall e | e in es :: PlainVariable(e)
    ensures Neutral(Join(Variables.Printed(es), ','))
  {
    if es != [] {
      var t, rest := Variables.Entry(es[0]), Variables.Printed(es[1..]);
      assert es[0] in es;
      EntryIsNeutral(es[0]);
      if |es| > 1 {
        PrintedIsNeutral(es[1..]);
        ClearIsNeutral([',']);
        NeutralConcat(t, [',']);
        NeutralConcat(t + [','], Join(rest, ','));
        assert Variables.Printed(es)[1..] == rest;
      }
    }
  }

  lemma {:induction false} NotBlankIsStronger(s: string, escaped: bool, quoted: bool)
    requires Whole(s, ' ', escaped, quoted, false)
    ensures Whole(s, ' ', escaped, quoted, true)
  {
    if s != "" && IsWs(s[0]) {
      NotBlankIsStronger(s[1..], s[0] == '\\', Toggle(s[0], escaped, quoted));
    }
  }

  lemma PlainEndpointFits(e: Endpoints.Endpoint)
    requires PlainEndpoint(e)
    ensures Originate.EndpointFits(e)
  {
    var t := Endpoints.Target(e);
    match Endpoints.Written(e.variables)
    case None =>
      Originate.PlainIsGood(t);
    case Some(vs) =>
      PlainVariablesPrint(vs.inner);
      BlockIsGood(vs, t);
  }

  lemma PlainVariablesPrint(es: seq<(string, string)>)
    requires es != [] && forall e | e in es :: PlainVariable(e)
    ensures Variables.Printable(es) && Endpoints.Lacks(es, '}')
  {
    forall i | 0 <= i < |es| ensures !Variables.Gluing(es[i].1) {
      assert es[i] in es;
    }
  }

  lemma BlockIsGood(vs: Variables.VarSet, t: string)
    requires vs.scope.Default? && forall e | e in vs.inner :: PlainVariable(e)
    requires Clear(t) && Stripped(t)
    ensures GoodToken(Variables.Display(vs) + t, ' ')
  {
    var d := Variables.Display(vs);
    var s := d + t;
    var j := Join(Variables.Printed(vs.inner), ',');
    PrintedIsNeutral(vs.inner);
    ClearIsNeutral(['{']);
    ClearIsNeutral(['}']);
    NeutralConcat(['{'], j);
    NeutralConcat(['{'] + j, ['}']);
    WholeConcat(d, t, ' ', false, false, false);
    AfterConcat(d, t, false, false);
    Applications.NoSeparatorIsWhole(t, ' ', false, false, false);
    Originate.NoQuoteNoToggle(t, false, false);
    NotBlankIsStronger(s, false, false);
    assert s[0] == '{' && (t == "" ==> s == d);
  }

  // ---- The printed applications are one token ----

  lemma PlainInlineFits(app: Applications.Application)
    requires PlainInline(app)
    ensures Applications.InlineFits(app)
  {
    var t := Applications.AppText(app, Applications.Inline);
    Originate.NoQuoteNoToggle(t, false, false);
    Applications.NoSeparatorIsWhole(t, ',', false, false, true);
  }

  lemma {:induction false} JoinOfPlain(apps: seq<Applications.Application>, a: string)
    requires apps != [] && forall app | app in apps :: PlainInline(app)
    requires a == Join(Applications.InlineTexts(apps), ',')
    ensures a != "" && '\'' !in a && a[|a| - 1] != '\\' && Stripped(a)
  {
    var t, rest := Applications.AppText(apps[0], Applications.Inline), apps[1..];
    assert apps[0] in apps;
    if rest != [] {
      var b := Join(Applications.InlineTexts(rest), ',');
      JoinOfPlain(rest, b);
      assert Applications.InlineTexts(apps)[1..] == Applications.InlineTexts(rest);
      assert a == t + [','] + b;
    }
  }

  lemma PlainAppsFit(o: Originate.Command)
    requires PlainApps(o.applications, Applications.Effective(o.dialplan))
    ensures Originate.AppsFit(o)
  {
    var a := Originate.AppsText(o).value;
    if Applications.Effective(o.dialplan).Inline? {
      JoinOfPlain(o.applications, a);
      forall app | app in o.applications ensures Applications.InlineFits(app) {
        PlainInlineFits(app);
      }
    } else {
      assert a[0] == '&' && a[|a| - 1] == ')';
    }
    if ' ' in a {
      QuoteIsGoodExactly(a);
    } else {
      Originate.PlainIsGood(a);
    }
  }

  /** Every plain command is well formed, so it is read back from its printed
      form. */
  lemma PlainReadsBack(o: Originate.Command)
    requires PlainCommand(o)
    ensures Originate.WellFormed(o)
    ensures Originate.Display(o).Ok?
    ensures Originate.Parse(Originate.Display(o).value) == Ok(Originate.Generalized(o))
  {
    PlainEndpointFits(o.endpoint);
    PlainAppsFit(o);
    Originate.RoundTripExactly(o, Originate.Display(o).value);
  }

  lemma ExampleTexts(t: string, a: string)
    requires t == "loopback/1/d" && a == "&park()"
    ensures Clear(t) && Stripped(t) && t != "" && '{' !in t && '\'' !in a
  {
    assert !IsWs(t[0]) && !IsWs(t[|t| - 1]);
  }

  /** A plain command that is read back, but not as it was: its loopback endpoint
      comes back as a plain dial string. */
  lemma LoopbackExample(o: Originate.Command)
    requires o == Originate.Command(Endpoints.Loopback("1", "d", None), [Applications.Application("park", None)],
                                    None, None, None, None, None)
    ensures Originate.Display(o).Ok?
    ensures Originate.Parse(Originate.Display(o).value) ==
      Ok(o.(endpoint := Endpoints.Generic(Endpoints.Target(o.endpoint), None))) != Ok(o)
  {
    var t, a := Endpoints.Target(o.endpoint), Applications.AppText(o.applications[0], Applications.Xml);
    assert t == "loopback/1/d" && a == "&park()";
    ExampleTexts(t, a);
    PlainReadsBack(o);
  }
}
