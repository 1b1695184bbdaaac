/** The words of a printed originate command, one by one. */
module OriginateText {
  import opened Text
  import opened Chars
  import opened Tokenizer
  import Applications
  import Endpoints
  import Originate

  // ---- Applications ----

  /** The text of one application of the XML dialplan: an ampersand, the name up to
      the first parenthesis, and the arguments up to the last character. */
  predicate SaysXml(text: string, app: Applications.Application) {
    && |text| >= 3 && text[0] == '&' && text[|text| - 1] == ')'
    && IndexOf(text[1..], '(') == Some(|app.name|) && text[1..][..|app.name|] == app.name
    && text[1..|text| - 1][|app.name| + 1..] == (if app.args.Some? then app.args.value else "")
  }

  lemma XmlText(app: Applications.Application)
    requires '(' !in app.name
    ensures SaysXml(Applications.AppText(app, Applications.Xml), app)
  {
    var args := Applications.ArgsText(app);
    var text := Applications.AppText(app, Applications.Xml);
    assert text[1..] == app.name + ['('] + (args + [')']);
    IndexOfSplit(app.name, '(', args + [')']);
    assert text[1..|text| - 1] == app.name + ['('] + args;
  }

  /** The text of inline applications: comma-separated, each a name up to the first
      colon and its arguments. */
  predicate SaysInline(text: string, apps: seq<Applications.Application>) {
    match Split(text, ',')
    case Err(_) => false
    case Ok(parts) =>
      |parts| == |apps| &&
      forall i | 0 <= i < |apps| :: apps[i].args.Some? && parts[i] == apps[i].name + ":" + apps[i].args.value
  }

  lemma InlineText(apps: seq<Applications.Application>)
    requires Applications.Printable(apps, Applications.Inline)
    ensures SaysInline(Join(Applications.InlineTexts(apps), ','), apps)
  {
    var ts := Applications.InlineTexts(apps);
    forall i | 0 <= i < |ts| ensures GoodToken(ts[i], ',') {
      assert Applications.InlineFits(apps[i]);
    }
    SplitOfJoin(ts, ',');
    forall i | 0 <= i < |apps| ensures apps[i].args.Some? && ts[i] == apps[i].name + ":" + apps[i].args.value {
      assert Applications.InlineFits(apps[i]);
    }
  }

  /** What the applications are in the notation of the command's dialplan; without
      one this is the XML dialplan. */
  predicate SaysApplications(text: string, o: Originate.Command) {
    if o.dialplan == Some(Applications.Inline) then SaysInline(text, o.applications)
    else |o.applications| == 1 && SaysXml(text, o.applications[0])
  }

  // ---- The line ----


  /** The words behind the applications: the dialplan if there is one, then context,
      caller id name, caller id number and timeout, as far as they are given. */
  predicate FieldsAt(ws: seq<string>, o: Originate.Command) {
    var k := if o.dialplan.Some? then 4 else 3;
    && |ws| == k + (if o.context.Some? then 1 else 0) + (if o.cidName.Some? then 1 else 0) +
               (if o.cidNum.Some? then 1 else 0) + (if o.timeout.Some? then 1 else 0)
    && (o.dialplan == Some(Applications.Inline) ==> ws[3] == "inline")
    && (o.dialplan == Some(Applications.Xml) ==> ws[3] == "XML")
    && (o.context.Some? ==> |ws| > k && ws[k] == o.context.value)
    && (o.cidName.Some? ==> |ws| > k + 1 && ws[k + 1] == o.cidName.value)
    && (o.cidNum.Some? ==> |ws| > k + 2 && ws[k + 2] == o.cidNum.value)
    && (o.timeout.Some? ==> |ws| > k + 3 && ws[k + 3] == Decimal(o.timeout.value))
  }

  lemma FieldsInOrder(o: Originate.Command, e: string, q: string)
    requires Originate.FieldsFit(o)
    ensures FieldsAt(["originate", e, q] + Originate.Fields(o), o)
  {
    var d := Originate.DialplanField(o.dialplan);
    var rest := Originate.FieldsAfterDialplan(o);
    assert Originate.Fields(o) == d + rest;
    PlacesOf(o);
  }

  lemma PlacesOf(o: Originate.Command)
    requires Originate.FieldsFit(o)
    ensures var rest := Originate.FieldsAfterDialplan(o);
      && |rest| == (if o.context.Some? then 1 else 0) + (if o.cidName.Some? then 1 else 0) +
                   (if o.cidNum.Some? then 1 else 0) + (if o.timeout.Some? then 1 else 0)
      && (o.context.Some? ==> |rest| > 0 && rest[0] == o.context.value)
      && (o.cidName.Some? ==> |rest| > 1 && rest[1] == o.cidName.value)
      && (o.cidNum.Some? ==> |rest| > 2 && rest[2] == o.cidNum.value)
      && (o.timeout.Some? ==> |rest| > 3 && rest[3] == Decimal(o.timeout.value))
  {
  }

  lemma JoinWithWord(w: string, ts: seq<string>)
    requires ts != []
    ensures w + [' '] + Join(ts, ' ') == Join([w] + ts, ' ')
  {
    assert ([w] + ts)[1..] == ts;
  }

  lemma WordIsGood()
    ensures GoodToken("originate", ' ')
  {
    Originate.PlainIsGood("originate");
  }

  lemma LineSplits(o: Originate.Command, text: string, a: string)
    requires Originate.WellFormed(o) && Originate.Display(o) == Ok(text) && Originate.AppsText(o) == Ok(a)
    ensures Split(text, ' ') == Ok(["originate", Endpoints.Display(o.endpoint), Quote(a)] + Originate.Fields(o))
  {
    var ts := [Endpoints.Display(o.endpoint), Quote(a)] + Originate.Fields(o);
    JoinWithWord("originate", ts);
    Originate.FieldsAreGood(o);
    WordIsGood();
    assert ["originate"] + ts == ["originate", Endpoints.Display(o.endpoint), Quote(a)] + Originate.Fields(o);
    SplitOfJoin(["originate"] + ts, ' ');
  }

  lemma ApplicationsSaid(o: Originate.Command, a: string)
    requires Originate.AppsFit(o) && Originate.AppsText(o) == Ok(a)
    ensures SaysApplications(a, o) && Unquote(Quote(a)) == a
  {
    UnquoteOfQuote(a);
    if o.dialplan == Some(Applications.Inline) {
      InlineText(o.applications);
    } else {
      XmlText(o.applications[0]);
    }
  }

  /** A printed command is, word by word: its name, the endpoint, the applications in
      quotes if they hold a space, and the fields that are given, in their order. */
  lemma PrintedWords(o: Originate.Command, text: string) returns (ws: seq<string>)
    requires Originate.WellFormed(o) && Originate.Display(o) == Ok(text)
    ensures Split(text, ' ') == Ok(ws) && |ws| >= 3
    ensures ws[0] == "originate" && ws[1] == Endpoints.Display(o.endpoint)
    ensures SaysApplications(Unquote(ws[2]), o) && FieldsAt(ws, o)
  {
    var a := Originate.AppsText(o).value;
    ws := ["originate", Endpoints.Display(o.endpoint), Quote(a)] + Originate.Fields(o);
    LineSplits(o, text, a);
    ApplicationsSaid(o, a);
    FieldsInOrder(o, Endpoints.Display(o.endpoint), Quote(a));
    FirstWords("originate", Endpoints.Display(o.endpoint), Quote(a), Originate.Fields(o));
  }

  lemma FirstWords(w: string, e: string, q: string, fs: seq<string>)
    ensures var ws := [w, e, q] + fs; ws[0] == w && ws[1] == e && ws[2] == q
  {
  }
}
