/** What the parsers of the command languages refuse, and what they read from the
    smallest accepted texts. */
module Refusals {
  import opened Text
  import opened Chars
  import opened Tokenizer
  import Variables
  import Endpoints
  import Applications
  import Originate

  // ---- Variables ----

  /** The text of one and of two variables, in each scope. */
  lemma VariablesText(k: string, v: string, l: string, w: string)
    requires k != l
    ensures var a, b := k + "=" + Variables.EscapeValue(v), l + "=" + Variables.EscapeValue(w);
      && Variables.Display(Variables.VarSet(Variables.Default, [(k, v)])) == "{" + a + "}"
      && Variables.Display(Variables.VarSet(Variables.Enterprise, [(k, v)])) == "<" + a + ">"
      && Variables.Display(Variables.VarSet(Variables.Channel, [(k, v), (l, w)])) == "[" + a + "," + b + "]"
  {
    OnePrinted((k, v));
    OnePrinted((l, w));
    assert [(k, v), (l, w)][1..] == [(l, w)];
    var a, b := Variables.Entry((k, v)), Variables.Entry((l, w));
    assert Join([a], ',') == a;
    assert [a, b][1..] == [b];
    assert Join([a, b], ',') == a + [','] + b;
  }

  lemma OnePrinted(e: (string, string))
    ensures Variables.Printed([e]) == [Variables.Entry(e)]
    ensures Variables.Entry(e) == e.0 + "=" + Variables.EscapeValue(e.1)
  {
    assert [e][1..] == [];
  }

  /** One of the three pairs of delimiters encloses the text. */
  predicate Enclosed(t: string) {
    |t| >= 2 && [t[0], t[|t| - 1]] in ["{}", "<>", "[]"]
  }

  lemma {:induction false} PartsFailExactly(parts: seq<string>, found: Variables.Entries)
    ensures Variables.ParseParts(parts, found).Err? <==> exists p | p in parts :: '=' !in p
    decreases |parts|
  {
    if parts != [] {
      assert parts[0] in parts && forall p | p in parts[1..] :: p in parts;
      assert forall p | p in parts :: p == parts[0] || p in parts[1..];
      var e := Variables.ParsePart(parts[0]);
      if e.Some? {
        PartsFailExactly(parts[1..], Variables.Inserted(found, e.value.0, e.value.1));
      }
    }
  }

  /** A variable block is refused exactly if it is not enclosed in one of the three
      pairs of delimiters or some part between its commas has no equals sign; so an
      empty block is refused too. */
  lemma VariablesFailExactly(s: string)
    ensures var t := Strip(s);
      Variables.Parse(s).Err? <==>
        !Enclosed(t) || exists p | p in Variables.SplitCommas(t[1..|t| - 1], false, "") :: '=' !in p
  {
    var t := Strip(s);
    if Enclosed(t) {
      PartsFailExactly(Variables.SplitCommas(t[1..|t| - 1], false, ""), []);
    }
  }

  // ---- Endpoints ----

  lemma FirstBrace(s: string, i: nat)
    requires i < |s| && s[i] == '}' && '}' !in s[..i]
    ensures IndexOf(s, '}') == Some(i)
  {
    assert forall j | 0 <= j < i :: s[j] == s[..i][j];
  }

  /** An endpoint is refused exactly if it has an opening brace but no closing one,
      or what ends at the first closing brace is no variable block. */
  lemma EndpointFailsExactly(s: string, i: nat)
    ensures '{' !in s ==> Endpoints.Parse(s) == Ok(Endpoints.Generic(s, None))
    ensures '{' in s && '}' !in s ==> Endpoints.Parse(s).Err?
    ensures '{' in s && i < |s| && s[i] == '}' && '}' !in s[..i] ==>
      (Endpoints.Parse(s).Err? <==> Variables.Parse(s[..i + 1]).Err?)
  {
    if i < |s| && s[i] == '}' && '}' !in s[..i] {
      FirstBrace(s, i);
    }
  }

  // ---- Applications ----

  /** In the XML dialplan a text is refused exactly if it starts with an ampersand
      but does not go on to an opening parenthesis and end in a closing one; a text
      without an ampersand is the name of an application. */
  lemma XmlFailsExactly(s: string, d: Option<Applications.Dialplan>)
    requires d != Some(Applications.Inline)
    ensures Applications.Parse(s, d).Err? <==>
      s != "" && s[0] == '&' && (s[|s| - 1] != ')' || '(' !in s)
    ensures s == "" || s[0] != '&' ==> Applications.Parse(s, d) == Ok([Applications.Application(s, None)])
  {
    if s != "" && s[0] == '&' && |s| >= 2 && s[|s| - 1] == ')' {
      var inside := s[1..|s| - 1];
      assert '(' in s <==> '(' in inside by {
        assert forall i | 0 <= i < |inside| :: inside[i] == s[i + 1];
      }
    }
  }

  lemma {:induction false} InlinePartsFailExactly(parts: seq<string>)
    ensures Applications.ParseInline(parts).Err? <==> exists p | p in parts :: ':' !in p
    decreases |parts|
  {
    if parts != [] {
      assert parts[0] in parts && forall p | p in parts[1..] :: p in parts;
      assert forall p | p in parts :: p == parts[0] || p in parts[1..];
      InlinePartsFailExactly(parts[1..]);
    }
  }

  /** In the inline dialplan it is refused exactly if a quote is left open or some
      part between its commas has no colon. */
  lemma InlineFailsExactly(s: string)
    ensures Applications.Parse(s, Some(Applications.Inline)).Err? <==>
      Split(s, ',').Err? || exists p | p in Split(s, ',').value :: ':' !in p
  {
    if Split(s, ',').Ok? {
      InlinePartsFailExactly(Split(s, ',').value);
    }
  }

  // ---- Commands ----

  /** The timeout word, if there are enough words for one. */
  function TimeoutWord(ws: seq<string>): Option<string> {
    var k := if |ws| > 2 && ws[2] in ["inline", "XML"] then 6 else 5;
    if |ws| > k then Some(ws[k]) else None
  }

  function DialplanOf(ws: seq<string>): Option<Applications.Dialplan> {
    if |ws| <= 2 then None
    else if ws[2] == "inline" then Some(Applications.Inline)
    else if ws[2] == "XML" then Some(Applications.Xml)
    else None
  }

  /** The words of a command are refused exactly if the endpoint or the applications
      are missing or refused, or the word in the place of the timeout is no number
      that fits in 32 bits. */
  lemma CommandFailsExactly(ws: seq<string>)
    ensures Originate.FromTokens(ws).Err? <==>
      || |ws| < 2
      || Endpoints.Parse(ws[0]).Err?
      || Applications.Parse(Unquote(ws[1]), DialplanOf(ws)).Err?
      || (TimeoutWord(ws).Some? && ParseUnsigned(TimeoutWord(ws).value, 0xFFFF_FFFF).None?)
  {
    if |ws| >= 2 {
      assert (if |ws| > 2 then Applications.ParseDialplan(ws[2]) else None) == DialplanOf(ws);
      var rest := ws[if DialplanOf(ws).Some? then 3 else 2..];
      assert TimeoutWord(ws) == Originate.Nth(rest, 3);
    }
  }

  /** The command word may be left out. */
  lemma WordIsOptional(line: string)
    requires !("originate" <= line)
    ensures Originate.Parse("originate " + line) == Originate.Parse(line)
  {
    Originate.WordStarts("originate", line);
    assert "originate" + [' '] + line == "originate " + line;
    StripOfFront(' ', line);
  }

  // ---- Quotes ----

  lemma TwoWords(w: string, q: string)
    requires GoodToken(w, ' ') && GoodToken(q, ' ')
    ensures Split(w + [' '] + q, ' ') == Ok([w, q])
  {
    var ts := [w, q];
    assert ts[1..] == [q];
    assert Join(ts, ' ') == w + [' '] + q;
    SplitOfJoin(ts, ' ');
  }

  lemma Quoted(x: string)
    requires ' ' in x && '\'' !in x
    ensures Quote(x) == "'" + x + "'"
  {
    NothingToEscape(x);
  }

  /** A space between quotes does not separate words. */
  lemma QuotesHoldSpaces(w: string, x: string, line: string)
    requires w != "" && ' ' !in w && '\'' !in w && Stripped(w)
    requires ' ' in x && '\'' !in x && x[|x| - 1] != '\\'
    requires line == w + [' '] + ("'" + x + "'")
    ensures Split(line, ' ') == Ok([w, "'" + x + "'"])
  {
    Quoted(x);
    QuoteIsGoodExactly(x);
    Originate.PlainIsGood(w);
    TwoWords(w, "'" + x + "'");
  }

  lemma {:induction false} NothingToEscape(x: string)
    requires '\'' !in x
    ensures Escape(x, '\'') == x
  {
    if x != "" {
      NothingToEscape(x[1..]);
      assert x == [x[0]] + x[1..];
    }
  }
}
