/** Channel variable blocks such as `{a=1,b='x y'}`: printing, parsing, and
    exactly when parsing gives back what was printed. */
module Variables {
  import opened Text
  import opened Chars
  import opened Tokenizer

  datatype Scope = Enterprise | Default | Channel

  function Open(scope: Scope): char {
    match scope
    case Enterprise => '<'
    case Default => '{'
    case Channel => '['
  }

  function Close(scope: Scope): char {
    match scope
    case Enterprise => '>'
    case Default => '}'
    case Channel => ']'
  }

  function ScopeOf(open: char, close: char): Option<Scope> {
    if open == '{' && close == '}' then Some(Default)
    else if open == '<' && close == '>' then Some(Enterprise)
    else if open == '[' && close == ']' then Some(Channel)
    else None
  }

  // ---- The ordered map ----

  predicate Distinct(es: seq<(string, string)>) {
    forall i, j | 0 <= i < j < |es| :: es[i].0 != es[j].0
  }

  /** An insertion-ordered map. */
  type Entries = es: seq<(string, string)> | Distinct(es) witness []

  datatype VarSet = VarSet(scope: Scope, inner: Entries)

  function PositionOf(es: seq<(string, string)>, key: string): (r: Option<nat>)
    ensures r.Some? ==> r.value < |es| && es[r.value].0 == key
    ensures r.None? ==> forall e | e in es :: e.0 != key
  {
    if es == [] then None
    else if es[0].0 == key then Some(0)
    else
      match PositionOf(es[1..], key)
      case None => None
      case Some(i) => Some(i + 1)
  }

  function Get(es: Entries, key: string): Option<string> {
    match PositionOf(es, key)
    case None => None
    case Some(i) => Some(es[i].1)
  }

  /** `IndexMap::insert`: an existing key keeps its place. */
  function Inserted(es: Entries, key: string, value: string): (r: Entries)
    ensures forall e | e in r :: e == (key, value) || e in es
    ensures 1 <= |r| <= |es| + 1
  {
    match PositionOf(es, key)
    case None => es + [(key, value)]
    case Some(i) => es[i := (key, value)]
  }

  lemma GetIsAt(es: Entries, i: nat)
    requires i < |es|
    ensures Get(es, es[i].0) == Some(es[i].1)
  {
  }

  /** Reading after inserting: the new value under the key, the old one under
      every other key. */
  lemma GetOfInserted(es: Entries, key: string, value: string, other: string)
    ensures Get(Inserted(es, key, value), other) == if other == key then Some(value) else Get(es, other)
  {
    var r := Inserted(es, key, value);
    var i := match PositionOf(es, key) case None => |es| case Some(p) => p;
    assert r[i] == (key, value);
    if other == key {
      GetIsAt(r, i);
    } else {
      match PositionOf(es, other)
      case Some(j) =>
        assert r[j] == es[j];
        GetIsAt(r, j);
      case None =>
    }
  }

  /** The set of variables as callers fill it. */
  class VariableBlock {
    const scope: Scope
    var inner: Entries

    constructor (scope: Scope)
      ensures Contents() == VarSet(scope, [])
    {
      this.scope := scope;
      inner := [];
    }

    function Contents(): VarSet
      reads this
    {
      VarSet(scope, inner)
    }

    method Insert(key: string, value: string)
      modifies this`inner
      ensures inner == Inserted(old(inner), key, value)
      ensures Get(inner, key) == Some(value)
      ensures forall other | other != key :: Get(inner, other) == Get(old(inner), other)
    {
      forall other ensures Get(Inserted(inner, key, value), other) ==
        if other == key then Some(value) else Get(inner, other)
      {
        GetOfInserted(inner, key, value, other);
      }
      match PositionOf(inner, key)
      case None => inner := inner + [(key, value)];
      case Some(i) => inner := inner[i := (key, value)];
    }
  }

  // ---- Values ----

  /** `escape_value`. */
  function EscapeValue(v: string): string {
    var e := Escape(Escape(v, '\''), ',');
    if ' ' in e then ['\''] + e + ['\''] else e
  }

  /** `unescape_value`. */
  function UnescapeValue(s: string): string {
    Unescape(Unescape(if Wrapped(s) then s[1..|s| - 1] else s, ','), '\'')
  }

  /** The escapes are undone, whatever the value. */
  lemma UnescapeValueOfEscapeValue(v: string)
    ensures UnescapeValue(EscapeValue(v)) == v
  {
    var q := Escape(v, '\'');
    var e := Escape(q, ',');
    UnescapeOfEscape(v, '\'');
    UnescapeOfEscape(q, ',');
    EscapeStart(v, '\'');
    if ' ' in e {
      assert EscapeValue(v)[1..|EscapeValue(v)| - 1] == e;
    } else {
      assert !Wrapped(e);
    }
  }

  /** The escapes as one pass over the text. */
  function EscapeOnce(v: string): string {
    if v == "" then ""
    else (if v[0] == '\'' || v[0] == ',' then ['\\', v[0]] else [v[0]]) + EscapeOnce(v[1..])
  }

  function UnescapeOnce(s: string): string {
    if |s| < 2 then s
    else if s[0] == '\\' && (s[1] == '\'' || s[1] == ',') then [s[1]] + UnescapeOnce(s[2..])
    else [s[0]] + UnescapeOnce(s[1..])
  }

  lemma {:induction false} EscapeIsOnePass(v: string)
    ensures Escape(Escape(v, '\''), ',') == EscapeOnce(v)
  {
    if v != "" {
      EscapeIsOnePass(v[1..]);
      var head := if v[0] == '\'' then ['\\', '\''] else [v[0]];
      EscapeConcat(head, Escape(v[1..], '\''), ',');
      EscapeHead(v[0]);
    }
  }

  lemma EscapeHead(c: char)
    ensures Escape(['\\', '\''], ',') == ['\\', '\'']
    ensures Escape([c], ',') == if c == ',' then ['\\', ','] else [c]
  {
    assert ['\\', '\''][1..] == ['\''] && ['\''][1..] == "" && [c][1..] == "";
  }

  lemma QuoteAfterComma(s: string)
    ensures s != "" ==> Unescape(s, ',') != "" && (Unescape(s, ',')[0] == '\'' <==> s[0] == '\'')
    ensures s == "" ==> Unescape(s, ',') == ""
  {
  }

  /** The two replacements do not get in each other's way. */
  lemma {:induction false} UnescapeIsOnePass(s: string)
    ensures Unescape(Unescape(s, ','), '\'') == UnescapeOnce(s)
    decreases |s|
  {
    if |s| >= 2 {
      if s[0] == '\\' && s[1] == ',' {
        UnescapeIsOnePass(s[2..]);
        UnescapeOther(',', Unescape(s[2..], ','), '\'');
      } else if s[0] == '\\' && s[1] == '\'' {
        UnescapeIsOnePass(s[2..]);
        QuoteIsKept(s[1..]);
        var more := Unescape(s[2..], ',');
        assert s[1..][1..] == s[2..];
        assert ['\\'] + (['\''] + more) == ['\\', '\''] + more;
        UnescapePair('\'', more);
      } else {
        UnescapeIsOnePass(s[1..]);
        QuoteAfterComma(s[1..]);
        UnescapeOther(s[0], Unescape(s[1..], ','), '\'');
      }
    }
  }

  lemma QuoteIsKept(s: string)
    requires s != "" && s[0] == '\''
    ensures Unescape(s, ',') == ['\''] + Unescape(s[1..], ',')
  {
    if |s| == 1 {
      assert s == ['\''] && s[1..] == "";
    }
  }

  /** A value is written with every quote and every comma behind a backslash, and in
      quotes if it holds a space. */
  lemma EscapeValueExactly(v: string)
    ensures ' ' !in v ==> EscapeValue(v) == EscapeOnce(v)
    ensures ' ' in v ==> EscapeValue(v) == "'" + EscapeOnce(v) + "'"
  {
    EscapeIsOnePass(v);
    EscapeHas(v, '\'', ' ');
    EscapeHas(Escape(v, '\''), ',', ' ');
  }

  /** A value is read with or without quotes around it, whether or not it holds a
      space. */
  lemma UnescapeValueExactly(s: string)
    ensures UnescapeValue("'" + s + "'") == UnescapeOnce(s)
    ensures |s| < 2 || s[0] != '\'' || s[|s| - 1] != '\'' ==> UnescapeValue(s) == UnescapeOnce(s)
  {
    UnescapeIsOnePass(s);
    assert ("'" + s + "'")[1..|s| + 1] == s;
  }

  // ---- Commas ----

  /** A comma at `i` that does not follow a backslash, given whether one precedes
      the text. */
  predicate OpenCommaAt(s: string, i: nat, escaped: bool) {
    i < |s| && s[i] == ',' && !(if i == 0 then escaped else s[i - 1] == '\\')
  }

  predicate Unbroken(s: string, escaped: bool) {
    forall i: nat | i < |s| :: !OpenCommaAt(s, i, escaped)
  }

  lemma UnbrokenConcat(a: string, b: string, escaped: bool)
    ensures Unbroken(a + b, escaped) <==> Unbroken(a, escaped) && Unbroken(b, EscapedAfter(a, escaped))
  {
    var s := a + b;
    var after := EscapedAfter(a, escaped);
    assert forall i | 0 <= i < |a| :: s[i] == a[i];
    assert forall i | 0 <= i < |b| :: s[|a| + i] == b[i];
    forall i: nat ensures OpenCommaAt(s, i, escaped) <==>
      if i < |a| then OpenCommaAt(a, i, escaped) else OpenCommaAt(b, i - |a|, after) {
    }
    forall i: nat | Unbroken(s, escaped) ensures !OpenCommaAt(a, i, escaped) && !OpenCommaAt(b, i, after) {
      assert !OpenCommaAt(s, i, escaped) && !OpenCommaAt(s, |a| + i, escaped);
    }
  }

  /** `split_unescaped_commas`, with `part` collected so far. */
  function SplitCommas(rest: string, escaped: bool, part: string): (r: seq<string>)
    ensures |r| >= 1
    decreases |rest|
  {
    if rest == "" then [part]
    else if rest[0] == ',' && !escaped then [part] + SplitCommas(rest[1..], false, "")
    else SplitCommas(rest[1..], rest[0] == '\\', part + [rest[0]])
  }

  /** The same as it runs: one pass with look-behind. */
  method SplitUnescapedCommas(s: string) returns (parts: seq<string>)
    ensures parts == SplitCommas(s, false, "")
  {
    parts := [];
    var start := 0;
    assert s[0..] == s && s[0..0] == "";
    for i := 0 to |s|
      invariant 0 <= start <= i
      invariant SplitCommas(s, false, "") ==
        parts + SplitCommas(s[i..], i > 0 && s[i - 1] == '\\', s[start..i])
    {
      assert s[i..][1..] == s[i + 1..];
      if s[i] == ',' && !(i > 0 && s[i - 1] == '\\') {
        parts := parts + [s[start..i]];
        start := i + 1;
        assert s[start..i + 1] == "";
      } else {
        assert s[start..i + 1] == s[start..i] + [s[i]];
      }
    }
    assert s[|s|..] == "" && s[start..|s|] == s[start..];
    parts := parts + [s[start..]];
  }

  lemma {:induction false} SplitUnbroken(s: string, rest: string, escaped: bool, part: string)
    requires Unbroken(s, escaped)
    ensures SplitCommas(s + rest, escaped, part) == SplitCommas(rest, EscapedAfter(s, escaped), part + s)
    decreases |s|
  {
    if s == "" {
      assert s + rest == rest && part + s == part;
    } else {
      assert s == [s[0]] + s[1..] && (s + rest)[1..] == s[1..] + rest;
      UnbrokenConcat([s[0]], s[1..], escaped);
      assert !OpenCommaAt([s[0]], 0, escaped);
      SplitUnbroken(s[1..], rest, s[0] == '\\', part + [s[0]]);
      assert (part + [s[0]]) + s[1..] == part + s;
    }
  }

  /** No part holds a comma that does not follow a backslash. */
  lemma {:induction false} PartsAreUnbroken(rest: string, part: string)
    requires Unbroken(part, false)
    ensures forall p | p in SplitCommas(rest, EscapedAfter(part, false), part) :: Unbroken(p, false)
    decreases |rest|
  {
    if rest == "" {
    } else if rest[0] == ',' && !EscapedAfter(part, false) {
      PartsAreUnbroken(rest[1..], "");
    } else {
      UnbrokenConcat(part, [rest[0]], false);
      PartsAreUnbroken(rest[1..], part + [rest[0]]);
    }
  }

  predicate AllUnbroken(ts: seq<string>) {
    forall t | t in ts :: Unbroken(t, false)
  }

  /** No item but the last ends in a backslash. */
  predicate NoGlue(ts: seq<string>) {
    forall i | 0 <= i < |ts| - 1 :: !EscapedAfter(ts[i], false)
  }

  /** Splitting what was joined gives the items back, or fewer parts if a
      backslash in front of a joining comma glued two items together. */
  lemma {:induction false} SplitOfJoinedItems(ts: seq<string>, part: string)
    requires ts != [] && AllUnbroken(ts)
    ensures NoGlue(ts) ==> SplitCommas(Join(ts, ','), false, part) == [part + ts[0]] + ts[1..]
    ensures !NoGlue(ts) ==> |SplitCommas(Join(ts, ','), false, part)| < |ts|
    decreases |ts|
  {
    var t := ts[0];
    assert t in ts;
    if |ts| == 1 {
      SplitUnbroken(t, "", false, part);
      assert t + "" == t;
    } else {
      var rest := ts[1..];
      assert AllUnbroken(rest);
      var more := [','] + Join(rest, ',');
      assert Join(ts, ',') == t + more && more[1..] == Join(rest, ',');
      SplitUnbroken(t, more, false, part);
      assert NoGlue(ts) <==> !EscapedAfter(t, false) && NoGlue(rest) by {
        assert forall i | 0 <= i < |rest| :: rest[i] == ts[i + 1];
      }
      if EscapedAfter(t, false) {
        SplitOfJoinedItems(rest, part + t + [',']);
      } else {
        SplitOfJoinedItems(rest, "");
        assert "" + rest[0] == rest[0] && [rest[0]] + rest[1..] == rest;
      }
    }
  }

  // ---- Printing and parsing ----

  function Entry(e: (string, string)): string {
    e.0 + ['='] + EscapeValue(e.1)
  }

  function Printed(es: seq<(string, string)>): (r: seq<string>)
    ensures |r| == |es|
    ensures forall i | 0 <= i < |es| :: r[i] == Entry(es[i])
  {
    if es == [] then [] else [Entry(es[0])] + Printed(es[1..])
  }

  function Display(vs: VarSet): string {
    [Open(vs.scope)] + Join(Printed(vs.inner), ',') + [Close(vs.scope)]
  }

  /** One part: a name, an equals sign and an escaped value. */
  function ParsePart(part: string): Option<(string, string)> {
    match IndexOf(part, '=')
    case None => None
    case Some(i) => Some((part[..i], UnescapeValue(part[i + 1..])))
  }

  function ParseParts(parts: seq<string>, found: Entries): (r: Result<Entries, OriginateError>)
    ensures r.Ok? ==> |r.value| <= |found| + |parts|
    ensures r.Ok? && (found != [] || parts != []) ==> r.value != []
  {
    if parts == [] then Ok(found)
    else
      match ParsePart(parts[0])
      case None => Err(ParseError)
      case Some(e) => ParseParts(parts[1..], Inserted(found, e.0, e.1))
  }

  /** What is left to print from entry `i` on. */
  function Unprinted(ts: seq<string>, i: nat): string
    requires i <= |ts|
  {
    (if 0 < i < |ts| then [','] else []) + Join(ts[i..], ',')
  }

  lemma PrintStep(text: string, ts: seq<string>, i: nat)
    requires i < |ts|
    ensures text + Unprinted(ts, i) == text + (if i > 0 then [','] else []) + ts[i] + Unprinted(ts, i + 1)
  {
    var rest := ts[i + 1..];
    assert ts[i..][1..] == rest && ts[i..][0] == ts[i];
    assert Join(ts[i..], ',') == ts[i] + Unprinted(ts, i + 1);
  }

  lemma UnprintedEnds(ts: seq<string>)
    ensures Unprinted(ts, 0) == Join(ts, ',') && Unprinted(ts, |ts|) == ""
  {
    assert ts[0..] == ts && ts[|ts|..] == [];
  }

  /** The writing loop. */
  method PrintEntries(es: seq<(string, string)>) returns (text: string)
    ensures text == Join(Printed(es), ',')
  {
    text := "";
    ghost var ts := Printed(es);
    UnprintedEnds(ts);
    for i := 0 to |es|
      invariant text + Unprinted(ts, i) == Join(ts, ',')
    {
      PrintStep(text, ts, i);
      var entry := Entry(es[i]);
      text := text + (if i > 0 then [','] else []) + entry;
    }
    assert text + "" == text;
  }

  /** Printing as it runs. */
  method DisplayVariables(vs: VarSet) returns (text: string)
    ensures text == Display(vs)
  {
    var entries := PrintEntries(vs.inner);
    text := [Open(vs.scope)] + entries + [Close(vs.scope)];
  }

  /** `Variables::from_str`. */
  function Parse(s: string): Result<VarSet, OriginateError> {
    var t := Strip(s);
    if |t| < 2 then Err(ParseError)
    else
      match ScopeOf(t[0], t[|t| - 1])
      case None => Err(ParseError)
      case Some(scope) =>
        match ParseParts(SplitCommas(t[1..|t| - 1], false, ""), [])
        case Err(e) => Err(e)
        case Ok(es) => Ok(VarSet(scope, es))
  }

  lemma ParsePartsFrom(parts: seq<string>, k: nat, found: Entries)
    requires k < |parts|
    ensures ParseParts(parts[k..], found) ==
      match ParsePart(parts[k])
      case None => Err(ParseError)
      case Some(e) => ParseParts(parts[k + 1..], Inserted(found, e.0, e.1))
  {
    assert parts[k..][0] == parts[k] && parts[k..][1..] == parts[k + 1..];
  }

  /** `split_once('=')` and unescaping. */
  method SplitPart(part: string) returns (e: Option<(string, string)>)
    ensures e == ParsePart(part)
  {
    var i := IndexOf(part, '=');
    if i.None? {
      return None;
    }
    e := Some((part[..i.value], UnescapeValue(part[i.value + 1..])));
  }

  /** The loop of `from_str`: fill the map part by part. */
  method FillFromParts(parts: seq<string>) returns (r: Result<Entries, OriginateError>)
    ensures r == ParseParts(parts, [])
  {
    var inner: Entries := [];
    assert parts[0..] == parts;
    for k := 0 to |parts|
      invariant ParseParts(parts, []) == ParseParts(parts[k..], inner)
    {
      ParsePartsFrom(parts, k, inner);
      var entry := SplitPart(parts[k]);
      if entry.None? {
        return Err(ParseError);
      }
      inner := Inserted(inner, entry.value.0, entry.value.1);
    }
    assert parts[|parts|..] == [];
    r := Ok(inner);
  }

  method ParseVariables(s: string) returns (r: Result<VarSet, OriginateError>)
    ensures r == Parse(s)
  {
    var t := Strip(s);
    if |t| < 2 {
      return Err(ParseError);
    }
    var scope := ScopeOf(t[0], t[|t| - 1]);
    if scope.None? {
      return Err(ParseError);
    }
    var parts := SplitUnescapedCommas(t[1..|t| - 1]);
    var inner := FillFromParts(parts);
    r := if inner.Ok? then Ok(VarSet(scope.value, inner.value)) else Err(inner.error);
  }

  // ---- When parsing undoes printing ----

  predicate CleanName(key: string) {
    '=' !in key && Unbroken(key, false)
  }

  /** A value that keeps the comma printed after it from separating. */
  predicate Gluing(v: string) {
    ' ' !in v && v != "" && v[|v| - 1] == '\\'
  }

  predicate Printable(es: seq<(string, string)>) {
    && es != []
    && (forall e | e in es :: CleanName(e.0))
    && (forall i | 0 <= i < |es| - 1 :: !Gluing(es[i].1))
  }

  lemma {:induction false} EscapeCommasUnbroken(s: string, escaped: bool)
    ensures Unbroken(Escape(s, ','), escaped)
  {
    if s != "" {
      var head := if s[0] == ',' then ['\\', ','] else [s[0]];
      EscapeCommasUnbroken(s[1..], EscapedAfter(head, escaped));
      UnbrokenConcat(head, Escape(s[1..], ','), escaped);
    }
  }

  lemma EscapedValueShape(v: string)
    ensures forall escaped :: Unbroken(EscapeValue(v), escaped)
    ensures EscapedAfter(EscapeValue(v), false) == Gluing(v)
  {
    var q := Escape(v, '\'');
    var e := Escape(q, ',');
    forall escaped ensures Unbroken(EscapeValue(v), escaped) {
      EscapeCommasUnbroken(q, escaped);
      EscapeCommasUnbroken(q, false);
      UnbrokenConcat(['\''], e, escaped);
      UnbrokenConcat(['\''] + e, ['\''], escaped);
    }
    EscapeHas(v, '\'', ' ');
    EscapeHas(q, ',', ' ');
    EscapeStart(v, '\'');
    EscapeStart(q, ',');
    if v != "" {
      EscapeLast(v, '\'');
      EscapeLast(q, ',');
    }
  }

  lemma EntryShape(e: (string, string))
    requires CleanName(e.0)
    ensures Unbroken(Entry(e), false)
    ensures EscapedAfter(Entry(e), false) == Gluing(e.1)
    ensures IndexOf(Entry(e), '=') == Some(|e.0|)
    ensures Entry(e)[..|e.0|] == e.0 && UnescapeValue(Entry(e)[|e.0| + 1..]) == e.1
  {
    var name, v := e.0, EscapeValue(e.1);
    EscapedValueShape(e.1);
    UnbrokenOfEntry(name, v);
    IndexOfSplit(name, '=', v);
    assert (name + ['='] + v)[|name| + 1..] == v;
    UnescapeValueOfEscapeValue(e.1);
  }

  lemma UnbrokenOfEntry(name: string, v: string)
    requires Unbroken(name, false) && Unbroken(v, false)
    ensures Unbroken(name + ['='] + v, false)
    ensures EscapedAfter(name + ['='] + v, false) == EscapedAfter(v, false)
  {
    UnbrokenConcat(name, ['='], false);
    UnbrokenConcat(name + ['='], v, false);
  }

  lemma PartOfEntry(e: (string, string))
    requires CleanName(e.0)
    ensures ParsePart(Entry(e)) == Some(e)
  {
    EntryShape(e);
  }

  /** An entry whose name is new is added behind the others. */
  lemma InsertNew(found: Entries, e: (string, string), more: seq<(string, string)>)
    requires Distinct(found + ([e] + more))
    ensures Inserted(found, e.0, e.1) == found + [e] && Distinct(found + [e])
  {
    var all := found + ([e] + more);
    forall f | f in found ensures f.0 != e.0 {
      var i :| 0 <= i < |found| && found[i] == f;
      assert all[i] == f && all[|found|] == e;
    }
    assert PositionOf(found, e.0).None?;
    assert e == (e.0, e.1);
    assert found + [e] == all[..|found| + 1];
  }

  lemma {:induction false} ParsePrinted(es: seq<(string, string)>, found: Entries)
    requires Distinct(found + es) && forall e | e in es :: CleanName(e.0)
    ensures ParseParts(Printed(es), found) == Ok(found + es)
    decreases |es|
  {
    if es == [] {
      assert found + es == found;
    } else {
      PartOfEntry(es[0]);
      assert es == [es[0]] + es[1..];
      InsertNew(found, es[0], es[1..]);
      assert (found + [es[0]]) + es[1..] == found + es;
      ParsePrinted(es[1..], found + [es[0]]);
    }
  }

  lemma {:induction false} ParsedNamesClean(parts: seq<string>, found: Entries)
    requires ParseParts(parts, found).Ok? && AllUnbroken(parts)
    requires forall e | e in found :: CleanName(e.0)
    ensures forall e | e in ParseParts(parts, found).value :: CleanName(e.0)
  {
    if parts != [] {
      assert parts[0] in parts;
      PartNameClean(parts[0]);
      var e := ParsePart(parts[0]).value;
      assert AllUnbroken(parts[1..]);
      ParsedNamesClean(parts[1..], Inserted(found, e.0, e.1));
    }
  }

  lemma PartNameClean(p: string)
    requires ParsePart(p).Some? && Unbroken(p, false)
    ensures CleanName(ParsePart(p).value.0)
  {
    var i := IndexOf(p, '=').value;
    assert p == p[..i] + p[i..];
    UnbrokenConcat(p[..i], p[i..], false);
  }

  lemma StripOfDisplay(vs: VarSet)
    ensures Strip(Display(vs)) == Display(vs) && |Display(vs)| >= 2
    ensures ScopeOf(Display(vs)[0], Display(vs)[|Display(vs)| - 1]) == Some(vs.scope)
    ensures Display(vs)[1..|Display(vs)| - 1] == Join(Printed(vs.inner), ',')
  {
  }

  lemma PrintedItems(es: seq<(string, string)>)
    requires forall e | e in es :: CleanName(e.0)
    ensures AllUnbroken(Printed(es))
    ensures NoGlue(Printed(es)) <==> forall i | 0 <= i < |es| - 1 :: !Gluing(es[i].1)
  {
    forall i | 0 <= i < |es|
      ensures Unbroken(Printed(es)[i], false) && EscapedAfter(Printed(es)[i], false) == Gluing(es[i].1)
    {
      assert es[i] in es;
      EntryShape(es[i]);
    }
  }

  lemma UngluedPartsRoundTrip(es: Entries, ts: seq<string>)
    requires es != [] && (forall e | e in es :: CleanName(e.0)) && ts == Printed(es)
    requires SplitCommas(Join(ts, ','), false, "") == ["" + ts[0]] + ts[1..]
    ensures ParseParts(SplitCommas(Join(ts, ','), false, ""), []) == Ok(es)
  {
    assert "" + ts[0] == ts[0] && [ts[0]] + ts[1..] == ts;
    assert [] + es == es;
    ParsePrinted(es, []);
  }

  lemma CleanPartsRoundTrip(es: Entries, parts: seq<string>)
    requires es != [] && forall e | e in es :: CleanName(e.0)
    requires parts == SplitCommas(Join(Printed(es), ','), false, "")
    ensures ParseParts(parts, []) == Ok(es) <==> Printable(es)
  {
    var ts := Printed(es);
    PrintedItems(es);
    SplitOfJoinedItems(ts, "");
    if NoGlue(ts) {
      UngluedPartsRoundTrip(es, ts);
    }
  }

  lemma PartsReadClean(text: string, parts: seq<string>)
    requires parts == SplitCommas(text, false, "") && ParseParts(parts, []).Ok?
    ensures forall e | e in ParseParts(parts, []).value :: CleanName(e.0)
  {
    PartsAreUnbroken(text, "");
    ParsedNamesClean(parts, []);
  }

  lemma PartsRoundTrip(es: Entries)
    ensures ParseParts(SplitCommas(Join(Printed(es), ','), false, ""), []) == Ok(es) <==> Printable(es)
  {
    var parts := SplitCommas(Join(Printed(es), ','), false, "");
    if es == [] {
      assert parts == [""];
    } else if forall e | e in es :: CleanName(e.0) {
      CleanPartsRoundTrip(es, parts);
    } else if ParseParts(parts, []) == Ok(es) {
      PartsReadClean(Join(Printed(es), ','), parts);
      assert false;
    }
  }

  /** Parsing gives back the set that was printed - scope, order and all values -
      exactly when it is not empty, no name has an equals sign or an unescaped
      comma, and no value before the last is free of spaces and ends in a
      backslash. */
  lemma RoundTripExactly(vs: VarSet)
    ensures Parse(Display(vs)) == Ok(vs) <==> Printable(vs.inner)
  {
    StripOfDisplay(vs);
    PartsRoundTrip(vs.inner);
  }

  /** Whatever was parsed has names that print back, so only a gluing value can
      change when a parsed set is printed and parsed again. */
  lemma ReparseExactly(s: string)
    requires Parse(s).Ok?
    ensures Parse(Display(Parse(s).value)) == Parse(s) <==>
      forall i | 0 <= i < |Parse(s).value.inner| - 1 :: !Gluing(Parse(s).value.inner[i].1)
  {
    var t := Strip(s);
    var inner := t[1..|t| - 1];
    PartsAreUnbroken(inner, "");
    ParsedNamesClean(SplitCommas(inner, false, ""), []);
    RoundTripExactly(Parse(s).value);
  }
}
