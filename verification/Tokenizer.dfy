/** The quote-aware tokenizer of originate command strings, and the quoting that
    goes with it. */
module Tokenizer {
  import opened Text
  import opened Chars

  datatype OriginateError =
    | UnclosedQuote(token: string)
    | TooManyApplications
    | ParseError

  type Tokens = Result<seq<string>, OriginateError>

  /** The quote state after a character: a quote that does not follow a
      backslash opens or closes. */
  function Toggle(c: char, escaped: bool, quoted: bool): bool {
    if c == '\'' && !escaped then !quoted else quoted
  }

  function Cons(t: string, r: Tokens): Tokens {
    match r
    case Ok(ts) => Ok([t] + ts)
    case Err(e) => Err(e)
  }

  /** The rest of a line, scanned with `token` collected so far. */
  function Scan(rest: string, sep: char, escaped: bool, token: string, quoted: bool): Tokens
    decreases |rest|
  {
    if rest == "" then
      if quoted then Err(UnclosedQuote(token))
      else if Blank(token) then Ok([])
      else Ok([Strip(token)])
    else if rest[0] == sep && !quoted && !Blank(token) then
      Cons(Strip(token), Scan(rest[1..], sep, sep == '\\', "", false))
    else
      Scan(rest[1..], sep, rest[0] == '\\', token + [rest[0]], Toggle(rest[0], escaped, quoted))
  }

  /** `originate_split`. */
  function Split(line: string, sep: char): Tokens {
    Scan(line, sep, false, "", false)
  }

  function Prefixed(ts: seq<string>, r: Tokens): Tokens {
    match r
    case Ok(us) => Ok(ts + us)
    case Err(e) => Err(e)
  }

  lemma PrefixedLaws(ts: seq<string>, t: string, r: Tokens)
    ensures Prefixed([], r) == r
    ensures Prefixed(ts, Cons(t, r)) == Prefixed(ts + [t], r)
  {
    if r.Ok? {
      assert [] + r.value == r.value;
      assert ts + ([t] + r.value) == (ts + [t]) + r.value;
    }
  }

  /** `originate_split` as it runs: an index loop with look-behind. */
  method OriginateSplit(line: string, sep: char) returns (r: Tokens)
    ensures r == Split(line, sep)
  {
    var tokens: seq<string> := [];
    var token := "";
    var inQuote := false;
    var i := 0;
    assert line[0..] == line;
    PrefixedLaws([], "", Split(line, sep));
    while i < |line|
      invariant 0 <= i <= |line|
      invariant Split(line, sep) ==
        Prefixed(tokens, Scan(line[i..], sep, i > 0 && line[i - 1] == '\\', token, inQuote))
    {
      var ch := line[i];
      assert line[i..][1..] == line[i + 1..];
      if ch == sep && !inQuote && Strip(token) != "" {
        PrefixedLaws(tokens, Strip(token), Scan(line[i + 1..], sep, sep == '\\', "", false));
        tokens := tokens + [Strip(token)];
        token := "";
        i := i + 1;
        continue;
      }
      if ch == '\'' && !(i > 0 && line[i - 1] == '\\') {
        inQuote := !inQuote;
      }
      token := token + [ch];
      i := i + 1;
    }
    if inQuote {
      return Err(UnclosedQuote(token));
    }
    assert tokens + [] == tokens;
    var last := Strip(token);
    if last != "" {
      tokens := tokens + [last];
    }
    r := Ok(tokens);
  }

  // ---- What a token may look like ----

  function EscapedAfter(s: string, escaped: bool): bool {
    if s == "" then escaped else s[|s| - 1] == '\\'
  }

  function QuotedAfter(s: string, escaped: bool, quoted: bool): bool {
    if s == "" then quoted else QuotedAfter(s[1..], s[0] == '\\', Toggle(s[0], escaped, quoted))
  }

  /** Scanned from the given state, with only white space before it if `blank`,
      the text is never split: a separator outside quotes comes after nothing
      but white space. */
  predicate Whole(s: string, sep: char, escaped: bool, quoted: bool, blank: bool) {
    s == "" ||
    ((s[0] == sep && !quoted ==> blank) &&
     Whole(s[1..], sep, s[0] == '\\', Toggle(s[0], escaped, quoted), blank && IsWs(s[0])))
  }

  /** A token that survives joining and splitting. */
  predicate GoodToken(t: string, sep: char) {
    t != "" && Stripped(t) && Whole(t, sep, false, false, true) && !QuotedAfter(t, false, false)
  }

  lemma {:induction false} AfterConcat(a: string, b: string, escaped: bool, quoted: bool)
    ensures QuotedAfter(a + b, escaped, quoted) ==
      QuotedAfter(b, EscapedAfter(a, escaped), QuotedAfter(a, escaped, quoted))
    ensures EscapedAfter(a + b, escaped) == EscapedAfter(b, EscapedAfter(a, escaped))
  {
    if a == "" {
      assert a + b == b;
    } else {
      assert (a + b)[1..] == a[1..] + b;
      AfterConcat(a[1..], b, a[0] == '\\', Toggle(a[0], escaped, quoted));
    }
  }

  lemma {:induction false} WholeConcat(a: string, b: string, sep: char, escaped: bool, quoted: bool, blank: bool)
    ensures Whole(a + b, sep, escaped, quoted, blank) <==>
      Whole(a, sep, escaped, quoted, blank) &&
      Whole(b, sep, EscapedAfter(a, escaped), QuotedAfter(a, escaped, quoted), blank && Blank(a))
  {
    if a == "" {
      assert a + b == b;
    } else {
      assert (a + b)[1..] == a[1..] + b;
      assert Blank(a) <==> IsWs(a[0]) && Blank(a[1..]);
      WholeConcat(a[1..], b, sep, a[0] == '\\', Toggle(a[0], escaped, quoted), blank && IsWs(a[0]));
    }
  }

  /** The only error is an unclosed quote, and it is reported exactly when the
      line has an odd number of quotes that do not follow a backslash. */
  lemma {:induction false} FailsOnOpenQuote(rest: string, sep: char, escaped: bool, token: string, quoted: bool)
    requires sep != '\''
    ensures Scan(rest, sep, escaped, token, quoted).Err? <==> QuotedAfter(rest, escaped, quoted)
    ensures Scan(rest, sep, escaped, token, quoted).Err? ==>
      Scan(rest, sep, escaped, token, quoted).error.UnclosedQuote?
    decreases |rest|
  {
    if rest == "" {
    } else if rest[0] == sep && !quoted && !Blank(token) {
      FailsOnOpenQuote(rest[1..], sep, sep == '\\', "", false);
    } else {
      FailsOnOpenQuote(rest[1..], sep, rest[0] == '\\', token + [rest[0]], Toggle(rest[0], escaped, quoted));
    }
  }

  // ---- Splitting undoes joining ----

  lemma BlankConcat(a: string, c: char)
    ensures Blank(a + [c]) <==> Blank(a) && IsWs(c)
  {
    assert forall i | 0 <= i < |a| :: (a + [c])[i] == a[i];
    assert (a + [c])[|a|] == c;
  }

  lemma {:induction false} ScanWhole(s: string, rest: string, sep: char, escaped: bool, token: string, quoted: bool)
    requires Whole(s, sep, escaped, quoted, Blank(token))
    ensures Scan(s + rest, sep, escaped, token, quoted) ==
      Scan(rest, sep, EscapedAfter(s, escaped), token + s, QuotedAfter(s, escaped, quoted))
    decreases |s|
  {
    if s == "" {
      assert s + rest == rest && token + s == token;
    } else {
      assert (s + rest)[1..] == s[1..] + rest;
      BlankConcat(token, s[0]);
      ScanWhole(s[1..], rest, sep, s[0] == '\\', token + [s[0]], Toggle(s[0], escaped, quoted));
      assert (token + [s[0]]) + s[1..] == token + s;
    }
  }

  lemma GoodIsNotBlank(t: string, sep: char)
    requires GoodToken(t, sep)
    ensures !Blank(t) && Strip(t) == t
  {
  }

  /** What may follow a token: nothing, or a separator. */
  predicate EndsToken(rest: string, sep: char) {
    rest == "" || rest[0] == sep
  }

  /** A good token in front comes out as it is. */
  lemma SplitFirst(t: string, rest: string, sep: char)
    requires sep != '\\' && GoodToken(t, sep) && EndsToken(rest, sep)
    ensures Split(t + rest, sep) == Cons(t, Split(if rest == "" then "" else rest[1..], sep))
  {
    GoodIsNotBlank(t, sep);
    ScanWhole(t, rest, sep, false, "", false);
    assert "" + t == t && [t] + [] == [t];
  }

  predicate AllGood(ts: seq<string>, sep: char) {
    forall t | t in ts :: GoodToken(t, sep)
  }

  lemma AllGoodRest(ts: seq<string>, sep: char)
    requires ts != [] && AllGood(ts, sep)
    ensures GoodToken(ts[0], sep) && AllGood(ts[1..], sep)
  {
    assert ts[0] in ts;
    assert forall t | t in ts[1..] :: t in ts;
  }

  lemma JoinStep(ts: seq<string>, sep: char)
    requires ts != []
    ensures Join(ts, sep) == ts[0] + if |ts| == 1 then "" else [sep] + Join(ts[1..], sep)
  {
  }

  lemma {:induction false} SplitOfJoin(ts: seq<string>, sep: char)
    requires sep != '\\' && AllGood(ts, sep)
    ensures Split(Join(ts, sep), sep) == Ok(ts)
  {
    if ts != [] {
      var j := Join(ts[1..], sep);
      var rest := if |ts| == 1 then "" else [sep] + j;
      AllGoodRest(ts, sep);
      JoinStep(ts, sep);
      SplitFirst(ts[0], rest, sep);
      SplitOfJoin(ts[1..], sep);
      assert (if rest == "" then "" else rest[1..]) == j;
      assert ts == [ts[0]] + ts[1..];
    }
  }

  // ---- White space around a line ----

  /** The same tokens, or two failures. */
  predicate Agree(a: Tokens, b: Tokens) {
    a == b || (a.Err? && b.Err?)
  }

  lemma {:induction false} ScanAfterWs(rest: string, sep: char, escaped: bool, w: char, token: string, quoted: bool)
    requires IsWs(w)
    ensures Agree(Scan(rest, sep, escaped, [w] + token, quoted), Scan(rest, sep, escaped, token, quoted))
    decreases |rest|
  {
    StripOfFront(w, token);
    if rest != "" && !(rest[0] == sep && !quoted && !Blank(token)) {
      ScanAfterWs(rest[1..], sep, rest[0] == '\\', w, token + [rest[0]], Toggle(rest[0], escaped, quoted));
      assert [w] + (token + [rest[0]]) == ([w] + token) + [rest[0]];
    }
  }

  lemma ScanWs(w: char, sep: char, escaped: bool, token: string, quoted: bool)
    requires IsWs(w)
    ensures Agree(Scan([w], sep, escaped, token, quoted), Scan("", sep, escaped, token, quoted))
  {
    StripOfBack(token, w);
    BlankConcat(token, w);
    assert [w][1..] == "" && [Strip(token)] + [] == [Strip(token)];
  }

  lemma {:induction false} ScanBeforeWs(rest: string, w: char, sep: char, escaped: bool, token: string, quoted: bool)
    requires IsWs(w)
    ensures Agree(Scan(rest + [w], sep, escaped, token, quoted), Scan(rest, sep, escaped, token, quoted))
    decreases |rest|
  {
    if rest == "" {
      assert rest + [w] == [w];
      ScanWs(w, sep, escaped, token, quoted);
    } else {
      assert (rest + [w])[1..] == rest[1..] + [w];
      if rest[0] == sep && !quoted && !Blank(token) {
        ScanBeforeWs(rest[1..], w, sep, sep == '\\', "", false);
      } else {
        ScanBeforeWs(rest[1..], w, sep, rest[0] == '\\', token + [rest[0]], Toggle(rest[0], escaped, quoted));
      }
    }
  }

  /** Trimming a line first does not change its tokens. */
  lemma {:induction false} SplitOfStrip(s: string, sep: char)
    ensures Agree(Split(Strip(s), sep), Split(s, sep))
    decreases |s|
  {
    if s != "" {
      if IsWs(s[0]) {
        ScanAfterWs(s[1..], sep, false, s[0], "", false);
        assert [s[0]] + "" == [s[0]] && "" + [s[0]] == [s[0]];
        SplitOfStrip(s[1..], sep);
      } else if IsWs(s[|s| - 1]) {
        var t := s[..|s| - 1];
        assert s == t + [s[|s| - 1]];
        ScanBeforeWs(t, s[|s| - 1], sep, false, "", false);
        SplitOfStrip(t, sep);
      }
    }
  }

  // ---- What the tokens of any line keep ----

  /** Once text has been collected, the first token starts with it. */
  lemma {:induction false} FirstTokenStarts(rest: string, sep: char, escaped: bool, token: string, quoted: bool)
    requires token != "" && Stripped(token) && Scan(rest, sep, escaped, token, quoted).Ok?
    ensures Scan(rest, sep, escaped, token, quoted).value != []
    ensures token <= Scan(rest, sep, escaped, token, quoted).value[0] <= token + rest
  {
    var x := FirstRaw(rest, sep, escaped, token, quoted);
    StripKeeps(token, x);
  }

  lemma {:induction false} FirstRaw(rest: string, sep: char, escaped: bool, token: string, quoted: bool)
    returns (x: string)
    requires !Blank(token) && Scan(rest, sep, escaped, token, quoted).Ok?
    ensures x <= rest && Scan(rest, sep, escaped, token, quoted).value != []
    ensures Scan(rest, sep, escaped, token, quoted).value[0] == Strip(token + x)
    decreases |rest|
  {
    x := "";
    assert token + x == token;
    if rest != "" && !(rest[0] == sep && !quoted) {
      var c := [rest[0]];
      BlankConcat(token, rest[0]);
      var y := FirstRaw(rest[1..], sep, rest[0] == '\\', token + c, Toggle(rest[0], escaped, quoted));
      x := c + y;
      assert token + x == (token + c) + y && rest == c + rest[1..];
    }
  }

  lemma JoinOfCons(t: string, us: seq<string>, sep: char)
    requires !IsWs(sep)
    ensures |Join([t] + us, sep)| == |t| + (if us == [] then 0 else 1 + |Join(us, sep)|)
    ensures Ink(Join([t] + us, sep)) == Ink(t) + (if us == [] then 0 else 1 + Ink(Join(us, sep)))
  {
    assert ([t] + us)[1..] == us;
    if us != [] {
      InkConcat(t + [sep], Join(us, sep));
      InkConcat(t, [sep]);
    }
  }

  /** A token closed by a separator, in front of the tokens of the rest. */
  lemma JoinAfterCut(token: string, rest: string, us: seq<string>, sep: char)
    requires rest != "" && rest[0] == sep && !IsWs(sep)
    requires Ink(Join(us, sep)) + 1 >= Ink(rest[1..]) && |Join(us, sep)| <= |rest| - 1
    requires us == [] ==> Ink(rest[1..]) == 0
    ensures Ink(Join([Strip(token)] + us, sep)) + 1 >= Ink(token + rest)
    ensures |Join([Strip(token)] + us, sep)| <= |token| + |rest|
  {
    InkOfStrip(token);
    InkConcat(token, rest);
    JoinOfCons(Strip(token), us, sep);
    assert rest == [sep] + rest[1..];
    InkConcat([sep], rest[1..]);
  }

  /** Splitting and joining loses no more than white space and one trailing
      separator, and adds nothing. */
  lemma {:induction false} JoinOfSplit(rest: string, sep: char, escaped: bool, token: string, quoted: bool)
    requires Scan(rest, sep, escaped, token, quoted).Ok? && !IsWs(sep)
    ensures Ink(Join(Scan(rest, sep, escaped, token, quoted).value, sep)) + 1 >= Ink(token + rest)
    ensures |Join(Scan(rest, sep, escaped, token, quoted).value, sep)| <= |token| + |rest|
    decreases |rest|
  {
    InkOfStrip(token);
    if rest == "" {
      assert token + rest == token;
    } else if rest[0] == sep && !quoted && !Blank(token) {
      var more := rest[1..];
      var us := Scan(more, sep, sep == '\\', "", false).value;
      JoinOfSplit(more, sep, sep == '\\', "", false);
      assert "" + more == more;
      if us == [] {
        NoTokens(more, sep, sep == '\\', "", false);
      }
      JoinAfterCut(token, rest, us, sep);
    } else {
      JoinOfSplit(rest[1..], sep, rest[0] == '\\', token + [rest[0]], Toggle(rest[0], escaped, quoted));
      assert (token + [rest[0]]) + rest[1..] == token + rest;
    }
  }

  lemma {:induction false} NoTokens(rest: string, sep: char, escaped: bool, token: string, quoted: bool)
    requires Scan(rest, sep, escaped, token, quoted) == Ok([])
    ensures Blank(token) && Ink(rest) == 0
    decreases |rest|
  {
    if rest != "" {
      NoTokens(rest[1..], sep, rest[0] == '\\', token + [rest[0]], Toggle(rest[0], escaped, quoted));
      BlankConcat(token, rest[0]);
    }
  }

  // ---- Splitting only yields good tokens ----

  lemma {:induction false} WholeWithoutLast(s: string, w: char, sep: char, escaped: bool, quoted: bool, blank: bool)
    requires Whole(s + [w], sep, escaped, quoted, blank) && IsWs(w)
    requires !QuotedAfter(s + [w], escaped, quoted)
    ensures Whole(s, sep, escaped, quoted, blank) && !QuotedAfter(s, escaped, quoted)
  {
    WholeConcat(s, [w], sep, escaped, quoted, blank);
    AfterConcat(s, [w], escaped, quoted);
    assert QuotedAfter([w], EscapedAfter(s, escaped), QuotedAfter(s, escaped, quoted)) ==
      QuotedAfter([w][1..], w == '\\', Toggle(w, EscapedAfter(s, escaped), QuotedAfter(s, escaped, quoted)));
  }

  /** Trimming a text that is not split leaves one that is not split. */
  lemma {:induction false} StripStaysWhole(s: string, sep: char)
    requires Whole(s, sep, false, false, true) && !QuotedAfter(s, false, false)
    ensures Whole(Strip(s), sep, false, false, true) && !QuotedAfter(Strip(s), false, false)
    decreases |s|
  {
    if s != "" {
      if IsWs(s[0]) {
        StripStaysWhole(s[1..], sep);
      } else if IsWs(s[|s| - 1]) {
        assert s == s[..|s| - 1] + [s[|s| - 1]];
        WholeWithoutLast(s[..|s| - 1], s[|s| - 1], sep, false, false, true);
        StripStaysWhole(s[..|s| - 1], sep);
      }
    }
  }

  /** Every token found is good, whatever was collected before. */
  lemma {:induction false} ScanYieldsGood(rest: string, sep: char, token: string)
    requires sep != '\\' && Whole(token, sep, false, false, true)
    requires Scan(rest, sep, EscapedAfter(token, false), token, QuotedAfter(token, false, false)).Ok?
    ensures forall t | t in Scan(rest, sep, EscapedAfter(token, false), token, QuotedAfter(token, false, false)).value
      :: GoodToken(t, sep)
    decreases |rest|
  {
    var quoted := QuotedAfter(token, false, false);
    if rest == "" {
      if !Blank(token) {
        StripStaysWhole(token, sep);
      }
    } else if rest[0] == sep && !quoted && !Blank(token) {
      StripStaysWhole(token, sep);
      ScanYieldsGood(rest[1..], sep, "");
    } else {
      WholeConcat(token, [rest[0]], sep, false, false, true);
      AfterConcat(token, [rest[0]], false, false);
      WholeOfOne(rest[0], sep, EscapedAfter(token, false), quoted, Blank(token));
      ScanYieldsGood(rest[1..], sep, token + [rest[0]]);
    }
  }

  lemma WholeOfOne(c: char, sep: char, escaped: bool, quoted: bool, blank: bool)
    ensures Whole([c], sep, escaped, quoted, blank) <==> (c == sep && !quoted ==> blank)
    ensures QuotedAfter([c], escaped, quoted) == Toggle(c, escaped, quoted)
    ensures EscapedAfter([c], escaped) == (c == '\\')
  {
    assert [c][1..] == "";
  }

  /** Splitting returns the joined tokens exactly when each of them is good:
      non-empty, unchanged by trimming, its quotes balanced, and without a
      separator outside quotes (other than in front). */
  lemma SplitInvertsJoinExactly(ts: seq<string>, sep: char)
    requires sep != '\\'
    ensures Split(Join(ts, sep), sep) == Ok(ts) <==> AllGood(ts, sep)
  {
    if Split(Join(ts, sep), sep) == Ok(ts) {
      ScanYieldsGood(Join(ts, sep), sep, "");
    } else if AllGood(ts, sep) {
      SplitOfJoin(ts, sep);
    }
  }

  /** The tokens of any line are a normal form: joined and split again they come
      back unchanged. */
  lemma SplitIsNormal(line: string, sep: char)
    requires sep != '\\' && Split(line, sep).Ok?
    ensures Split(Join(Split(line, sep).value, sep), sep) == Split(line, sep)
  {
    ScanYieldsGood(line, sep, "");
    SplitOfJoin(Split(line, sep).value, sep);
  }

  // ---- Quoting ----

  /** `originate_quote`. */
  function Quote(t: string): string {
    if ' ' in t then ['\''] + Escape(t, '\'') + ['\''] else t
  }

  predicate Wrapped(t: string) {
    |t| >= 2 && t[0] == '\'' && t[|t| - 1] == '\''
  }

  /** `originate_unquote`. */
  function Unquote(t: string): string {
    if Wrapped(t) then Unescape(t[1..|t| - 1], '\'') else t
  }

  /** Quoting is undone exactly when the text needed quotes or does not look
      quoted already. */
  lemma UnquoteOfQuote(t: string)
    ensures Unquote(Quote(t)) == t <==> (' ' in t || !Wrapped(t))
  {
    if ' ' in t {
      var q := Quote(t);
      assert q[1..|q| - 1] == Escape(t, '\'');
      UnescapeOfEscape(t, '\'');
    }
  }

  /** Inside quotes, escaped text never closes them. */
  lemma {:induction false} EscapedStaysQuoted(s: string, sep: char, escaped: bool)
    ensures QuotedAfter(Escape(s, '\''), escaped, true)
    ensures Whole(Escape(s, '\''), sep, escaped, true, false)
  {
    if s != "" {
      var e := Escape(s[1..], '\'');
      if s[0] == '\'' {
        assert Escape(s, '\'')[1..] == ['\''] + e && (['\''] + e)[1..] == e;
        EscapedStaysQuoted(s[1..], sep, false);
      } else {
        assert Escape(s, '\'')[1..] == e;
        EscapedStaysQuoted(s[1..], sep, s[0] == '\\');
      }
    }
  }

  /** A quoted text is one good token exactly when it does not end in a backslash,
      which would escape the closing quote. */
  lemma QuoteIsGoodExactly(t: string)
    requires ' ' in t
    ensures GoodToken(Quote(t), ' ') <==> t[|t| - 1] != '\\'
  {
    var e := Escape(t, '\'');
    var q, sep := ['\''], ' ';
    EscapeLast(t, '\'');
    EscapedStaysQuoted(t, sep, false);
    WholeOfOne('\'', sep, false, false, true);
    WholeOfOne('\'', sep, EscapedAfter(e, false), true, false);
    WholeConcat(q, e, sep, false, false, true);
    AfterConcat(q, e, false, false);
    WholeConcat(q + e, q, sep, false, false, true);
    AfterConcat(q + e, q, false, false);
    assert !Blank(q) && !IsWs('\'');
    assert (q + e)[0] == '\'';
    assert Quote(t) == q + e + q;
  }
}
