/** How the text of a command reads at the other end: one block of lines, a blank
    line, and exactly as many bytes as the block announces. */
module OutgoingFrames {
  import opened Text
  import opened Headers
  import opened Event
  import opened WireFormat

  /** The lines before the first blank line, and the text after it. */
  predicate Reads(text: Bytes, lines: seq<Bytes>, body: Bytes) {
    match Find(text, [LF, LF])
    case None => false
    case Some(p) => Lines(text[..p]) == lines && text[p + 2..] == body
  }

  /** What a line states as the length of the body, if it states one. */
  function LengthText(line: Bytes): Option<Bytes> {
    match IndexOf(line, ':')
    case None => None
    case Some(i) => if Trim(line[..i]) == CONTENT_LENGTH then Some(Trim(line[i + 1..])) else None
  }

  predicate IsNumber(v: Bytes, n: nat) {
    v != [] && (forall i | 0 <= i < |v| :: IsDigit(v[i])) && DigitsValue(v) == n
  }

  predicate Agrees(line: Bytes, n: nat) {
    LengthText(line).Some? ==> IsNumber(LengthText(line).value, n)
  }

  /** Every line that states a length states `n`, and one does unless `n` is 0. */
  predicate Announced(lines: seq<Bytes>, n: nat) {
    && (forall l | l in lines :: Agrees(l, n))
    && (n == 0 || exists l | l in lines :: LengthText(l).Some?)
  }

  /** The first blank line is followed by exactly as many bytes as the header
      lines between the command line and it announce. */
  predicate OneFrame(text: Bytes) {
    match Find(text, [LF, LF])
    case None => false
    case Some(p) =>
      var lines := Lines(text[..p]);
      lines != [] && Announced(lines[1..], |text| - p - 2)
  }

  predicate PlainLines(lines: seq<Bytes>) {
    forall l | l in lines :: PlainLine(l)
  }

  lemma BlankOfFramed(lines: seq<Bytes>, body: Bytes)
    requires lines != [] && PlainLines(lines)
    ensures Unlines(lines) != [] && FirstBlank(Framed(lines, body), |Unlines(lines)| - 1)
  {
    assert forall l | l in lines :: SolidLine(l);
    UnlinesEndsInLf(lines);
    BlankLineAfterBlock(lines, body);
  }

  lemma SlicesOfFramed(u: Bytes, body: Bytes)
    requires u != []
    ensures var text := u + [LF] + body;
      |text| == |u| + 1 + |body| && text[..|u| - 1] == u[..|u| - 1] && text[|u| + 1..] == body
  {
  }

  lemma ReadsAt(text: Bytes, p: nat, ls: seq<Bytes>, body: Bytes)
    requires FirstBlank(text, p) && Lines(text[..p]) == ls && text[p + 2..] == body
    ensures Reads(text, ls, body)
  {
    FindBlank(text, p);
  }

  lemma FramedReads(lines: seq<Bytes>, body: Bytes)
    requires lines != [] && PlainLines(lines)
    ensures Reads(Framed(lines, body), lines, body)
    ensures OneFrame(Framed(lines, body)) <==> Announced(lines[1..], |body|)
  {
    var p := |Unlines(lines)| - 1;
    BlankOfFramed(lines, body);
    SlicesOfFramed(Unlines(lines), body);
    LinesOfUnlines(lines);
    ReadsAt(Framed(lines, body), p, lines, body);
    OneFrameAt(Framed(lines, body), p, lines, |body|);
  }

  // ---- The lines of a built command ----

  lemma WrittenIsPlain(k: Bytes, v: Bytes)
    requires OneLine(k) && OneLine(v)
    ensures PlainLine(WriteLine(k, v))
  {
    var l := WriteLine(k, v);
    assert l == k + [':', ' '] + v;
    assert v != [] ==> l[|l| - 1] == v[|v| - 1];
  }

  lemma DigitsAreClean(s: Bytes)
    requires forall i | 0 <= i < |s| :: IsDigit(s[i])
    ensures OneLine(s) && Trimmed(s)
  {
  }

  lemma DecimalIsNumber(n: nat)
    ensures IsNumber(Decimal(n), n) && OneLine(Decimal(n)) && Trimmed(Decimal(n))
  {
    DigitsValueOfDecimal(n);
    DigitsAreClean(Decimal(n));
  }

  /** The name that a written line shows. */
  lemma LengthTextOfWritten(k: Bytes, v: Bytes)
    requires CleanKey(k)
    ensures LengthText(WriteLine(k, v)) == if k == CONTENT_LENGTH then Some(Trim([' '] + v)) else None
  {
    var l := WriteLine(k, v);
    assert l == k + [':'] + ([' '] + v);
    IndexOfSplit(k, ':', [' '] + v);
    assert l[..|k|] == k && l[|k| + 1..] == [' '] + v;
    TrimFixed(k);
  }

  lemma LengthNameIsClean()
    ensures CleanKey(CONTENT_LENGTH) && OneLine(CONTENT_LENGTH)
  {
  }

  lemma LengthLineStates(n: nat)
    ensures PlainLine(WriteLine(CONTENT_LENGTH, Decimal(n)))
    ensures LengthText(WriteLine(CONTENT_LENGTH, Decimal(n))) == Some(Decimal(n)) && IsNumber(Decimal(n), n)
  {
    LengthNameIsClean();
    DecimalIsNumber(n);
    WrittenIsPlain(CONTENT_LENGTH, Decimal(n));
    LengthTextOfWritten(CONTENT_LENGTH, Decimal(n));
    TrimLeadingSpace(Decimal(n));
  }

  /** Each header whose line reads as a length states the length `n`. */
  predicate OwnLengthsAgree(headers: HeaderMap, n: nat) {
    forall k | k in headers :: Agrees(WriteLine(k, headers[k]), n)
  }

  lemma HeaderLinesAgree(headers: HeaderMap, ks: seq<Bytes>, n: nat)
    requires Enumerates(ks, headers.Keys)
    ensures (forall l | l in HeaderLines(headers, ks) :: Agrees(l, n)) <==> OwnLengthsAgree(headers, n)
  {
    var ls := HeaderLines(headers, ks);
    EnumerationCovers(ks, headers.Keys);
    if forall l | l in ls :: Agrees(l, n) {
      forall k | k in headers ensures Agrees(WriteLine(k, headers[k]), n) {
        var i :| 0 <= i < |ks| && ks[i] == k;
        assert ls[i] in ls;
      }
    }
  }

  lemma HeaderLinesArePlain(headers: HeaderMap, ks: seq<Bytes>)
    requires Enumerates(ks, headers.Keys) && OneLineHeaders(headers)
    ensures PlainLines(HeaderLines(headers, ks))
  {
    forall i | 0 <= i < |ks| ensures PlainLine(HeaderLines(headers, ks)[i]) {
      WrittenIsPlain(ks[i], headers[ks[i]]);
    }
  }

  lemma AnnouncedWithLength(hs: seq<Bytes>, length: Bytes, n: nat)
    requires LengthText(length).Some? && IsNumber(LengthText(length).value, n)
    ensures Announced(hs + [length], n) <==> forall l | l in hs :: Agrees(l, n)
  {
    var ls := hs + [length];
    assert ls[|hs|] == length && length in ls;
    assert forall l | l in hs :: l in ls;
    assert forall l | l in ls :: l in hs || l == length;
  }

  lemma NothingAnnounced(hs: seq<Bytes>)
    ensures Announced(hs + [], 0) <==> forall l | l in hs :: Agrees(l, 0)
  {
    assert hs + [] == hs;
  }

  lemma BuiltLinesAreAnnounced(headers: HeaderMap, ks: seq<Bytes>, body: Option<Bytes>, n: nat)
    requires Enumerates(ks, headers.Keys) && n == |BodyText(body)|
    ensures Announced(HeaderLines(headers, ks) + LengthLine(body), n) <==> OwnLengthsAgree(headers, n)
  {
    HeaderLinesAgree(headers, ks, n);
    if body.Some? {
      LengthLineStates(n);
      AnnouncedWithLength(HeaderLines(headers, ks), WriteLine(CONTENT_LENGTH, Decimal(n)), n);
    } else {
      NothingAnnounced(HeaderLines(headers, ks));
    }
  }

  lemma BuiltLinesArePlain(command: Bytes, headers: HeaderMap, ks: seq<Bytes>, body: Option<Bytes>)
    requires Enumerates(ks, headers.Keys) && OneLineHeaders(headers) && PlainLine(command)
    ensures PlainLines(BuiltLines(command, headers, ks, body))
  {
    HeaderLinesArePlain(headers, ks);
    if body.Some? {
      LengthLineStates(|body.value|);
    }
  }

  /** The text reads as the command line, one line for each header in some order,
      the length of the body if there is one, and the body. */
  ghost predicate ReadsAs(text: Bytes, command: Bytes, headers: HeaderMap, body: Option<Bytes>) {
    exists ks :: Enumerates(ks, headers.Keys) &&
      Reads(text, BuiltLines(command, headers, ks, body), BodyText(body))
  }

  // ---- Command lines that nobody validated ----

  lemma AnnouncedMore(a: seq<Bytes>, b: seq<Bytes>, n: nat)
    requires n == 0 || exists l | l in b :: LengthText(l).Some?
    ensures Announced(a + b, n) <==> (forall l | l in a :: Agrees(l, n)) && Announced(b, n)
  {
    assert forall l | l in a :: l in a + b;
    assert forall l | l in b :: l in a + b;
    assert forall l | l in a + b :: l in a || l in b;
  }

  lemma BuiltLengthIsAnnounced(hs: seq<Bytes>, body: Option<Bytes>)
    ensures |BodyText(body)| == 0 || exists l | l in hs + LengthLine(body) :: LengthText(l).Some?
  {
    if body.Some? {
      var l := WriteLine(CONTENT_LENGTH, Decimal(|body.value|));
      LengthLineStates(|body.value|);
      assert (hs + LengthLine(body))[|hs|] == l;
    }
  }

  lemma CutAtLine(a: Bytes, b: Bytes, i: nat)
    requires i < |a| && a[i] == LF
    ensures a + [LF] + b == a[..i] + [LF] + (a[i + 1..] + [LF] + b)
  {
    assert a == a[..i] + [LF] + a[i + 1..];
  }

  lemma CutAtLineEnd(a: Bytes, i: nat)
    requires i < |a| && a[i] == LF
    ensures a + [LF] == a[..i] + [LF] + (a[i + 1..] + [LF])
  {
    assert a == a[..i] + [LF] + a[i + 1..];
  }

  lemma Chain(lu: seq<Bytes>, lv: seq<Bytes>, s: seq<Bytes>, lm: seq<Bytes>, ln: seq<Bytes>, ys: seq<Bytes>)
    requires lu == s + lm && lv == s + ln && lm == ln + ys
    ensures lu == lv + ys
  {
  }

  lemma LinesOfOne(l: Bytes, b: Bytes)
    requires LF !in l
    ensures Lines(l + [LF] + b) == Lines(l + [LF]) + Lines(b)
  {
    LinesOfFirst(l, b);
    LinesOfFirst(l, []);
    assert l + [LF] + [] == l + [LF];
  }

  /** Splitting goes on from line to line. */
  lemma {:induction false} LinesConcat(a: Bytes, b: Bytes)
    ensures Lines(a + [LF] + b) == Lines(a + [LF]) + Lines(b)
    decreases |a|
  {
    match IndexOf(a, LF) {
      case None => LinesOfOne(a, b);
      case Some(i) =>
        LinesConcat(a[i + 1..], b);
        var (l, m) := (a[..i], a[i + 1..]);
        CutAtLine(a, b, i);
        CutAtLineEnd(a, i);
        LinesOfFirst(l, m + [LF] + b);
        LinesOfFirst(l, m + [LF]);
        Chain(Lines(a + [LF] + b), Lines(a + [LF]), [StripCr(l)], Lines(m + [LF] + b), Lines(m + [LF]), Lines(b));
    }
  }

  predicate NoBlankIn(u: Bytes) {
    forall j | 0 <= j < |u| - 1 :: u[j] != LF || u[j + 1] != LF
  }

  lemma NoBlankInside(u: Bytes)
    requires Find(u, [LF, LF]).None?
    ensures NoBlankIn(u)
  {
    forall j | 0 <= j < |u| - 1 ensures u[j] != LF || u[j + 1] != LF {
      assert !IsAt(u, [LF, LF], j);
      assert u[j..j + 2] == [u[j], u[j + 1]];
    }
  }

  /** A text without a blank line does not hide the first one after it. */
  lemma FirstBlankPast(u: Bytes, t: Bytes, p: nat)
    requires NoBlankIn(u) && t != [] && t[0] != LF && FirstBlank(t, p)
    ensures FirstBlank(u + t, |u| + p)
  {
    var s := u + t;
    forall j | 0 <= j < |u| + p ensures s[j] != LF || s[j + 1] != LF {
      if j + 1 < |u| {
        assert s[j] == u[j] && s[j + 1] == u[j + 1];
      } else if j + 1 == |u| {
        assert s[j + 1] == t[0];
      } else {
        assert s[j] == t[j - |u|] && s[j + 1] == t[j + 1 - |u|];
      }
    }
    assert s[|u| + p] == t[p] && s[|u| + p + 1] == t[p + 1];
  }

  lemma BlankAfterCommand(c: Bytes)
    requires NoBlankIn(c + [LF])
    ensures FirstBlank(c + [LF] + [LF], |c|)
  {
    var u, s := c + [LF], c + [LF] + [LF];
    assert forall j | 0 <= j < |u| :: s[j] == u[j];
  }

  lemma OneFrameAt(text: Bytes, p: nat, ls: seq<Bytes>, n: nat)
    requires FirstBlank(text, p) && Lines(text[..p]) == ls && |text| == p + 2 + n
    ensures OneFrame(text) <==> ls != [] && Announced(ls[1..], n)
  {
    FindBlank(text, p);
  }

  lemma SlicesBelow(c: Bytes, u: Bytes, body: Bytes)
    requires u != []
    ensures var text := c + [LF] + (u + [LF] + body);
      text[..|c| + |u|] == c + [LF] + u[..|u| - 1] && |text| == |c| + |u| + 2 + |body|
  {
  }

  lemma LinesBelow(c: Bytes, more: seq<Bytes>)
    requires more != [] && PlainLines(more)
    ensures Unlines(more) != []
    ensures Lines(c + [LF] + Unlines(more)[..|Unlines(more)| - 1]) == Lines(c + [LF]) + more
  {
    UnlinesEndsInLf(more);
    LinesOfUnlines(more);
    LinesConcat(c, Unlines(more)[..|Unlines(more)| - 1]);
  }

  lemma BlankBelow(c: Bytes, more: seq<Bytes>, body: Bytes)
    requires Find(c + [LF], [LF, LF]).None? && more != [] && PlainLines(more)
    ensures FirstBlank(c + [LF] + Framed(more, body), |c| + |Unlines(more)|)
  {
    assert forall l | l in more :: SolidLine(l);
    UnlinesEndsInLf(more);
    BlankLineAfterBlock(more, body);
    StartsSolid(more, body);
    NoBlankInside(c + [LF]);
    FirstBlankPast(c + [LF], Framed(more, body), |Unlines(more)| - 1);
  }

  lemma OneFrameWithMore(text: Bytes, head: Bytes, ls: seq<Bytes>, more: seq<Bytes>, n: nat)
    requires FirstBlank(text, |head|) && text[..|head|] == head && |text| == |head| + 2 + n
    requires Lines(head) == ls + more && ls != []
    ensures OneFrame(text) <==> Announced(ls[1..] + more, n)
  {
    OneFrameAt(text, |head|, ls + more, n);
    assert (ls + more)[1..] == ls[1..] + more;
  }

  lemma FramedBelow(c: Bytes, more: seq<Bytes>, body: Bytes)
    requires Find(c + [LF], [LF, LF]).None? && more != [] && PlainLines(more)
    ensures Lines(c + [LF]) != []
    ensures OneFrame(c + [LF] + Framed(more, body)) <==> Announced(Lines(c + [LF])[1..] + more, |body|)
  {
    BlankBelow(c, more, body);
    LinesBelow(c, more);
    SlicesBelow(c, Unlines(more), body);
    LinesAreSome(c);
    var head := c + [LF] + Unlines(more)[..|Unlines(more)| - 1];
    OneFrameWithMore(c + [LF] + Framed(more, body), head, Lines(c + [LF]), more, |body|);
  }

  lemma StartsSolid(more: seq<Bytes>, body: Bytes)
    requires more != [] && PlainLines(more)
    ensures Framed(more, body) != [] && Framed(more, body)[0] != LF
  {
    assert PlainLine(more[0]);
  }

  lemma LinesAreSome(c: Bytes)
    ensures Lines(c + [LF]) != []
  {
    assert (c + [LF])[|c|] == LF;
  }

  /** Nothing but the command line and a blank line. */
  lemma FramedAlone(c: Bytes)
    requires Find(c + [LF], [LF, LF]).None?
    ensures OneFrame(c + [LF] + [LF]) <==> Lines(c) != [] && Announced(Lines(c)[1..], 0)
  {
    var text := c + [LF] + [LF];
    assert text[..|c|] == c;
    NoBlankInside(c + [LF]);
    BlankAfterCommand(c);
    OneFrameAt(text, |c|, Lines(c), 0);
  }

  /** A blank line in the command line ends the block there. */
  lemma FramedEarly(c: Bytes, rest: Bytes, q: nat)
    requires Find(c + [LF], [LF, LF]) == Some(q)
    ensures q < |c|
    ensures OneFrame(c + [LF] + rest) <==>
      Lines(c[..q]) != [] && Announced(Lines(c[..q])[1..], |c| + 1 + |rest| - q - 2)
  {
    FindStable(c + [LF], rest, [LF, LF]);
    assert (c + [LF] + rest)[..q] == c[..q];
  }

  /** The bytes of the header lines, in the given order. */
  function LinesSize(headers: HeaderMap, ks: seq<Bytes>): nat
    requires forall i | 0 <= i < |ks| :: ks[i] in headers
  {
    if ks == [] then 0 else |WriteLine(ks[0], headers[ks[0]])| + 1 + LinesSize(headers, ks[1..])
  }

  lemma {:induction false} LinesSizeConcat(headers: HeaderMap, a: seq<Bytes>, b: seq<Bytes>)
    requires (forall i | 0 <= i < |a| :: a[i] in headers) && (forall i | 0 <= i < |b| :: b[i] in headers)
    ensures LinesSize(headers, a + b) == LinesSize(headers, a) + LinesSize(headers, b)
  {
    if a == [] {
      assert a + b == b;
    } else {
      assert (a + b)[1..] == a[1..] + b;
      LinesSizeConcat(headers, a[1..], b);
    }
  }

  lemma LinesSizeWithout(headers: HeaderMap, b: seq<Bytes>, i: nat)
    requires i < |b| && forall j | 0 <= j < |b| :: b[j] in headers
    ensures LinesSize(headers, b) == LinesSize(headers, [b[i]] + (b[..i] + b[i + 1..]))
  {
    var x, y, z := b[..i], [b[i]], b[i + 1..];
    LinesSizeConcat(headers, x, y + z);
    LinesSizeConcat(headers, y, z);
    LinesSizeConcat(headers, y, x + z);
    LinesSizeConcat(headers, x, z);
    assert b == x + (y + z);
  }

  lemma MultisetWithout(a: seq<Bytes>, b: seq<Bytes>, i: nat)
    requires a != [] && i < |b| && b[i] == a[0] && multiset(a) == multiset(b)
    ensures multiset(a[1..]) == multiset(b[..i] + b[i + 1..])
  {
    var x, z := b[..i], b[i + 1..];
    assert multiset(a[1..]) == multiset(a) - multiset{a[0]} by {
      assert a == [a[0]] + a[1..];
    }
    assert multiset(x + z) == multiset(b) - multiset{b[i]} by {
      assert b == x + ([b[i]] + z);
    }
  }

  /** Their size does not depend on the order. */
  lemma {:induction false} LinesSizePermutes(headers: HeaderMap, a: seq<Bytes>, b: seq<Bytes>)
    requires (forall i | 0 <= i < |a| :: a[i] in headers) && (forall i | 0 <= i < |b| :: b[i] in headers)
    requires multiset(a) == multiset(b)
    ensures LinesSize(headers, a) == LinesSize(headers, b)
  {
    assert |a| == |multiset(a)| == |multiset(b)| == |b|;
    if a != [] {
      assert a[0] in multiset(b);
      var i :| 0 <= i < |b| && b[i] == a[0];
      var rest := b[..i] + b[i + 1..];
      MultisetWithout(a, b, i);
      LinesSizeWithout(headers, b, i);
      LinesSizePermutes(headers, a[1..], rest);
      assert ([b[i]] + rest)[1..] == rest;
    }
  }

  lemma {:induction false} UnlinesSize(headers: HeaderMap, ks: seq<Bytes>)
    requires forall i | 0 <= i < |ks| :: ks[i] in headers
    ensures |Unlines(HeaderLines(headers, ks))| == LinesSize(headers, ks)
  {
    if ks != [] {
      UnlinesSize(headers, ks[1..]);
      assert HeaderLines(headers, ks)[1..] == HeaderLines(headers, ks[1..]);
    }
  }

  lemma SortedNamesAreNames(headers: HeaderMap)
    ensures forall i | 0 <= i < |SortedNames(headers.Keys)| :: SortedNames(headers.Keys)[i] in headers
  {
    var ks := SortedNames(headers.Keys);
    forall i | 0 <= i < |ks| ensures ks[i] in headers {
      assert ks[i] in multiset(ks);
    }
  }

  /** The size of a built text below its command line: headers, length, blank line
      and body. */
  ghost function SizeBelow(headers: HeaderMap, body: Option<Bytes>): nat {
    SortedNamesAreNames(headers);
    LinesSize(headers, SortedNames(headers.Keys)) + |Unlines(LengthLine(body))| + 1 + |BodyText(body)|
  }

  lemma SizeIsBelow(headers: HeaderMap, ks: seq<Bytes>, body: Option<Bytes>)
    requires Enumerates(ks, headers.Keys)
    ensures |Framed(HeaderLines(headers, ks) + LengthLine(body), BodyText(body))| == SizeBelow(headers, body)
  {
    SortedNamesAreNames(headers);
    EnumerationMultiset(ks, headers.Keys);
    LinesSizePermutes(headers, ks, SortedNames(headers.Keys));
    UnlinesSize(headers, ks);
    UnlinesConcat(HeaderLines(headers, ks), LengthLine(body));
  }

  /** When a built text is one frame, for any command line. If the command line
      holds a blank line, what follows the blank line - the rest of the command
      line, the headers and the body - must be as long as the lines before it
      announce. If not, the extra lines it may hold and the headers must not state
      another length than that of the body, and the block must not be empty. */
  ghost predicate BuilderFits(command: Bytes, headers: HeaderMap, body: Option<Bytes>) {
    var n := |BodyText(body)|;
    var alone := headers == map[] && body.None?;
    match Find(command + [LF], [LF, LF])
    case Some(q) =>
      var ls := Lines(command[..q]);
      ls != [] && Announced(ls[1..], |command| + 1 - (q + 2) + SizeBelow(headers, body))
    case None =>
      var ls := Lines(if alone then command else command + [LF]);
      ls != [] && (forall l | l in ls[1..] :: Agrees(l, n)) && OwnLengthsAgree(headers, n)
  }

  lemma FramedCons(command: Bytes, more: seq<Bytes>, body: Bytes)
    ensures Framed([command] + more, body) == command + [LF] + Framed(more, body)
  {
    assert ([command] + more)[1..] == more;
    assert Unlines([command] + more) == command + [LF] + Unlines(more);
  }

  lemma BuiltShape(command: Bytes, headers: HeaderMap, ks: seq<Bytes>, body: Option<Bytes>)
    requires Enumerates(ks, headers.Keys)
    ensures Framed(BuiltLines(command, headers, ks, body), BodyText(body)) ==
      command + [LF] + Framed(HeaderLines(headers, ks) + LengthLine(body), BodyText(body))
    ensures HeaderLines(headers, ks) + LengthLine(body) == [] <==> headers == map[] && body.None?
  {
    var hs, len := HeaderLines(headers, ks), LengthLine(body);
    assert [command] + hs + len == [command] + (hs + len);
    FramedCons(command, hs + len, BodyText(body));
    assert headers == map[] <==> |headers.Keys| == 0;
  }

  lemma FitsEarly(text: Bytes, command: Bytes, headers: HeaderMap, body: Option<Bytes>, rest: Bytes, q: nat)
    requires Find(command + [LF], [LF, LF]) == Some(q) && text == command + [LF] + rest
    requires |rest| == SizeBelow(headers, body)
    ensures OneFrame(text) <==> BuilderFits(command, headers, body)
  {
    FramedEarly(command, rest, q);
  }

  lemma FitsAlone(text: Bytes, command: Bytes, headers: HeaderMap, body: Option<Bytes>)
    requires Find(command + [LF], [LF, LF]).None? && text == command + [LF] + [LF]
    requires headers == map[] && body.None?
    ensures OneFrame(text) <==> BuilderFits(command, headers, body)
  {
    FramedAlone(command);
  }

  lemma FitsWithMore(text: Bytes, command: Bytes, headers: HeaderMap, ks: seq<Bytes>, body: Option<Bytes>,
                     more: seq<Bytes>)
    requires Find(command + [LF], [LF, LF]).None? && Enumerates(ks, headers.Keys) && OneLineHeaders(headers)
    requires more == HeaderLines(headers, ks) + LengthLine(body) && more != []
    requires text == command + [LF] + Framed(more, BodyText(body)) && !(headers == map[] && body.None?)
    ensures OneFrame(text) <==> BuilderFits(command, headers, body)
  {
    MoreArePlain(headers, ks, body);
    FramedBelow(command, more, BodyText(body));
    BuiltLengthIsAnnounced(HeaderLines(headers, ks), body);
    AnnouncedMore(Lines(command + [LF])[1..], more, |BodyText(body)|);
    BuiltLinesAreAnnounced(headers, ks, body, |BodyText(body)|);
  }

  /** Exactly when the builder's text is one frame, whatever the command line. */
  lemma BuiltIsOneFrame(text: Bytes, command: Bytes, headers: HeaderMap, body: Option<Bytes>)
    requires Built(text, command, headers, body) && OneLineHeaders(headers)
    ensures OneFrame(text) <==> BuilderFits(command, headers, body)
  {
    var ks :| Enumerates(ks, headers.Keys) &&
      text == Framed(BuiltLines(command, headers, ks, body), BodyText(body));
    var more := HeaderLines(headers, ks) + LengthLine(body);
    BuiltShape(command, headers, ks, body);
    var blank := Find(command + [LF], [LF, LF]);
    if blank.Some? {
      SizeIsBelow(headers, ks, body);
      FitsEarly(text, command, headers, body, Framed(more, BodyText(body)), blank.value);
    } else if more == [] {
      assert Framed(more, BodyText(body)) == [LF];
      FitsAlone(text, command, headers, body);
    } else {
      FitsWithMore(text, command, headers, ks, body, more);
    }
  }

  lemma MoreArePlain(headers: HeaderMap, ks: seq<Bytes>, body: Option<Bytes>)
    requires Enumerates(ks, headers.Keys) && OneLineHeaders(headers)
    ensures PlainLines(HeaderLines(headers, ks) + LengthLine(body))
  {
    HeaderLinesArePlain(headers, ks);
    if body.Some? {
      LengthLineStates(|body.value|);
    }
  }

  lemma OneLineHasNoBlank(c: Bytes)
    requires LF !in c
    ensures Find(c + [LF], [LF, LF]).None?
  {
    var s := c + [LF];
    forall j: nat ensures !IsAt(s, [LF, LF], j) {
      if j + 2 <= |s| {
        assert s[j] == c[j] && s[j..j + 2] == [s[j], s[j + 1]];
      }
    }
  }

  lemma OneLineLines(c: Bytes)
    requires LF !in c && c != []
    ensures Lines(c) == [c]
    ensures Lines(c + [LF]) == [StripCr(c)]
  {
    LinesOfFirst(c, []);
    assert c + [LF] + [] == c + [LF];
  }

  lemma OneLineFits(command: Bytes, headers: HeaderMap, body: Option<Bytes>)
    requires LF !in command && command != []
    ensures BuilderFits(command, headers, body) <==> OwnLengthsAgree(headers, |BodyText(body)|)
  {
    OneLineHasNoBlank(command);
    OneLineLines(command);
  }

  /** For a command line of one line, whatever the order of the headers, the text
      reads back as that line, one line for each header, and the body, and it is
      one frame exactly when no header of its own states another length. */
  lemma BuiltReads(text: Bytes, command: Bytes, headers: HeaderMap, body: Option<Bytes>)
    requires Built(text, command, headers, body) && OneLineHeaders(headers)
    requires OneLine(command) && command != []
    ensures ReadsAs(text, command, headers, body)
    ensures OneFrame(text) <==> OwnLengthsAgree(headers, |BodyText(body)|)
  {
    var ks :| Enumerates(ks, headers.Keys) &&
      text == Framed(BuiltLines(command, headers, ks, body), BodyText(body));
    BuiltLinesArePlain(command, headers, ks, body);
    FramedReads(BuiltLines(command, headers, ks, body), BodyText(body));
    BuiltIsOneFrame(text, command, headers, body);
    OneLineFits(command, headers, body);
  }

  /** A command line with a blank line, which the builder accepts, is cut in two. */
  lemma BlankLineSplitsTheCommand(text: Bytes)
    requires Built(text, ['a', LF, LF, 'b'], map[], None)
    ensures !OneFrame(text)
  {
    var c := ['a', LF, LF, 'b'];
    BuiltIsOneFrame(text, c, map[], None);
    assert FirstBlank(c + [LF], 1);
    FindBlank(c + [LF], 1);
    assert c[..1] == ['a'] && IndexOf(['a'], LF).None? && Lines(['a']) == [['a']];
  }

  // ---- Every command ----

  lemma {:induction false} WordsAreOneLine(ws: seq<Bytes>)
    requires forall w | w in ws :: OneLine(w)
    ensures OneLine(Words(ws))
  {
    if ws != [] {
      assert ws[0] in ws;
      WordsAreOneLine(ws[1..]);
    }
  }

  /** The wire names of event types are words. */
  predicate TypeNameIsOneLine(c: EslCommand) {
    c.SendEvent? && c.event.eventType.Some? ==> OneLine(c.event.eventType.value)
  }

  lemma CommandLineIsOneLine(c: EslCommand)
    requires Clean(c) && TypeNameIsOneLine(c)
    ensures OneLine(CommandLine(c)) && CommandLine(c) != []
  {
    var (cmd, ws) := CommandWords(c);
    forall w | w in ws ensures OneLine(w) {
      WordIsOneLine(c, w);
    }
    WordsAreOneLine(ws);
    NameIsOneLine(c);
  }

  lemma FixedNameIsOneLine(c: EslCommand)
    requires Fixed(c)
    ensures OneLine(CommandWords(c).0) && CommandWords(c).0 != []
  {
  }

  lemma NameIsOneLine(c: EslCommand)
    ensures OneLine(CommandWords(c).0) && CommandWords(c).0 != []
  {
    if Fixed(c) {
      FixedNameIsOneLine(c);
    }
  }

  lemma WordIsOneLine(c: EslCommand, w: Bytes)
    requires Clean(c) && TypeNameIsOneLine(c) && w in CommandWords(c).1
    ensures OneLine(w)
  {
    if c.Linger? {
      DecimalIsNumber(c.timeout.value);
    }
  }

  lemma PayloadIsOneLine(c: EslCommand)
    requires Clean(c)
    ensures OneLineHeaders(Payload(c).0)
  {
    if c.Execute? {
      ExecuteHeadersOneLine(c.app, c.args);
    }
  }

  /** Every accepted command, for any order of its headers, is one frame exactly
      when its event carries no length header that contradicts its body. */
  lemma WireIsOneFrame(c: EslCommand, text: Bytes)
    requires Clean(c) && TypeNameIsOneLine(c) && IsWire(c, text)
    ensures OneFrame(text) <==> OwnLengthsAgree(Payload(c).0, |BodyText(Payload(c).1)|)
    ensures ReadsAs(text, CommandLine(c), Payload(c).0, Payload(c).1)
  {
    CommandLineIsOneLine(c);
    PayloadIsOneLine(c);
    BuiltReads(text, CommandLine(c), Payload(c).0, Payload(c).1);
  }

  lemma FiveIsNotNone()
    ensures !Agrees(WriteLine(CONTENT_LENGTH, ['5']), 0)
  {
    LengthNameIsClean();
    LengthTextOfWritten(CONTENT_LENGTH, ['5']);
    TrimLeadingSpace(['5']);
    assert DigitsValue(['5']) == 5;
  }

  /** An event without a body that states a length of five is accepted, and what is
      sent is not one frame. */
  lemma ContradictingLengthExample(c: EslCommand, text: Bytes)
    requires c == SendMsg(None, EventValue(None, map[CONTENT_LENGTH := ['5']], None)) && IsWire(c, text)
    ensures Clean(c) && !OneFrame(text)
  {
    LengthNameIsClean();
    FiveIsNotNone();
    assert CONTENT_LENGTH in Payload(c).0;
    WireIsOneFrame(c, text);
  }

  /** The command has no event of its own, or one whose header names are plain and
      not Content-Length. */
  predicate NoOwnLength(c: EslCommand) {
    c.SendMsg? || c.SendEvent? ==> forall k | k in c.event.headers :: CleanKey(k) && k != CONTENT_LENGTH
  }

  lemma ExecuteNamesAreOthers(k: Bytes)
    requires k == "call-command" || k == "execute-app-name" || k == "execute-app-arg"
    ensures CleanKey(k) && k != CONTENT_LENGTH
  {
    assert CONTENT_LENGTH[0] == 'C';
  }

  /** So a command without a length header of its own is always one frame. */
  lemma WireIsAlwaysOneFrame(c: EslCommand, text: Bytes)
    requires Clean(c) && TypeNameIsOneLine(c) && IsWire(c, text) && NoOwnLength(c)
    ensures OneFrame(text)
  {
    var headers, n := Payload(c).0, |BodyText(Payload(c).1)|;
    forall k | k in headers ensures Agrees(WriteLine(k, headers[k]), n) {
      if c.Execute? {
        ExecuteNamesAreOthers(k);
      }
      LengthTextOfWritten(k, headers[k]);
    }
    WireIsOneFrame(c, text);
  }
}
