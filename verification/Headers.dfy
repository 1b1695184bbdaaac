/** Header blocks: `key: value` lines, as the frame parser and the plain-event
    parser both read them. */
module Headers {
  import opened Text
  import Percent

  type HeaderMap = map<Bytes, Bytes>

  /** The header that states the length of a body, incoming and outgoing. */
  const CONTENT_LENGTH: Bytes := "Content-Length"

  /** A non-blank line: a key and its decoded value, or no colon. */
  datatype Line = Pair(key: Bytes, value: Bytes) | NoColon(text: Bytes)

  /** One line of a block; `None` when it is blank. */
  function ParseLine(raw: Bytes): Option<Line> {
    var line := Trim(raw);
    if line == [] then None
    else
      match IndexOf(line, ':')
      case None => Some(NoColon(line))
      case Some(i) => Some(Pair(Trim(line[..i]), Percent.DecodeValue(Trim(line[i + 1..]))))
  }

  /** The frame parser: a line without a colon is an error; a repeated key
      keeps its last value. */
  function Strict(lines: seq<Bytes>, sofar: HeaderMap): Result<HeaderMap, Bytes> {
    if lines == [] then Ok(sofar)
    else
      match ParseLine(lines[0])
      case None => Strict(lines[1..], sofar)
      case Some(NoColon(text)) => Err(text)
      case Some(Pair(k, v)) => Strict(lines[1..], sofar[k := v])
  }

  /** The plain-event parser: a line without a colon is skipped. */
  function Lenient(lines: seq<Bytes>, sofar: HeaderMap): HeaderMap {
    if lines == [] then sofar
    else
      match ParseLine(lines[0])
      case Some(Pair(k, v)) => Lenient(lines[1..], sofar[k := v])
      case _ => Lenient(lines[1..], sofar)
  }

  function ParseStrict(block: Bytes): Result<HeaderMap, Bytes> {
    Strict(Lines(block), map[])
  }

  function ParseLenient(block: Bytes): HeaderMap {
    Lenient(Lines(block), map[])
  }

  // ---- Writing ----

  /** A key that can be read back from a line it starts. */
  predicate CleanKey(k: Bytes) {
    ':' !in k && LF !in k && Trimmed(k)
  }

  /** A raw value that can be read back from the end of a line. */
  predicate CleanRaw(r: Bytes) {
    LF !in r && Trimmed(r)
  }

  function WriteLine(k: Bytes, raw: Bytes): Bytes {
    k + ": " + raw
  }

  lemma TrimmedKeyLine(k: Bytes, t: Bytes)
    requires Trimmed(k)
    ensures LeadingWs(k + [':'] + t) == 0
  {
    var s := k + [':'] + t;
    if k != [] {
      assert s[0] == k[0];
      assert |k| >= 2 ==> s[1] == k[1];
      assert |k| >= 3 ==> s[2] == k[2];
    }
  }

  lemma TrimTail(a: Bytes, r: Bytes)
    requires Trimmed(r) && r != []
    requires a != [] && a[|a| - 1] as int < 0x80
    ensures TrailingWs(a + r) == 0
  {
    var s := a + r;
    assert s[|s| - 1] == r[|r| - 1];
    if |r| == 1 {
      assert s[|s| - 2] == a[|a| - 1];
    } else {
      assert s[|s| - 2] == r[|r| - 2];
      if |r| == 2 {
        assert s[|s| - 3] == a[|a| - 1];
      } else {
        assert s[|s| - 3] == r[|r| - 3];
      }
    }
  }

  lemma TrimLeadingSpace(r: Bytes)
    requires Trimmed(r)
    ensures Trim([' '] + r) == r
  {
    assert ([' '] + r)[1..] == r;
    assert TrimStart([' '] + r) == TrimStart(r);
  }

  lemma TrimWrittenEmpty(k: Bytes)
    requires CleanKey(k)
    ensures Trim(WriteLine(k, [])) == k + [':']
  {
    var l, a := WriteLine(k, []), k + [':'];
    assert l == k + [':'] + [' '];
    TrimmedKeyLine(k, [' ']);
    assert l[..|l| - 1] == a;
    assert TrimEnd(l) == TrimEnd(a) == a;
  }

  lemma TrimWritten(k: Bytes, raw: Bytes)
    requires CleanKey(k) && CleanRaw(raw) && raw != []
    ensures Trim(WriteLine(k, raw)) == k + [':'] + ([' '] + raw)
  {
    var l := WriteLine(k, raw);
    TrimmedKeyLine(k, [' '] + raw);
    assert l == k + [':'] + ([' '] + raw) == k + [':', ' '] + raw;
    TrimTail(k + [':', ' '], raw);
  }

  lemma WrittenLineIsPlain(k: Bytes, raw: Bytes)
    requires LF !in k && CleanRaw(raw)
    ensures PlainLine(WriteLine(k, raw)) && SolidLine(WriteLine(k, raw))
  {
    var l := WriteLine(k, raw);
    assert l[|l| - 1] == if raw == [] then ' ' else raw[|raw| - 1];
  }

  lemma ParseOfTrimmed(raw: Bytes, k: Bytes, t: Bytes, v: Bytes)
    requires Trim(raw) == k + [':'] + t && ':' !in k && Trim(k) == k && Trim(t) == v
    ensures ParseLine(raw) == Some(Pair(k, Percent.DecodeValue(v)))
  {
    var line := k + [':'] + t;
    IndexOfSplit(k, ':', t);
    assert line[..|k|] == k && line[|k| + 1..] == t;
  }

  /** A written line reads back as its key and decoded value. */
  lemma ParseWrittenLine(k: Bytes, raw: Bytes)
    requires CleanKey(k) && CleanRaw(raw)
    ensures ParseLine(WriteLine(k, raw)) == Some(Pair(k, Percent.DecodeValue(raw)))
  {
    TrimFixed(k);
    if raw == [] {
      TrimWrittenEmpty(k);
      assert k + [':'] == k + [':'] + [];
      ParseOfTrimmed(WriteLine(k, raw), k, [], raw);
    } else {
      TrimWritten(k, raw);
      TrimLeadingSpace(raw);
      ParseOfTrimmed(WriteLine(k, raw), k, [' '] + raw, raw);
    }
  }

  // ---- White space around the parts of a line ----

  predicate Padding(w: Bytes) {
    forall i | 0 <= i < |w| :: w[i] == ' ' || w[i] == '\t' || w[i] == CR
  }

  lemma {:induction false} TrimPadding(w: Bytes, s: Bytes)
    requires Padding(w)
    ensures TrimStart(w + s) == TrimStart(s)
  {
    if w == [] {
      assert w + s == s;
    } else {
      assert (w + s)[1..] == w[1..] + s;
      TrimPadding(w[1..], s);
    }
  }

  lemma {:induction false} TrimPaddingEnd(s: Bytes, w: Bytes)
    requires Padding(w)
    ensures TrimEnd(s + w) == TrimEnd(s)
    decreases |w|
  {
    if w == [] {
      assert s + w == s;
    } else {
      var n := |w| - 1;
      assert (s + w)[..|s + w| - 1] == s + w[..n] && (s + w)[|s + w| - 1] == w[n];
      TrimPaddingEnd(s, w[..n]);
    }
  }

  lemma TrimStartKeeps(s: Bytes, w: Bytes)
    requires Trimmed(s) && s != [] && Padding(w)
    ensures LeadingWs(s + w) == 0
  {
    assert forall i | 0 <= i < |s| :: (s + w)[i] == s[i];
    assert forall i | |s| <= i < |s + w| :: (s + w)[i] == w[i - |s|];
  }

  /** Trimming removes white space on both sides and nothing else. */
  lemma TrimPadded(v: Bytes, s: Bytes, w: Bytes)
    requires Padding(v) && Padding(w) && Trimmed(s)
    ensures Trim(v + s + w) == s
  {
    assert v + s + w == v + (s + w);
    TrimPadding(v, s + w);
    if s == [] {
      assert s + w == w == w + [];
      TrimPadding(w, []);
    } else {
      TrimStartKeeps(s, w);
      TrimPaddingEnd(s, w);
    }
  }

  lemma PaddedParts(a: Bytes, k: Bytes, b: Bytes, c: Bytes, raw: Bytes, d: Bytes)
    requires Padding(a) && Padding(b) && Padding(c) && Padding(d)
    requires CleanKey(k) && k != [] && CleanRaw(raw) && raw != []
    ensures Trim(a + (k + b + [':'] + c + raw) + d) == k + b + [':'] + (c + raw)
  {
    var m := k + b + [':'] + c + raw;
    assert m == k + (b + [':'] + c + raw) == (k + b + [':'] + c) + raw == k + b + [':'] + (c + raw);
    TrimmedParts(k, b + [':'] + c, raw);
    assert m == k + (b + [':'] + c) + raw;
    TrimPadded(a, m, d);
  }

  lemma TrimmedParts(k: Bytes, m: Bytes, raw: Bytes)
    requires Trimmed(k) && k != [] && Trimmed(raw) && raw != []
    requires forall i | 0 <= i < |m| :: m[i] as int < 0x80
    requires m != []
    ensures Trimmed(k + m + raw)
  {
    var s := k + m + raw;
    assert forall i | 0 <= i < |k| :: s[i] == k[i];
    assert forall i | 0 <= i < |m| :: s[|k| + i] == m[i];
    assert forall i | 0 <= i < |raw| :: s[|k| + |m| + i] == raw[i];
  }

  /** White space around the name and around the value does not matter. */
  lemma PaddedLineIsRead(a: Bytes, k: Bytes, b: Bytes, c: Bytes, raw: Bytes, d: Bytes)
    requires Padding(a) && Padding(b) && Padding(c) && Padding(d)
    requires CleanKey(k) && k != [] && CleanRaw(raw) && raw != []
    ensures ParseLine(a + (k + b + [':'] + c + raw) + d) == Some(Pair(k, Percent.DecodeValue(raw)))
  {
    PaddedParts(a, k, b, c, raw, d);
    assert [] + k + b == k + b && c + raw + [] == c + raw;
    TrimPadded([], k, b);
    TrimPadded(c, raw, []);
    var line := k + b + [':'] + (c + raw);
    IndexOfSplit(k + b, ':', c + raw);
    assert line[..|k + b|] == k + b && line[|k + b| + 1..] == c + raw;
  }

  // ---- Blocks ----

  type Entry = (Bytes, Bytes)

  predicate CleanEntry(e: Entry) {
    CleanKey(e.0) && CleanRaw(e.1)
  }

  function WriteLines(es: seq<Entry>): (ls: seq<Bytes>)
    ensures |ls| == |es|
    ensures forall i | 0 <= i < |es| :: ls[i] == WriteLine(es[i].0, es[i].1)
  {
    seq(|es|, i requires 0 <= i < |es| => WriteLine(es[i].0, es[i].1))
  }

  /** The map a list of raw entries stands for. */
  function Collect(es: seq<Entry>, sofar: HeaderMap): HeaderMap {
    if es == [] then sofar
    else Collect(es[1..], sofar[es[0].0 := Percent.DecodeValue(es[0].1)])
  }

  lemma {:induction false} ParseWrittenLines(es: seq<Entry>, sofar: HeaderMap)
    requires forall e | e in es :: CleanEntry(e)
    ensures Strict(WriteLines(es), sofar) == Ok(Collect(es, sofar))
    ensures Lenient(WriteLines(es), sofar) == Collect(es, sofar)
  {
    if es != [] {
      assert CleanEntry(es[0]);
      ParseWrittenLine(es[0].0, es[0].1);
      assert WriteLines(es)[1..] == WriteLines(es[1..]);
      ParseWrittenLines(es[1..], sofar[es[0].0 := Percent.DecodeValue(es[0].1)]);
    }
  }

  lemma WrittenLinesArePlain(es: seq<Entry>)
    requires forall e | e in es :: CleanEntry(e)
    ensures forall l | l in WriteLines(es) :: PlainLine(l)
  {
    var ls := WriteLines(es);
    forall l | l in ls ensures PlainLine(l) {
      var i :| 0 <= i < |ls| && ls[i] == l;
      assert CleanEntry(es[i]);
      WrittenLineIsPlain(es[i].0, es[i].1);
    }
  }

  lemma ParseOfLines(block: Bytes, ls: seq<Bytes>, m: HeaderMap)
    requires Lines(block) == ls && Strict(ls, map[]) == Ok(m) && Lenient(ls, map[]) == m
    ensures ParseStrict(block) == Ok(m) && ParseLenient(block) == m
  {
  }

  /** The block that a list of entries is written to, without its last line feed. */
  function Block(es: seq<Entry>): Bytes
    requires es != []
  {
    var u := Unlines(WriteLines(es));
    UnlinesEndsInLf(WriteLines(es));
    u[..|u| - 1]
  }

  lemma LinesOfBlock(es: seq<Entry>)
    requires es != [] && forall e | e in es :: CleanEntry(e)
    ensures Lines(Block(es)) == WriteLines(es)
  {
    WrittenLinesArePlain(es);
    LinesOfUnlines(WriteLines(es));
  }

  /** Both parsers read a written block back as the map of its entries. */
  lemma ParseWrittenBlock(es: seq<Entry>)
    requires es != [] && forall e | e in es :: CleanEntry(e)
    ensures ParseStrict(Block(es)) == Ok(Collect(es, map[]))
    ensures ParseLenient(Block(es)) == Collect(es, map[])
  {
    LinesOfBlock(es);
    ParseWrittenLines(es, map[]);
    ParseOfLines(Block(es), WriteLines(es), Collect(es, map[]));
  }

  /** Entries that agree with a map, and mention all its keys, collect to it. */
  lemma {:induction false} CollectAgrees(es: seq<Entry>, sofar: HeaderMap, m: HeaderMap)
    requires forall e | e in es :: e.0 in m && Percent.DecodeValue(e.1) == m[e.0]
    requires forall k | k in sofar :: k in m && sofar[k] == m[k]
    ensures forall k | k in Collect(es, sofar) :: k in m && Collect(es, sofar)[k] == m[k]
    ensures forall k | k in sofar :: k in Collect(es, sofar)
    ensures forall e | e in es :: e.0 in Collect(es, sofar)
  {
    if es != [] {
      assert es[0] in es;
      CollectAgrees(es[1..], sofar[es[0].0 := Percent.DecodeValue(es[0].1)], m);
    }
  }

  lemma CollectIs(es: seq<Entry>, m: HeaderMap)
    requires forall e | e in es :: e.0 in m && Percent.DecodeValue(e.1) == m[e.0]
    requires forall k | k in m :: exists e :: e in es && e.0 == k
    ensures Collect(es, map[]) == m
  {
    CollectAgrees(es, map[], m);
    var c := Collect(es, map[]);
    forall k | k in m ensures k in c {
      var e :| e in es && e.0 == k;
    }
  }

  // ---- What parsed keys look like ----

  lemma {:induction false} TrimStartIsSuffix(s: Bytes)
    ensures |TrimStart(s)| <= |s| && TrimStart(s) == s[|s| - |TrimStart(s)|..]
  {
    var n := LeadingWs(s);
    if n > 0 {
      TrimStartIsSuffix(s[n..]);
    }
  }

  lemma TrimKeepsOut(s: Bytes, c: char)
    requires c !in s
    ensures c !in Trim(s)
  {
    TrimStartIsSuffix(s);
  }

  lemma {:induction false} LinesHaveNoLf(s: Bytes)
    ensures forall l | l in Lines(s) :: LF !in l
  {
    match IndexOf(s, LF) {
      case None =>
      case Some(i) =>
        LinesHaveNoLf(s[i + 1..]);
        assert LF !in s[..i];
        assert LF !in StripCr(s[..i]);
    }
  }

  lemma ParsedLineKey(l: Bytes)
    requires LF !in l
    ensures match ParseLine(l) case Some(Pair(k, _)) => CleanKey(k) case _ => true
  {
    var line := Trim(l);
    TrimKeepsOut(l, LF);
    if line != [] && IndexOf(line, ':').Some? {
      var p := line[..IndexOf(line, ':').value];
      assert ':' !in p && LF !in p;
      TrimKeepsOut(p, ':');
      TrimKeepsOut(p, LF);
    }
  }

  /** Every key either parser produces is clean, whatever the input. */
  lemma {:induction false} LenientKeys(lines: seq<Bytes>, sofar: HeaderMap)
    requires forall l | l in lines :: LF !in l
    requires forall k | k in sofar :: CleanKey(k)
    ensures forall k | k in Lenient(lines, sofar) :: CleanKey(k)
  {
    if lines != [] {
      assert lines[0] in lines;
      ParsedLineKey(lines[0]);
      match ParseLine(lines[0]) {
        case Some(Pair(k, v)) => LenientKeys(lines[1..], sofar[k := v]);
        case _ => LenientKeys(lines[1..], sofar);
      }
    }
  }

  lemma ParsedKeysClean(block: Bytes)
    ensures forall k | k in ParseLenient(block) :: CleanKey(k)
  {
    LinesHaveNoLf(block);
    LenientKeys(Lines(block), map[]);
  }

  predicate HasNoColon(l: Bytes) {
    Trim(l) != [] && ':' !in Trim(l)
  }

  /** The first non-blank line without a colon. */
  predicate FirstNoColon(lines: seq<Bytes>, i: nat) {
    && i < |lines| && HasNoColon(lines[i])
    && forall j | 0 <= j < i :: !HasNoColon(lines[j])
  }

  function After(line: Bytes, sofar: HeaderMap): HeaderMap {
    match ParseLine(line)
    case Some(Pair(k, v)) => sofar[k := v]
    case _ => sofar
  }

  lemma StrictStep(lines: seq<Bytes>, sofar: HeaderMap)
    requires lines != []
    ensures Strict(lines, sofar) ==
      if HasNoColon(lines[0]) then Err(Trim(lines[0])) else Strict(lines[1..], After(lines[0], sofar))
    ensures Lenient(lines, sofar) == Lenient(lines[1..], After(lines[0], sofar))
  {
  }

  lemma FirstNoColonTail(lines: seq<Bytes>, i: nat)
    requires FirstNoColon(lines, i) && i > 0
    ensures !HasNoColon(lines[0]) && FirstNoColon(lines[1..], i - 1) && lines[1..][i - 1] == lines[i]
  {
    var rest := lines[1..];
    forall j | 0 <= j < i - 1 ensures !HasNoColon(rest[j]) {
      assert rest[j] == lines[j + 1];
    }
  }

  lemma StrictPast(lines: seq<Bytes>, sofar: HeaderMap, e: Bytes)
    requires lines != [] && !HasNoColon(lines[0]) && Strict(lines[1..], After(lines[0], sofar)) == Err(e)
    ensures Strict(lines, sofar) == Err(e)
  {
    StrictStep(lines, sofar);
  }

  lemma {:induction false} StrictFailsAt(lines: seq<Bytes>, sofar: HeaderMap, i: nat)
    requires FirstNoColon(lines, i)
    ensures Strict(lines, sofar) == Err(Trim(lines[i]))
    decreases i
  {
    if i == 0 {
      StrictStep(lines, sofar);
    } else {
      FirstNoColonTail(lines, i);
      StrictFailsAt(lines[1..], After(lines[0], sofar), i - 1);
      StrictPast(lines, sofar, Trim(lines[i]));
    }
  }

  lemma {:induction false} StrictAgrees(lines: seq<Bytes>, sofar: HeaderMap)
    ensures Strict(lines, sofar).Ok? ==> Strict(lines, sofar).value == Lenient(lines, sofar)
    ensures (forall l | l in lines :: !HasNoColon(l)) ==> Strict(lines, sofar).Ok?
  {
    if lines != [] {
      StrictStep(lines, sofar);
      StrictAgrees(lines[1..], After(lines[0], sofar));
      assert lines[0] in lines && forall l | l in lines[1..] :: l in lines;
    }
  }

  lemma {:induction false} FirstNoColonExists(lines: seq<Bytes>, i: nat) returns (first: nat)
    requires i < |lines| && HasNoColon(lines[i])
    ensures FirstNoColon(lines, first)
    decreases i
  {
    if j :| 0 <= j < i && HasNoColon(lines[j]) {
      first := FirstNoColonExists(lines, j);
    } else {
      first := i;
    }
  }

  /** The strict parser fails exactly when some non-blank line has no colon, and
      reports the first such line; otherwise both parsers agree. */
  lemma StrictFailsOnFirstNoColon(lines: seq<Bytes>, sofar: HeaderMap)
    ensures Strict(lines, sofar).Err? <==> exists l | l in lines :: HasNoColon(l)
    ensures forall i | 0 <= i < |lines| && FirstNoColon(lines, i) :: Strict(lines, sofar) == Err(Trim(lines[i]))
    ensures Strict(lines, sofar).Ok? ==> Strict(lines, sofar).value == Lenient(lines, sofar)
  {
    StrictAgrees(lines, sofar);
    if l :| l in lines && HasNoColon(l) {
      var i :| 0 <= i < |lines| && lines[i] == l;
      var first := FirstNoColonExists(lines, i);
      StrictFailsAt(lines, sofar, first);
    }
    forall i | 0 <= i < |lines| && FirstNoColon(lines, i) ensures Strict(lines, sofar) == Err(Trim(lines[i])) {
      StrictFailsAt(lines, sofar, i);
    }
  }

  /** The lenient parser skips a line without a colon, wherever it stands, as it skips
      a blank one. */
  lemma {:induction false} LenientSkips(a: seq<Bytes>, l: Bytes, b: seq<Bytes>, sofar: HeaderMap)
    requires ':' !in Trim(l)
    ensures Lenient(a + [l] + b, sofar) == Lenient(a + b, sofar)
    decreases |a|
  {
    if a == [] {
      assert ([] + [l] + b)[0] == l && ([] + [l] + b)[1..] == b && [] + b == b;
    } else {
      assert (a + [l] + b)[0] == a[0] == (a + b)[0];
      assert (a + [l] + b)[1..] == a[1..] + [l] + b && (a + b)[1..] == a[1..] + b;
      StrictStep(a + [l] + b, sofar);
      StrictStep(a + b, sofar);
      LenientSkips(a[1..], l, b, After(a[0], sofar));
    }
  }
}
