/** Byte strings and the `str` operations the client uses on them: first-match
    search, `lines`, `trim`, `split_once` and decimal numbers.

    A byte is written as the character with the same code, so that ASCII
    literals read as themselves; nothing below depends on codes above 255
    being absent, so every statement covers all byte strings. */
module Text {

  type Bytes = seq<char>

  datatype Option<+T> = None | Some(value: T)

  datatype Result<+T, +E> = Ok(value: T) | Err(error: E)

  const LF := '\n'
  const CR := '\r'

  // ---- First-match search ----

  /** `pattern` occurs in `s` at index `i`. */
  predicate IsAt(s: Bytes, pattern: Bytes, i: nat) {
    i + |pattern| <= |s| && s[i..i + |pattern|] == pattern
  }

  /** The first occurrence at or after `from`. */
  function FindFrom(s: Bytes, pattern: Bytes, from: nat): (r: Option<nat>)
    ensures r.Some? ==> from <= r.value && IsAt(s, pattern, r.value)
    ensures r.Some? ==> forall j: nat :: from <= j < r.value ==> !IsAt(s, pattern, j)
    ensures r.None? ==> forall j: nat :: from <= j ==> !IsAt(s, pattern, j)
    decreases |s| - from
  {
    if from + |pattern| > |s| then None
    else if s[from..from + |pattern|] == pattern then Some(from)
    else FindFrom(s, pattern, from + 1)
  }

  /** `str::find`: the first occurrence. */
  function Find(s: Bytes, pattern: Bytes): (r: Option<nat>)
    ensures r.Some? ==> IsAt(s, pattern, r.value)
    ensures r.Some? ==> forall j: nat :: j < r.value ==> !IsAt(s, pattern, j)
    ensures r.None? ==> forall j: nat :: !IsAt(s, pattern, j)
  {
    FindFrom(s, pattern, 0)
  }

  /** Any index that passes the description of a first match is the first match. */
  lemma FindIsFirst(s: Bytes, pattern: Bytes, p: nat)
    requires IsAt(s, pattern, p)
    requires forall j: nat :: j < p ==> !IsAt(s, pattern, j)
    ensures Find(s, pattern) == Some(p)
  {
    assert Find(s, pattern).Some?;
  }

  lemma IsAtPrefix(a: Bytes, b: Bytes, pattern: Bytes, i: nat)
    requires i + |pattern| <= |a|
    ensures IsAt(a + b, pattern, i) <==> IsAt(a, pattern, i)
  {
    assert (a + b)[i..i + |pattern|] == a[i..i + |pattern|];
  }

  /** A match found in `a` is still the first one after more bytes arrive. */
  lemma FindStable(a: Bytes, b: Bytes, pattern: Bytes)
    requires Find(a, pattern).Some?
    ensures Find(a + b, pattern) == Find(a, pattern)
  {
    var p := Find(a, pattern).value;
    forall j: nat | j <= p ensures IsAt(a + b, pattern, j) <==> IsAt(a, pattern, j) {
      IsAtPrefix(a, b, pattern, j);
    }
    FindIsFirst(a + b, pattern, p);
  }

  /** `str::find(char)`. */
  function IndexOf(s: Bytes, c: char): (r: Option<nat>)
    ensures r.Some? ==> r.value < |s| && s[r.value] == c
    ensures r.Some? ==> forall j: nat :: j < r.value ==> s[j] != c
    ensures r.None? ==> c !in s
  {
    if s == [] then None
    else if s[0] == c then Some(0)
    else
      match IndexOf(s[1..], c)
      case None => None
      case Some(i) => Some(i + 1)
  }

  lemma IndexOfSplit(a: Bytes, c: char, b: Bytes)
    requires c !in a
    ensures IndexOf(a + [c] + b, c) == Some(|a|)
  {
    var s := a + [c] + b;
    assert s[|a|] == c;
    assert forall j: nat | j < |a| :: s[j] == a[j];
  }

  // ---- Lines ----

  /** One line per item, each closed by a line feed. */
  function Unlines(lines: seq<Bytes>): Bytes {
    if lines == [] then [] else lines[0] + [LF] + Unlines(lines[1..])
  }

  function StripCr(s: Bytes): Bytes {
    if s != [] && s[|s| - 1] == CR then s[..|s| - 1] else s
  }

  /** `str::lines`: split at line feeds, drop a carriage return before one, and
      drop an empty last piece. */
  function Lines(s: Bytes): seq<Bytes> {
    match IndexOf(s, LF)
    case None => if s == [] then [] else [s]
    case Some(i) => [StripCr(s[..i])] + Lines(s[i + 1..])
  }

  /** A line that `lines` gives back as it was written. */
  predicate PlainLine(l: Bytes) {
    l != [] && LF !in l && l[|l| - 1] != CR
  }

  lemma UnlinesEndsInLf(ls: seq<Bytes>)
    requires ls != []
    ensures |Unlines(ls)| > 0 && Unlines(ls)[|Unlines(ls)| - 1] == LF
  {
    if |ls| > 1 {
      UnlinesEndsInLf(ls[1..]);
    }
  }

  lemma {:induction false} UnlinesConcat(a: seq<Bytes>, b: seq<Bytes>)
    ensures Unlines(a + b) == Unlines(a) + Unlines(b)
  {
    if a == [] {
      assert a + b == b;
    } else {
      assert (a + b)[1..] == a[1..] + b;
      UnlinesConcat(a[1..], b);
    }
  }

  lemma AllOfRest(ls: seq<Bytes>, p: Bytes -> bool)
    requires ls != [] && forall l | l in ls :: p(l)
    ensures p(ls[0]) && forall l | l in ls[1..] :: p(l)
  {
    assert ls[0] in ls;
    assert forall l | l in ls[1..] :: l in ls;
  }

  /** The first line, and the lines after it. */
  lemma LinesOfFirst(l: Bytes, rest: Bytes)
    requires LF !in l
    ensures Lines(l + [LF] + rest) == [StripCr(l)] + Lines(rest)
  {
    var s := l + [LF] + rest;
    IndexOfSplit(l, LF, rest);
    assert s[..|l|] == l && s[|l| + 1..] == rest;
  }

  lemma LinesOfPlain(l: Bytes)
    requires PlainLine(l)
    ensures Lines(l) == [l] && StripCr(l) == l
  {
    assert IndexOf(l, LF).None?;
  }

  lemma WithoutLast(l: Bytes, v: Bytes)
    requires v != []
    ensures (l + [LF] + v)[..|l + [LF] + v| - 1] == l + [LF] + v[..|v| - 1]
  {
  }

  lemma OnlyLine(ls: seq<Bytes>)
    requires |ls| == 1
    ensures Unlines(ls) == ls[0] + [LF] && (ls[0] + [LF])[..|ls[0]|] == ls[0] && ls == [ls[0]]
  {
    assert ls[0] + [LF] + [] == ls[0] + [LF];
  }

  /** Splitting a block (without its last line feed) gives its lines back. */
  lemma {:induction false} LinesOfUnlines(ls: seq<Bytes>)
    requires ls != [] && forall l | l in ls :: PlainLine(l)
    ensures |Unlines(ls)| > 0
    ensures Lines(Unlines(ls)[..|Unlines(ls)| - 1]) == ls
  {
    AllOfRest(ls, PlainLine);
    LinesOfPlain(ls[0]);
    if |ls| == 1 {
      OnlyLine(ls);
    } else {
      LinesOfUnlines(ls[1..]);
      var v := Unlines(ls[1..]);
      WithoutLast(ls[0], v);
      LinesOfFirst(ls[0], v[..|v| - 1]);
    }
  }

  predicate SolidLine(l: Bytes) {
    l != [] && LF !in l
  }

  predicate BlankAt(s: Bytes, j: nat) {
    j + 2 <= |s| && s[j] == LF && s[j + 1] == LF
  }

  /** The first blank line of `s`, spelled out character by character. */
  predicate FirstBlank(s: Bytes, p: nat) {
    BlankAt(s, p) && forall j | 0 <= j < p :: s[j] != LF || s[j + 1] != LF
  }

  lemma FindBlank(s: Bytes, p: nat)
    ensures Find(s, [LF, LF]) == Some(p) <==> FirstBlank(s, p)
  {
    forall j: nat ensures IsAt(s, [LF, LF], j) <==> BlankAt(s, j) {
      if j + 2 <= |s| {
        assert s[j..j + 2] == [s[j], s[j + 1]];
      }
    }
    if FirstBlank(s, p) {
      forall j: nat | j < p ensures !IsAt(s, [LF, LF], j) {
        assert !BlankAt(s, j);
      }
      FindIsFirst(s, [LF, LF], p);
    } else if p + 2 <= |s| && BlankAt(s, p) {
      var j :| 0 <= j < p && s[j] == LF && s[j + 1] == LF;
      assert BlankAt(s, j);
    }
  }

  lemma FirstBlankPastLine(l: Bytes, t: Bytes, p: nat)
    requires LF !in l && FirstBlank(t, p) && t[0] != LF
    ensures FirstBlank(l + [LF] + t, |l| + 1 + p)
  {
    var s := l + [LF] + t;
    assert forall j | 0 <= j < |l| :: s[j] == l[j];
    assert forall j | |l| < j < |s| :: s[j] == t[j - |l| - 1];
  }

  /** A blank line is found right after a block of non-empty lines, whatever
      follows it. */
  lemma {:induction false} BlankLineAfterBlock(ls: seq<Bytes>, tail: Bytes)
    requires ls != [] && forall l | l in ls :: SolidLine(l)
    ensures |Unlines(ls)| > 0
    ensures FirstBlank(Unlines(ls) + [LF] + tail, |Unlines(ls)| - 1)
    decreases |ls|
  {
    var l, rest := ls[0], ls[1..];
    AllOfRest(ls, SolidLine);
    UnlinesEndsInLf(ls);
    var t := Unlines(rest) + [LF] + tail;
    assert Unlines(ls) + [LF] + tail == l + [LF] + t;
    if rest == [] {
      assert forall j | 0 <= j < |l| :: (l + [LF] + t)[j] == l[j];
    } else {
      BlankLineAfterBlock(rest, tail);
      assert SolidLine(rest[0]) by { assert rest[0] in rest; }
      assert t[0] == rest[0][0];
      FirstBlankPastLine(l, t, |Unlines(rest)| - 1);
    }
  }

  // ---- Trim ----

  /** Length of the white-space character at the front of a UTF-8 string, or 0.
      The characters are those with the Unicode property White_Space. */
  function LeadingWs(s: Bytes): (n: nat)
    ensures n <= |s|
  {
    if |s| >= 1 && AsciiWs(s[0]) then 1
    else if |s| >= 2 && WideWs2(s[0], s[1]) then 2
    else if |s| >= 3 && WideWs3(s[0], s[1], s[2]) then 3
    else 0
  }

  /** The same at the back. */
  function TrailingWs(s: Bytes): (n: nat)
    ensures n <= |s|
  {
    var k := |s|;
    if k >= 1 && AsciiWs(s[k - 1]) then 1
    else if k >= 2 && WideWs2(s[k - 2], s[k - 1]) then 2
    else if k >= 3 && WideWs3(s[k - 3], s[k - 2], s[k - 1]) then 3
    else 0
  }

  predicate AsciiWs(c: char) {
    '\t' <= c <= '\r' || c == ' '
  }

  // U+0085 and U+00A0
  predicate WideWs2(a: char, b: char) {
    a as int == 0xC2 && (b as int == 0x85 || b as int == 0xA0)
  }

  // U+1680, U+2000 to U+200A, U+2028, U+2029, U+202F, U+205F, U+3000
  predicate WideWs3(a: char, b: char, c: char) {
    var (x, y, z) := (a as int, b as int, c as int);
    || (x == 0xE1 && y == 0x9A && z == 0x80)
    || (x == 0xE2 && y == 0x80 && (0x80 <= z <= 0x8A || z == 0xA8 || z == 0xA9 || z == 0xAF))
    || (x == 0xE2 && y == 0x81 && z == 0x9F)
    || (x == 0xE3 && y == 0x80 && z == 0x80)
  }

  function TrimStart(s: Bytes): (t: Bytes)
    ensures LeadingWs(t) == 0
  {
    if LeadingWs(s) == 0 then s else TrimStart(s[LeadingWs(s)..])
  }

  function TrimEnd(s: Bytes): (t: Bytes)
    ensures TrailingWs(t) == 0
    ensures t <= s
    decreases |s|
  {
    if TrailingWs(s) == 0 then s else TrimEnd(s[..|s| - TrailingWs(s)])
  }

  /** `str::trim`. */
  function Trim(s: Bytes): (t: Bytes)
    ensures Trimmed(t)
  {
    LeadingWsOfPrefix(TrimStart(s), TrimEnd(TrimStart(s)));
    TrimEnd(TrimStart(s))
  }

  /** Trimming changes nothing. */
  predicate Trimmed(s: Bytes) {
    LeadingWs(s) == 0 && TrailingWs(s) == 0
  }

  lemma LeadingWsOfPrefix(s: Bytes, p: Bytes)
    requires p <= s && LeadingWs(s) == 0
    ensures LeadingWs(p) == 0
  {
    assert forall i | 0 <= i < |p| :: p[i] == s[i];
  }

  lemma TrimFixed(s: Bytes)
    ensures Trim(s) == s <==> Trimmed(s)
  {
  }

  // ---- Decimal numbers ----

  predicate IsDigit(c: char) {
    '0' <= c <= '9'
  }

  function Digit(d: nat): char
    requires d < 10
  {
    ('0' as int + d) as char
  }

  /** Display of an unsigned integer. */
  function Decimal(n: nat): (s: Bytes)
    ensures s != [] && forall i | 0 <= i < |s| :: IsDigit(s[i])
  {
    if n < 10 then [Digit(n)] else Decimal(n / 10) + [Digit(n % 10)]
  }

  function DigitsValue(s: Bytes): nat
    requires forall i | 0 <= i < |s| :: IsDigit(s[i])
  {
    if s == [] then 0
    else assert IsDigit(s[|s| - 1]); DigitsValue(s[..|s| - 1]) * 10 + (s[|s| - 1] as int - '0' as int)
  }

  /** `str::parse` for an unsigned type whose largest value is `max`: an
      optional plus sign, then one or more digits that do not overflow. */
  function ParseUnsigned(s: Bytes, max: nat): Option<nat> {
    var d := WithoutPlus(s);
    if d == [] || !AllDigits(d) then None
    else if DigitsValue(d) > max then None
    else Some(DigitsValue(d))
  }

  function WithoutPlus(s: Bytes): Bytes {
    if s != [] && s[0] == '+' then s[1..] else s
  }

  predicate AllDigits(d: Bytes) {
    forall i | 0 <= i < |d| :: IsDigit(d[i])
  }

  lemma {:induction false} DigitsValueOfDecimal(n: nat)
    ensures DigitsValue(Decimal(n)) == n
  {
    var s := Decimal(n);
    if n < 10 {
      assert s[..|s| - 1] == [];
    } else {
      assert s[..|s| - 1] == Decimal(n / 10);
      DigitsValueOfDecimal(n / 10);
    }
  }

  /** Reading back a printed number. */
  lemma ParseOfDecimal(n: nat, max: nat)
    requires n <= max
    ensures ParseUnsigned(Decimal(n), max) == Some(n)
  {
    DigitsValueOfDecimal(n);
  }

  // ---- Order of strings ----

  /** `str` comparison: byte by byte, a prefix first. */
  predicate Leq(a: Bytes, b: Bytes) {
    a == [] || (b != [] && (a[0] < b[0] || (a[0] == b[0] && Leq(a[1..], b[1..]))))
  }

  lemma {:induction false} LeqTotal(a: Bytes, b: Bytes)
    ensures Leq(a, b) || Leq(b, a)
  {
    if a != [] && b != [] && a[0] == b[0] {
      LeqTotal(a[1..], b[1..]);
    }
  }

  lemma {:induction false} LeqAntisymmetric(a: Bytes, b: Bytes)
    requires Leq(a, b) && Leq(b, a)
    ensures a == b
  {
    if a != [] && b != [] {
      LeqAntisymmetric(a[1..], b[1..]);
      assert a == [a[0]] + a[1..] && b == [b[0]] + b[1..];
    }
  }

  lemma {:induction false} LeqTransitive(a: Bytes, b: Bytes, c: Bytes)
    requires Leq(a, b) && Leq(b, c)
    ensures Leq(a, c)
  {
    if a != [] && a[0] == b[0] == c[0] {
      LeqTransitive(a[1..], b[1..], c[1..]);
    }
  }

  /** `b` comes after `a` at the first byte in which they differ. */
  predicate DiffersAt(a: Bytes, b: Bytes, i: nat) {
    i < |a| && i < |b| && a[..i] == b[..i] && a[i] < b[i]
  }

  lemma DiffersLater(a: Bytes, b: Bytes, i: nat)
    requires a != [] && b != [] && a[0] == b[0]
    ensures DiffersAt(a, b, i + 1) <==> DiffersAt(a[1..], b[1..], i)
  {
    if i + 1 <= |a| && i + 1 <= |b| {
      assert a[..i + 1] == [a[0]] + a[1..][..i] && b[..i + 1] == [b[0]] + b[1..][..i];
    }
  }

  lemma PrefixLater(a: Bytes, b: Bytes)
    requires a != [] && b != []
    ensures a <= b <==> a[0] == b[0] && a[1..] <= b[1..]
  {
    assert a == [a[0]] + a[1..] && b == [b[0]] + b[1..];
  }

  /** One text comes before another exactly if it is the start of the other or has
      the smaller byte where they first differ. */
  lemma {:induction false} LeqExactly(a: Bytes, b: Bytes)
    ensures Leq(a, b) <==> a <= b || exists i: nat :: DiffersAt(a, b, i)
    decreases |a|
  {
    if a != [] && b != [] {
      PrefixLater(a, b);
      if a[0] == b[0] {
        LeqExactly(a[1..], b[1..]);
        forall i: nat ensures DiffersAt(a, b, i + 1) <==> DiffersAt(a[1..], b[1..], i) {
          DiffersLater(a, b, i);
        }
        if i: nat :| DiffersAt(a, b, i) {
          assert DiffersAt(a[1..], b[1..], i - 1);
        }
        if i: nat :| DiffersAt(a[1..], b[1..], i) {
          assert DiffersAt(a, b, i + 1);
        }
      } else {
        assert a[..0] == b[..0];
        assert a[0] < b[0] ==> DiffersAt(a, b, 0);
        if i: nat :| DiffersAt(a, b, i) {
          assert i > 0 ==> a[..i][0] == b[..i][0];
        }
      }
    }
  }
}
