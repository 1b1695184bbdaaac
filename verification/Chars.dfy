/** Operations on Unicode strings used by the command languages: trimming,
    joining, and the two-character escapes. */
module Chars {
  import opened Text

  /** `char::is_whitespace`: the characters with the property White_Space. */
  predicate IsWs(c: char) {
    var n := c as int;
    || 0x09 <= n <= 0x0D || n == 0x20 || n == 0x85 || n == 0xA0 || n == 0x1680
    || 0x2000 <= n <= 0x200A || n == 0x2028 || n == 0x2029 || n == 0x202F || n == 0x205F
    || n == 0x3000
  }

  predicate Blank(s: string) {
    forall i | 0 <= i < |s| :: IsWs(s[i])
  }

  /** `str::trim`. */
  function Strip(s: string): (t: string)
    ensures Stripped(t)
    ensures t == "" <==> Blank(s)
    decreases |s|
  {
    if s == "" then s
    else if IsWs(s[0]) then
      assert Blank(s) <==> Blank(s[1..]);
      Strip(s[1..])
    else if IsWs(s[|s| - 1]) then
      assert !Blank(s[..|s| - 1]);
      Strip(s[..|s| - 1])
    else s
  }

  predicate Stripped(s: string) {
    s == "" || (!IsWs(s[0]) && !IsWs(s[|s| - 1]))
  }

  lemma StripOfFront(w: char, s: string)
    requires IsWs(w)
    ensures Strip([w] + s) == Strip(s)
  {
    assert ([w] + s)[1..] == s;
  }

  lemma {:induction false} StripOfBack(s: string, w: char)
    requires IsWs(w)
    ensures Strip(s + [w]) == Strip(s)
    decreases |s|
  {
    if s == "" {
      StripOfFront(w, "");
      assert s + [w] == [w] + "";
    } else if IsWs(s[0]) {
      assert (s + [w])[1..] == s[1..] + [w];
      StripOfBack(s[1..], w);
    } else {
      assert (s + [w])[..|s|] == s;
    }
  }

  /** Text that needs no trimming survives at the front of any text. */
  lemma {:induction false} StripKeeps(p: string, x: string)
    requires p != "" && Stripped(p)
    ensures p <= Strip(p + x) <= p + x
    decreases |x|
  {
    var s := p + x;
    if x != "" && IsWs(x[|x| - 1]) {
      assert s[..|s| - 1] == p + x[..|x| - 1];
      StripKeeps(p, x[..|x| - 1]);
    } else if x == "" {
      assert s == p;
    }
  }

  /** The number of characters that are not white space. */
  function Ink(s: string): nat {
    if s == "" then 0 else (if IsWs(s[0]) then 0 else 1) + Ink(s[1..])
  }

  lemma {:induction false} InkConcat(a: string, b: string)
    ensures Ink(a + b) == Ink(a) + Ink(b)
  {
    if a == "" {
      assert a + b == b;
    } else {
      assert (a + b)[1..] == a[1..] + b;
      InkConcat(a[1..], b);
    }
  }

  lemma {:induction false} InkOfStrip(s: string)
    ensures Ink(Strip(s)) == Ink(s) && |Strip(s)| <= |s|
    decreases |s|
  {
    if s != "" {
      if IsWs(s[0]) {
        InkOfStrip(s[1..]);
      } else if IsWs(s[|s| - 1]) {
        var (t, w) := (s[..|s| - 1], [s[|s| - 1]]);
        assert s == t + w && w[1..] == "";
        InkConcat(t, w);
        InkOfStrip(t);
      }
    }
  }

  function Join(ts: seq<string>, sep: char): string {
    if ts == [] then ""
    else if |ts| == 1 then ts[0]
    else ts[0] + [sep] + Join(ts[1..], sep)
  }

  /** `replace(c, "\\c")`. */
  function Escape(s: string, c: char): string {
    if s == "" then ""
    else (if s[0] == c then ['\\', c] else [s[0]]) + Escape(s[1..], c)
  }

  /** `replace("\\c", c)`: left to right, without overlaps. */
  function Unescape(s: string, c: char): (t: string)
    ensures |t| <= |s|
  {
    if |s| < 2 then s
    else if s[0] == '\\' && s[1] == c then [c] + Unescape(s[2..], c)
    else [s[0]] + Unescape(s[1..], c)
  }

  lemma UnescapePair(c: char, rest: string)
    ensures Unescape(['\\', c] + rest, c) == [c] + Unescape(rest, c)
  {
    assert (['\\', c] + rest)[2..] == rest;
  }

  lemma UnescapeOther(d: char, rest: string, c: char)
    requires d != '\\' || rest == "" || rest[0] != c
    ensures Unescape([d] + rest, c) == [d] + Unescape(rest, c)
  {
    assert ([d] + rest)[1..] == rest;
  }

  lemma EscapeStep(s: string, c: char, rest: string)
    requires s != ""
    ensures Escape(s, c) + rest == (if s[0] == c then ['\\', c] else [s[0]]) + (Escape(s[1..], c) + rest)
  {
  }

  lemma Regroup(s: string, rest: string)
    requires s != ""
    ensures s + rest == [s[0]] + (s[1..] + rest)
  {
  }

  /** Unescaping undoes escaping, whatever follows, unless a last backslash runs
      into the escaped character. */
  lemma {:induction false} UnescapeOfEscaped(s: string, rest: string, c: char)
    requires c != '\\'
    requires s == "" || rest == "" || s[|s| - 1] != '\\' || rest[0] != c
    ensures Unescape(Escape(s, c) + rest, c) == s + Unescape(rest, c)
  {
    if s == "" {
      assert Escape(s, c) + rest == rest && s + Unescape(rest, c) == Unescape(rest, c);
    } else {
      var t := s[1..];
      EscapeStep(s, c, rest);
      Regroup(s, Unescape(rest, c));
      UnescapeOfEscaped(t, rest, c);
      if s[0] == c {
        UnescapePair(c, Escape(t, c) + rest);
      } else {
        EscapeStart(t, c);
        assert t == "" ==> Escape(t, c) + rest == rest;
        UnescapeOther(s[0], Escape(t, c) + rest, c);
      }
    }
  }

  /** Unescaping undoes escaping, for every string. */
  lemma UnescapeOfEscape(s: string, c: char)
    requires c != '\\'
    ensures Unescape(Escape(s, c), c) == s
  {
    UnescapeOfEscaped(s, "", c);
    assert Escape(s, c) + "" == Escape(s, c) && s + "" == s;
  }

  lemma EscapeStart(s: string, c: char)
    requires c != '\\'
    ensures Escape(s, c) == "" <==> s == ""
    ensures s != "" ==> Escape(s, c)[0] != c
  {
  }

  lemma {:induction false} EscapeConcat(a: string, b: string, c: char)
    ensures Escape(a + b, c) == Escape(a, c) + Escape(b, c)
  {
    if a == "" {
      assert a + b == b;
    } else {
      assert (a + b)[1..] == a[1..] + b;
      EscapeConcat(a[1..], b, c);
    }
  }

  lemma {:induction false} EscapeHas(s: string, c: char, d: char)
    requires d != '\\'
    ensures d in Escape(s, c) <==> d in s
  {
    if s != "" {
      EscapeHas(s[1..], c, d);
      assert s == [s[0]] + s[1..];
    }
  }

  lemma {:induction false} EscapeLast(s: string, c: char)
    requires s != ""
    ensures Escape(s, c) != "" && Escape(s, c)[|Escape(s, c)| - 1] == s[|s| - 1]
  {
    if |s| > 1 {
      EscapeLast(s[1..], c);
    }
  }
}
