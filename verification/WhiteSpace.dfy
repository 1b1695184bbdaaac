/** White space in bytes and in code points: the byte-level trimming of the protocol
    layer cuts exactly the characters that the command languages call white space. */
module WhiteSpace {
  import opened Text
  import opened Utf8
  import Chars

  predicate IsSpace(n: nat)
    requires Scalar(n)
  {
    Chars.IsWs(n as char)
  }

  /** The character in front is cut off exactly if it is white space. */
  lemma LeadingWsExactly(n: nat, rest: Bytes)
    requires Scalar(n)
    ensures LeadingWs(EncodeScalar(n) + rest) == if IsSpace(n) then |EncodeScalar(n)| else 0
  {
    TailValue(n);
    TailValue(n / 64);
    if 0x800 <= n < 0x1_0000 {
      ThreeByteSpace(n);
    }
  }

  lemma TrailingShort(rest: Bytes, n: nat)
    requires n < 0x800
    ensures TrailingWs(rest + EncodeScalar(n)) == if IsSpace(n) then |EncodeScalar(n)| else 0
  {
    TailValue(n);
    var s, e := rest + EncodeScalar(n), EncodeScalar(n);
    assert s[|s| - 1] == e[|e| - 1] && s[|rest|] == e[0];
  }

  lemma TrailingThree(rest: Bytes, a: char, b: char, c: char)
    requires Tail(b) && Tail(c)
    ensures TrailingWs(rest + [a, b, c]) == if WideWs3(a, b, c) then 3 else 0
  {
    var s := rest + [a, b, c];
    assert s[|s| - 1] == c && s[|s| - 2] == b && s[|s| - 3] == a;
  }

  lemma TrailingFour(rest: Bytes, a: char, b: char, c: char, d: char)
    requires Tail(b) && Tail(c) && Tail(d)
    ensures TrailingWs(rest + [a, b, c, d]) == 0
  {
    assert rest + [a, b, c, d] == (rest + [a]) + [b, c, d];
    TrailingThree(rest + [a], b, c, d);
  }

  /** So is the character at the back. */
  lemma TrailingWsExactly(rest: Bytes, n: nat)
    requires Scalar(n)
    ensures TrailingWs(rest + EncodeScalar(n)) == if IsSpace(n) then |EncodeScalar(n)| else 0
  {
    if n < 0x800 {
      TrailingShort(rest, n);
    } else {
      TailValue(n);
      TailValue(n / 64);
      TailValue(n / 4096);
      var e := EncodeScalar(n);
      if n < 0x1_0000 {
        ThreeByteSpace(n);
        TrailingThree(rest, e[0], e[1], e[2]);
      } else {
        TrailingFour(rest, e[0], e[1], e[2], e[3]);
      }
    }
  }

  lemma ThreeByteSpace(n: nat)
    requires 0x800 <= n < 0x1_0000 && Scalar(n)
    ensures var e := EncodeScalar(n); WideWs3(e[0], e[1], e[2]) <==> IsSpace(n)
  {
    var a, b, c := n / 4096, n / 64 % 64, n % 64;
    assert n / 64 / 64 == a && n / 64 == a * 64 + b && n == (a * 64 + b) * 64 + c;
  }
}
