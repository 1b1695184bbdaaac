/** Events, their plain-text form and the printer that produces it. */
module Event {
  import opened Text
  import opened Headers
  import opened EslArrays
  import Percent

  const EVENT_NAME: Bytes := "Event-Name"

  /** The value of an event object. The event type is given by its wire name. */
  datatype EventValue = EventValue(eventType: Option<Bytes>, headers: HeaderMap, body: Option<Bytes>)

  // ---- The order of headers in print ----

  /** `ks` lists the set `s`, each key once. */
  predicate Enumerates(ks: seq<Bytes>, s: set<Bytes>) {
    && (forall i, j | 0 <= i < j < |ks| :: ks[i] != ks[j])
    && (forall i | 0 <= i < |ks| :: ks[i] in s)
    && |ks| == |s|
  }

  predicate Sorted(ks: seq<Bytes>) {
    forall i, j | 0 <= i < j < |ks| :: Leq(ks[i], ks[j])
  }

  lemma {:induction false} EnumerationCovers(ks: seq<Bytes>, s: set<Bytes>)
    requires Enumerates(ks, s)
    ensures forall k :: k in s <==> k in ks
  {
    if ks == [] {
    } else {
      var s' := s - {ks[0]};
      EnumerationCovers(ks[1..], s');
      assert ks == [ks[0]] + ks[1..];
    }
  }

  /** Insertion into a sorted list. */
  function Insert(k: Bytes, ks: seq<Bytes>): seq<Bytes> {
    if ks == [] then [k]
    else if Leq(k, ks[0]) then [k] + ks
    else [ks[0]] + Insert(k, ks[1..])
  }

  /** `sort_by_key` on header names. */
  function Sort(ks: seq<Bytes>): seq<Bytes> {
    if ks == [] then [] else Insert(ks[0], Sort(ks[1..]))
  }

  lemma {:induction false} InsertKeepsSorted(k: Bytes, ks: seq<Bytes>)
    requires Sorted(ks)
    ensures Sorted(Insert(k, ks))
    ensures multiset(Insert(k, ks)) == multiset(ks) + multiset{k}
  {
    if ks == [] {
    } else if Leq(k, ks[0]) {
      forall j | 0 <= j < |ks| ensures Leq(k, ks[j]) {
        if j > 0 {
          LeqTransitive(k, ks[0], ks[j]);
        }
      }
    } else {
      var r := Insert(k, ks[1..]);
      InsertKeepsSorted(k, ks[1..]);
      LeqTotal(k, ks[0]);
      assert ks == [ks[0]] + ks[1..];
      forall j | 0 <= j < |r| ensures Leq(ks[0], r[j]) {
        assert r[j] in multiset(r);
        assert r[j] == k || r[j] in ks[1..];
      }
    }
  }

  lemma {:induction false} SortSorts(ks: seq<Bytes>)
    ensures Sorted(Sort(ks)) && multiset(Sort(ks)) == multiset(ks)
  {
    if ks != [] {
      SortSorts(ks[1..]);
      InsertKeepsSorted(ks[0], Sort(ks[1..]));
      assert ks == [ks[0]] + ks[1..];
    }
  }

  lemma SortedHead(a: seq<Bytes>, x: Bytes)
    requires Sorted(a) && x in a
    ensures Leq(a[0], x)
  {
    LeqTotal(x, x);
  }

  lemma MultisetTail(a: seq<Bytes>)
    requires a != []
    ensures multiset(a[1..]) == multiset(a) - multiset{a[0]} && a[0] in multiset(a)
  {
    assert a == [a[0]] + a[1..];
  }

  /** Two sorted lists of the same elements are the same list. */
  lemma {:induction false} SortedUnique(a: seq<Bytes>, b: seq<Bytes>)
    requires Sorted(a) && Sorted(b) && multiset(a) == multiset(b)
    ensures a == b
  {
    assert |a| == |multiset(a)| == |multiset(b)| == |b|;
    if a != [] {
      MultisetTail(a);
      MultisetTail(b);
      SortedHead(a, b[0]);
      SortedHead(b, a[0]);
      LeqAntisymmetric(a[0], b[0]);
      SortedUnique(a[1..], b[1..]);
      assert a == [a[0]] + a[1..] && b == [b[0]] + b[1..];
    }
  }

  lemma {:induction false} EnumerationMultiset(ks: seq<Bytes>, s: set<Bytes>)
    requires Enumerates(ks, s)
    ensures multiset(ks) == multiset(s)
  {
    if ks != [] {
      var s' := s - {ks[0]};
      EnumerationMultiset(ks[1..], s');
      assert ks == [ks[0]] + ks[1..] && s == s' + {ks[0]};
    }
  }

  lemma {:induction false} EnumerationExists(s: set<Bytes>)
    ensures exists ks :: Enumerates(ks, s)
  {
    if s == {} {
      assert Enumerates([], s);
    } else {
      var k :| k in s;
      EnumerationExists(s - {k});
      var ks :| Enumerates(ks, s - {k});
      assert Enumerates([k] + ks, s);
    }
  }

  /** The names of `s` in the order they are printed. */
  ghost function SortedNames(s: set<Bytes>): (ks: seq<Bytes>)
    ensures Sorted(ks) && multiset(ks) == multiset(s)
  {
    EnumerationExists(s);
    var ks :| Enumerates(ks, s);
    SortSorts(ks);
    EnumerationMultiset(ks, s);
    Sort(ks)
  }

  /** Whatever order a hash map yields its keys in, sorting gives one result. */
  lemma SortIsCanonical(ks: seq<Bytes>, s: set<Bytes>)
    requires Enumerates(ks, s)
    ensures Sort(ks) == SortedNames(s)
  {
    SortSorts(ks);
    EnumerationMultiset(ks, s);
    SortedUnique(Sort(ks), SortedNames(s));
  }

  // ---- The plain form ----

  function Encoded(headers: HeaderMap, ks: seq<Bytes>): (es: seq<Entry>)
    requires forall i | 0 <= i < |ks| :: ks[i] in headers
    ensures |es| == |ks|
    ensures forall i | 0 <= i < |ks| :: es[i] == (ks[i], Percent.Encode(headers[ks[i]]))
  {
    seq(|ks|, i requires 0 <= i < |ks| => (ks[i], Percent.Encode(headers[ks[i]])))
  }

  function NameEntry(headers: HeaderMap): seq<Entry> {
    if EVENT_NAME in headers then [(EVENT_NAME, Percent.Encode(headers[EVENT_NAME]))] else []
  }

  function LengthEntry(body: Option<Bytes>): seq<Entry> {
    if body.Some? then [(CONTENT_LENGTH, Decimal(|body.value|))] else []
  }

  function OtherNames(headers: HeaderMap): set<Bytes> {
    headers.Keys - {EVENT_NAME, CONTENT_LENGTH}
  }

  /** The header lines of an event in print order: the event name, the other
      headers by name, then the length of the body, if there is one. A stored
      Content-Length is not printed. */
  ghost function PlainEntries(e: EventValue): seq<Entry> {
    NameEntry(e.headers) + SortedEntries(e.headers) + LengthEntry(e.body)
  }

  ghost function SortedEntries(headers: HeaderMap): seq<Entry> {
    NamesIn(headers);
    Encoded(headers, SortedNames(OtherNames(headers)))
  }

  lemma NamesIn(headers: HeaderMap)
    ensures var ks := SortedNames(OtherNames(headers));
      forall i | 0 <= i < |ks| :: ks[i] in headers && ks[i] in OtherNames(headers)
  {
    var ks := SortedNames(OtherNames(headers));
    forall i | 0 <= i < |ks| ensures ks[i] in OtherNames(headers) {
      assert ks[i] in multiset(ks);
    }
  }

  function BodyText(body: Option<Bytes>): Bytes {
    if body.Some? then body.value else []
  }

  /** `to_plain_format`. */
  ghost function PlainFormat(e: EventValue): Bytes {
    Unlines(WriteLines(PlainEntries(e))) + [LF] + BodyText(e.body)
  }

  /** Header lines for the names, one below the other. */
  function HeaderText(headers: HeaderMap, ks: seq<Bytes>): Bytes
    requires forall i | 0 <= i < |ks| :: ks[i] in headers
  {
    if ks == [] then []
    else ks[0] + ": " + Percent.Encode(headers[ks[0]]) + "\n" + HeaderText(headers, ks[1..])
  }

  lemma {:induction false} EncodedText(headers: HeaderMap, ks: seq<Bytes>)
    requires forall i | 0 <= i < |ks| :: ks[i] in headers
    ensures Unlines(WriteLines(Encoded(headers, ks))) == HeaderText(headers, ks)
  {
    if ks != [] {
      EncodedText(headers, ks[1..]);
      assert Encoded(headers, ks)[1..] == Encoded(headers, ks[1..]);
      assert WriteLines(Encoded(headers, ks))[1..] == WriteLines(Encoded(headers, ks[1..]));
    }
  }

  function NameText(headers: HeaderMap): Bytes {
    if "Event-Name" in headers then "Event-Name: " + Percent.Encode(headers["Event-Name"]) + "\n" else []
  }

  function EndText(body: Option<Bytes>): Bytes {
    if body.Some? then "Content-Length: " + Decimal(|body.value|) + "\n\n" + body.value else "\n"
  }

  lemma NameEntryText(headers: HeaderMap)
    ensures Unlines(WriteLines(NameEntry(headers))) == NameText(headers)
  {
    if EVENT_NAME in headers {
      WriteOne(EVENT_NAME, Percent.Encode(headers[EVENT_NAME]));
      assert "Event-Name" + ": " == "Event-Name: ";
    }
  }

  lemma LengthEntryText(body: Option<Bytes>)
    ensures Unlines(WriteLines(LengthEntry(body))) + [LF] + BodyText(body) == EndText(body)
  {
    if body.Some? {
      WriteOne(CONTENT_LENGTH, Decimal(|body.value|));
      assert "Content-Length" + ": " == "Content-Length: ";
      assert [LF] + [LF] == "\n\n";
    }
  }

  lemma AllInOne(a: Bytes, b: Bytes, c: Bytes, d: Bytes, e: Bytes)
    requires c + [LF] + d == e
    ensures a + b + c + [LF] + d == a + b + e
  {
    assert a + b + c + [LF] + d == a + b + (c + [LF] + d);
  }

  /** The names come in the order of their bytes, each once. */
  ghost predicate StrictlySorted(ks: seq<Bytes>) {
    forall i, j | 0 <= i < j < |ks| :: ks[i] != ks[j] && ComesFirst(ks[i], ks[j])
  }

  ghost predicate ComesFirst(a: Bytes, b: Bytes) {
    a <= b || exists d: nat :: DiffersAt(a, b, d)
  }

  lemma NoneTwice(ks: seq<Bytes>, s: set<Bytes>, i: nat, j: nat)
    requires multiset(ks) == multiset(s) && i < j < |ks|
    ensures ks[i] != ks[j]
  {
    assert ks == ks[..j] + ks[j..];
    assert ks[i] in multiset(ks[..j]) by { assert ks[..j][i] == ks[i]; }
    assert ks[j] in multiset(ks[j..]) by { assert ks[j..][0] == ks[j]; }
    assert multiset(ks)[ks[j]] <= 1;
  }

  lemma NamesInOrder(s: set<Bytes>)
    ensures StrictlySorted(SortedNames(s))
  {
    var ks := SortedNames(s);
    forall i, j | 0 <= i < j < |ks| ensures ks[i] != ks[j] && ComesFirst(ks[i], ks[j]) {
      NoneTwice(ks, s, i, j);
      LeqExactly(ks[i], ks[j]);
    }
  }

  lemma NamesAreAll(headers: HeaderMap, k: Bytes)
    ensures k in SortedNames(OtherNames(headers)) <==> k in headers && k != "Event-Name" && k != "Content-Length"
  {
    var ks := SortedNames(OtherNames(headers));
    assert k in ks <==> k in multiset(ks);
  }

  lemma SortedEntriesText(headers: HeaderMap, ks: seq<Bytes>)
    requires ks == SortedNames(OtherNames(headers))
    ensures forall i | 0 <= i < |ks| :: ks[i] in headers
    ensures Unlines(WriteLines(SortedEntries(headers))) == HeaderText(headers, ks)
  {
    NamesIn(headers);
    EncodedText(headers, ks);
  }

  /** The printed text, literally: the event name, every other header but a stored
      length in the order of the names, each value percent-encoded, and the length of
      the body with the body behind a blank line. */
  lemma PlainFormatText(e: EventValue) returns (ks: seq<Bytes>)
    ensures StrictlySorted(ks) && forall i | 0 <= i < |ks| :: ks[i] in e.headers
    ensures forall k :: k in ks <==> k in e.headers && k != "Event-Name" && k != "Content-Length"
    ensures PlainFormat(e) == NameText(e.headers) + HeaderText(e.headers, ks) + EndText(e.body)
  {
    ks := SortedNames(OtherNames(e.headers));
    NamesInOrder(OtherNames(e.headers));
    SortedEntriesText(e.headers, ks);
    forall k ensures k in ks <==> k in e.headers && k != "Event-Name" && k != "Content-Length" {
      NamesAreAll(e.headers, k);
    }
    WriteLinesConcat(NameEntry(e.headers) + SortedEntries(e.headers), LengthEntry(e.body));
    WriteLinesConcat(NameEntry(e.headers), SortedEntries(e.headers));
    NameEntryText(e.headers);
    LengthEntryText(e.body);
    AllInOne(NameText(e.headers), HeaderText(e.headers, ks), Unlines(WriteLines(LengthEntry(e.body))), BodyText(e.body),
      EndText(e.body));
  }

  lemma {:induction false} WriteLinesConcat(a: seq<Entry>, b: seq<Entry>)
    ensures Unlines(WriteLines(a + b)) == Unlines(WriteLines(a)) + Unlines(WriteLines(b))
  {
    assert WriteLines(a + b) == WriteLines(a) + WriteLines(b);
    UnlinesConcat(WriteLines(a), WriteLines(b));
  }

  lemma WriteOne(k: Bytes, raw: Bytes)
    ensures Unlines(WriteLines([(k, raw)])) == WriteLine(k, raw) + [LF]
  {
    assert WriteLines([(k, raw)])[1..] == [];
  }

  /** The text printed once the first `n` of the sorted headers are out. */
  ghost function PrintedSoFar(headers: HeaderMap, ks: seq<Bytes>, n: nat): Bytes
    requires n <= |ks| && forall i | 0 <= i < |ks| :: ks[i] in headers
  {
    Unlines(WriteLines(NameEntry(headers) + Encoded(headers, ks)[..n]))
  }

  lemma PrintedFirst(headers: HeaderMap, ks: seq<Bytes>)
    requires forall i | 0 <= i < |ks| :: ks[i] in headers
    ensures PrintedSoFar(headers, ks, 0) ==
      if EVENT_NAME in headers
      then WriteLine(EVENT_NAME, Percent.Encode(headers[EVENT_NAME])) + [LF] else []
  {
    assert NameEntry(headers) + Encoded(headers, ks)[..0] == NameEntry(headers);
    if EVENT_NAME in headers {
      WriteOne(EVENT_NAME, Percent.Encode(headers[EVENT_NAME]));
    }
  }

  lemma PrintedNext(headers: HeaderMap, ks: seq<Bytes>, n: nat)
    requires n < |ks| && forall i | 0 <= i < |ks| :: ks[i] in headers
    ensures PrintedSoFar(headers, ks, n + 1) ==
      PrintedSoFar(headers, ks, n) + (WriteLine(ks[n], Percent.Encode(headers[ks[n]])) + [LF])
  {
    var es := Encoded(headers, ks);
    assert NameEntry(headers) + es[..n + 1] == (NameEntry(headers) + es[..n]) + [es[n]];
    WriteLinesConcat(NameEntry(headers) + es[..n], [es[n]]);
    WriteOne(ks[n], Percent.Encode(headers[ks[n]]));
  }

  lemma PrintedLast(e: EventValue, ks: seq<Bytes>)
    requires forall i | 0 <= i < |ks| :: ks[i] in e.headers
    requires ks == SortedNames(OtherNames(e.headers))
    ensures PlainFormat(e) == PrintedSoFar(e.headers, ks, |ks|) +
      (if e.body.Some? then WriteLine(CONTENT_LENGTH, Decimal(|e.body.value|)) + [LF] else []) +
      [LF] + BodyText(e.body)
  {
    var es := Encoded(e.headers, ks);
    assert es[..|ks|] == es == SortedEntries(e.headers);
    WriteLinesConcat(NameEntry(e.headers) + es, LengthEntry(e.body));
    if e.body.Some? {
      WriteOne(CONTENT_LENGTH, Decimal(|e.body.value|));
    }
  }

  lemma EnumerationSnoc(ks: seq<Bytes>, k: Bytes, all: set<Bytes>, left: set<Bytes>)
    requires left <= all && k in left && Enumerates(ks, all - left)
    ensures Enumerates(ks + [k], all - (left - {k}))
  {
    assert all - (left - {k}) == (all - left) + {k};
  }

  /** The keys of a hash map, in whatever order it yields them. */
  method Iterate(all: set<Bytes>) returns (ks: seq<Bytes>)
    ensures Enumerates(ks, all)
  {
    ks := [];
    var left := all;
    while left != {}
      invariant left <= all
      invariant Enumerates(ks, all - left)
    {
      var k :| k in left;
      EnumerationSnoc(ks, k, all, left);
      ks := ks + [k];
      left := left - {k};
    }
    assert all - {} == all;
  }

  /** The loop over the sorted headers. */
  method PrintHeaders(headers: HeaderMap, ks: seq<Bytes>) returns (text: Bytes)
    requires forall i | 0 <= i < |ks| :: ks[i] in headers
    ensures text == PrintedSoFar(headers, ks, |ks|)
  {
    text := [];
    if EVENT_NAME in headers {
      text := text + WriteLine(EVENT_NAME, Percent.Encode(headers[EVENT_NAME])) + [LF];
    }
    PrintedFirst(headers, ks);
    for i := 0 to |ks|
      invariant text == PrintedSoFar(headers, ks, i)
    {
      PrintedNext(headers, ks, i);
      text := text + (WriteLine(ks[i], Percent.Encode(headers[ks[i]])) + [LF]);
    }
  }

  // ---- The event object ----

  class EslEvent {
    var eventType: Option<Bytes>
    var headers: HeaderMap
    var body: Option<Bytes>

    constructor ()
      ensures Value() == EventValue(None, map[], None)
    {
      eventType := None;
      headers := map[];
      body := None;
    }

    function Value(): EventValue
      reads this
    {
      EventValue(eventType, headers, body)
    }

    method SetEventType(t: Option<Bytes>)
      modifies this
      ensures Value() == old(Value()).(eventType := t)
    {
      eventType := t;
    }

    method SetHeader(name: Bytes, value: Bytes)
      modifies this
      ensures Value() == old(Value()).(headers := old(headers)[name := value])
    {
      headers := headers[name := value];
    }

    method SetBody(text: Bytes)
      modifies this
      ensures Value() == old(Value()).(body := Some(text))
    {
      body := Some(text);
    }

    /** The stored text of a header. */
    function Header(name: Bytes): Option<Bytes>
      reads this
    {
      if name in headers then Some(headers[name]) else None
    }

    method PushHeader(name: Bytes, value: Bytes)
      modifies this
      ensures Value() ==
        old(Value()).(headers := old(headers)[name := Stack(old(Header(name)), Op.Push(value))])
    {
      StackHeader(name, Op.Push(value));
    }

    method UnshiftHeader(name: Bytes, value: Bytes)
      modifies this
      ensures Value() ==
        old(Value()).(headers := old(headers)[name := Stack(old(Header(name)), Op.Unshift(value))])
    {
      StackHeader(name, Op.Unshift(value));
    }

    /** `stack_header`: a first value is stored as it is; afterwards the header
        is read as an array, changed and printed again. */
    method StackHeader(name: Bytes, op: Op)
      modifies this
      ensures Value() == old(Value()).(headers := old(headers)[name := Stack(old(Header(name)), op)])
    {
      if name !in headers {
        SetHeader(name, op.value);
      } else {
        var existing := headers[name];
        var parsed := ParseArray(existing);
        var arr: EslArray;
        if parsed.Some? {
          arr := parsed.value;
        } else {
          arr := new EslArray([existing]);
        }
        match op {
          case Push(v) => arr.Push(v);
          case Unshift(v) => arr.Unshift(v);
        }
        var text := arr.ToText();
        SetHeader(name, text);
      }
    }

    /** `to_plain_format`: appends line after line. */
    method ToPlainFormat() returns (text: Bytes)
      ensures text == PlainFormat(Value())
    {
      var ks := Iterate(OtherNames(headers));
      SortIsCanonical(ks, OtherNames(headers));
      NamesIn(headers);
      text := PrintHeaders(headers, Sort(ks));
      PrintedLast(Value(), Sort(ks));
      match body {
        case Some(b) =>
          text := text + (WriteLine(CONTENT_LENGTH, Decimal(|b|)) + [LF]);
          text := text + [LF] + b;
        case None =>
          text := text + [LF];
      }
    }
  }
}
