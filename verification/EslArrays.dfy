/** FreeSWITCH multi-value headers: `ARRAY::one|:two|:three`. */
module EslArrays {
  import opened Text

  const PREFIX: Bytes := "ARRAY::"
  const SEPARATOR: Bytes := "|:"

  /** `str::split` at the separator, which cannot overlap itself. */
  function Split(s: Bytes): (items: seq<Bytes>)
    ensures items != []
    decreases |s|
  {
    match Find(s, SEPARATOR)
    case None => [s]
    case Some(p) => [s[..p]] + Split(s[p + 2..])
  }

  function Join(items: seq<Bytes>): Bytes {
    if items == [] then []
    else if |items| == 1 then items[0]
    else items[0] + SEPARATOR + Join(items[1..])
  }

  function Display(items: seq<Bytes>): Bytes {
    PREFIX + Join(items)
  }

  function Parse(s: Bytes): Option<seq<Bytes>> {
    if PREFIX <= s then Some(Split(s[|PREFIX|..])) else None
  }

  /** The item does not contain the separator. */
  predicate Atomic(item: Bytes) {
    Find(item, SEPARATOR).None?
  }

  predicate AllAtomic(items: seq<Bytes>) {
    forall i | 0 <= i < |items| :: Atomic(items[i])
  }

  // ---- Splitting and joining ----

  lemma SeparatorAt(s: Bytes, j: nat)
    ensures IsAt(s, SEPARATOR, j) <==> j + 2 <= |s| && s[j] == '|' && s[j + 1] == ':'
  {
    if j + 2 <= |s| {
      assert s[j..j + 2] == [s[j], s[j + 1]];
    }
  }

  lemma FindInserted(a: Bytes, t: Bytes)
    requires Atomic(a)
    ensures Find(a + SEPARATOR + t, SEPARATOR) == Some(|a|)
  {
    var s := a + SEPARATOR + t;
    SeparatorAt(s, |a|);
    forall j: nat | j < |a| ensures !IsAt(s, SEPARATOR, j) {
      SeparatorAt(s, j);
      SeparatorAt(a, j);
      assert !IsAt(a, SEPARATOR, j);
    }
    FindIsFirst(s, SEPARATOR, |a|);
  }

  /** Splitting works piece by piece across an inserted separator. */
  lemma {:induction false} SplitAppend(a: Bytes, t: Bytes)
    ensures Split(a + SEPARATOR + t) == Split(a) + Split(t)
    decreases |a|
  {
    var s := a + SEPARATOR + t;
    match Find(a, SEPARATOR) {
      case None =>
        FindInserted(a, t);
        assert s[..|a|] == a && s[|a| + 2..] == t;
      case Some(p) =>
        FindStable(a, SEPARATOR + t, SEPARATOR);
        assert s == a + (SEPARATOR + t);
        assert s[..p] == a[..p];
        assert s[p + 2..] == a[p + 2..] + SEPARATOR + t;
        SplitAppend(a[p + 2..], t);
    }
  }

  lemma {:induction false} JoinOfSplit(s: Bytes)
    ensures Join(Split(s)) == s
    decreases |s|
  {
    match Find(s, SEPARATOR) {
      case None =>
      case Some(p) =>
        JoinOfSplit(s[p + 2..]);
        assert Split(s)[1..] == Split(s[p + 2..]);
        assert s == s[..p] + s[p..p + 2] + s[p + 2..];
    }
  }

  /** The pieces of every item, in order. */
  function Flatten(items: seq<Bytes>): seq<Bytes> {
    if items == [] then [] else Split(items[0]) + Flatten(items[1..])
  }

  lemma {:induction false} SplitOfJoin(items: seq<Bytes>)
    requires items != []
    ensures Split(Join(items)) == Flatten(items)
  {
    if |items| == 1 {
      assert Flatten(items[1..]) == [];
    } else {
      SplitOfJoin(items[1..]);
      SplitAppend(items[0], Join(items[1..]));
    }
  }

  /** Flattening keeps a list exactly when every item is in one piece; otherwise
      it grows the list. */
  lemma {:induction false} FlattenGrows(items: seq<Bytes>)
    ensures |Flatten(items)| >= |items|
    ensures AllAtomic(items) ==> Flatten(items) == items
    ensures !AllAtomic(items) ==> |Flatten(items)| > |items|
  {
    if items != [] {
      FlattenGrows(items[1..]);
      assert items == [items[0]] + items[1..];
      assert AllAtomic(items) <==> Atomic(items[0]) && AllAtomic(items[1..]);
    }
  }

  /** The notation: a prefix, then the items with a bar and a colon between them. */
  lemma ThreeItems(a: Bytes, b: Bytes, c: Bytes)
    ensures Display([a]) == "ARRAY::" + a
    ensures Display([a, b, c]) == "ARRAY::" + a + "|:" + b + "|:" + c
  {
    assert [a, b, c][1..] == [b, c] && [b, c][1..] == [c];
    assert Join([b, c]) == b + "|:" + c;
    assert Join([a, b, c]) == a + "|:" + (b + "|:" + c);
    assert "ARRAY::" + (a + "|:" + (b + "|:" + c)) == "ARRAY::" + a + "|:" + b + "|:" + c;
  }

  /** Printing a list and reading it back gives the list exactly when it is
      non-empty and no item contains the separator. */
  lemma ParseOfDisplay(items: seq<Bytes>)
    ensures Parse(Display(items)) == Some(items) <==> items != [] && AllAtomic(items)
  {
    assert Display(items)[|PREFIX|..] == Join(items);
    if items != [] {
      SplitOfJoin(items);
      FlattenGrows(items);
    }
  }

  /** Reading any text with the prefix and printing it gives the same text. */
  lemma DisplayOfParse(s: Bytes)
    requires Parse(s).Some?
    ensures Display(Parse(s).value) == s
  {
    JoinOfSplit(s[|PREFIX|..]);
  }

  // ---- A header as a deque ----

  datatype Op = Push(value: Bytes) | Unshift(value: Bytes)

  function ApplyOp(op: Op, items: seq<Bytes>): seq<Bytes> {
    match op
    case Push(v) => items + [v]
    case Unshift(v) => [v] + items
  }

  /** The values a header holds. */
  function View(header: Option<Bytes>): seq<Bytes> {
    match header
    case None => []
    case Some(s) => if Parse(s).Some? then Parse(s).value else [s]
  }

  /** What `stack_header` makes of a header. */
  function Stack(header: Option<Bytes>, op: Op): Bytes {
    match header
    case None => op.value
    case Some(s) => Display(ApplyOp(op, View(header)))
  }

  /** A run of operations on an absent header. */
  function Run(ops: seq<Op>): Option<Bytes> {
    if ops == [] then None else Some(Stack(Run(ops[..|ops| - 1]), ops[|ops| - 1]))
  }

  /** The same run on a plain double-ended queue. */
  function Deque(ops: seq<Op>): seq<Bytes> {
    if ops == [] then [] else ApplyOp(ops[|ops| - 1], Deque(ops[..|ops| - 1]))
  }

  predicate AtomicValues(ops: seq<Op>) {
    forall i | 0 <= i < |ops| :: Atomic(ops[i].value)
  }

  /** Every value survives: the first is not itself written as an array, and
      from the second operation on no value contains the separator. */
  predicate DequeSafe(ops: seq<Op>) {
    ops != [] ==> !(PREFIX <= ops[0].value) && (|ops| > 1 ==> AtomicValues(ops))
  }

  lemma JoinLength(op: Op, items: seq<Bytes>)
    requires items != []
    ensures |Join(ApplyOp(op, items))| == |Join(items)| + 2 + |op.value|
  {
    match op {
      case Push(v) => JoinPush(items, v);
      case Unshift(v) => assert ([v] + items)[1..] == items;
    }
  }

  lemma {:induction false} JoinPush(items: seq<Bytes>, v: Bytes)
    requires items != []
    ensures Join(items + [v]) == Join(items) + SEPARATOR + v
  {
    if |items| == 1 {
      assert (items + [v])[1..] == [v];
    } else {
      assert (items + [v])[1..] == items[1..] + [v];
      JoinPush(items[1..], v);
    }
  }

  lemma AtomicOp(op: Op, items: seq<Bytes>)
    ensures AllAtomic(ApplyOp(op, items)) <==> AllAtomic(items) && Atomic(op.value)
  {
    var all := ApplyOp(op, items);
    match op {
      case Push(v) =>
        assert all[|items|] == v && forall i | 0 <= i < |items| :: all[i] == items[i];
      case Unshift(v) =>
        assert all[0] == v && forall i | 0 <= i < |items| :: all[i + 1] == items[i];
    }
  }

  /** What is read back after one operation on a header that holds `items`. */
  lemma ViewAfterOp(op: Op, items: seq<Bytes>)
    requires items != []
    ensures var v := View(Some(Display(ApplyOp(op, items))));
      && |v| >= |items| + 1
      && (!AllAtomic(items) || !Atomic(op.value) ==> |v| > |items| + 1)
      && |Join(v)| == |Join(items)| + 2 + |op.value|
  {
    var all := ApplyOp(op, items);
    assert Display(all)[|PREFIX|..] == Join(all);
    SplitOfJoin(all);
    FlattenGrows(all);
    JoinOfSplit(Join(all));
    JoinLength(op, items);
    AtomicOp(op, items);
  }

  lemma FirstView(ops: seq<Op>)
    requires |ops| == 1 && !(PREFIX <= ops[0].value)
    ensures View(Run(ops)) == [ops[0].value] == Deque(ops)
  {
    assert ops[..0] == [];
  }

  lemma AtomicStep(ops: seq<Op>)
    requires |ops| > 1
    ensures AtomicValues(ops) <==> AtomicValues(ops[..|ops| - 1]) && Atomic(ops[|ops| - 1].value)
  {
    var prev := ops[..|ops| - 1];
    assert forall i | 0 <= i < |prev| :: prev[i] == ops[i];
    if AtomicValues(prev) && Atomic(ops[|ops| - 1].value) {
      forall i | 0 <= i < |ops| ensures Atomic(ops[i].value) {
        assert i < |prev| ==> Atomic(prev[i].value);
      }
    }
  }

  lemma RunStep(ops: seq<Op>)
    requires |ops| > 1
    ensures var prev, op := ops[..|ops| - 1], ops[|ops| - 1];
      && prev != [] && prev[0] == ops[0]
      && View(Run(prev)) != []
      && View(Run(ops)) == View(Some(Display(ApplyOp(op, View(Run(prev))))))
      && Deque(ops) == ApplyOp(op, Deque(prev))
      && (AtomicValues(ops) <==> AtomicValues(prev) && Atomic(op.value))
  {
    AtomicStep(ops);
  }

  /** The view never has fewer entries than there were operations. */
  lemma {:induction false} RunCounts(ops: seq<Op>)
    requires ops != []
    ensures |View(Run(ops))| >= |ops| == |Deque(ops)|
    decreases |ops|
  {
    if |ops| > 1 {
      RunStep(ops);
      RunCounts(ops[..|ops| - 1]);
      ViewAfterOp(ops[|ops| - 1], View(Run(ops[..|ops| - 1])));
    }
  }

  /** It has more once a value has been split. */
  lemma {:induction false} RunGrows(ops: seq<Op>)
    requires |ops| > 1 && !(PREFIX <= ops[0].value) && !AtomicValues(ops)
    ensures |View(Run(ops))| > |ops|
    decreases |ops|
  {
    var prev, op := ops[..|ops| - 1], ops[|ops| - 1];
    RunStep(ops);
    RunCounts(prev);
    if |prev| == 1 {
      FirstView(prev);
    } else if !AtomicValues(prev) {
      RunGrows(prev);
    }
    ViewAfterOp(op, View(Run(prev)));
  }

  /** Text length over a run: only the prefix of a first value that was taken
      for an array is lost. */
  lemma {:induction false} RunLength(ops: seq<Op>)
    requires ops != []
    ensures Deque(ops) != []
    ensures |Join(View(Run(ops)))| ==
      |Join(Deque(ops))| - (if PREFIX <= ops[0].value then |PREFIX| else 0)
    decreases |ops|
  {
    var prev, op := ops[..|ops| - 1], ops[|ops| - 1];
    if |ops| == 1 {
      assert prev == [] && Run(ops) == Some(op.value);
      assert Deque(ops) == [op.value];
      if PREFIX <= op.value {
        JoinOfSplit(op.value[|PREFIX|..]);
      }
    } else {
      RunStep(ops);
      RunLength(prev);
      ViewAfterOp(op, View(Run(prev)));
      JoinLength(op, Deque(prev));
    }
  }

  lemma {:induction false} RunIsDeque(ops: seq<Op>)
    requires DequeSafe(ops)
    ensures View(Run(ops)) == Deque(ops)
    ensures |ops| > 1 ==> AllAtomic(Deque(ops))
    decreases |ops|
  {
    if ops != [] {
      var prev, op := ops[..|ops| - 1], ops[|ops| - 1];
      if prev != [] {
        RunIsDeque(prev);
        var d := ApplyOp(op, Deque(prev));
        AtomicOp(op, Deque(prev));
        if |prev| == 1 {
          FirstView(prev);
        }
        ParseOfDisplay(d);
      }
    }
  }

  /** The list view of a header after any run of pushes and unshifts is that of
      a plain deque exactly when the run is safe. */
  lemma RunIsDequeExactly(ops: seq<Op>)
    ensures View(Run(ops)) == Deque(ops) <==> DequeSafe(ops)
  {
    if DequeSafe(ops) {
      RunIsDeque(ops);
    } else {
      RunCounts(ops);
      if PREFIX <= ops[0].value {
        RunLength(ops);
      } else {
        RunGrows(ops);
      }
    }
  }

  // ---- The array object ----

  class EslArray {
    var items: seq<Bytes>

    constructor (items: seq<Bytes>)
      ensures this.items == items
    {
      this.items := items;
    }

    method Push(value: Bytes)
      modifies this
      ensures items == ApplyOp(Op.Push(value), old(items))
    {
      items := items + [value];
    }

    method Unshift(value: Bytes)
      modifies this
      ensures items == ApplyOp(Op.Unshift(value), old(items))
    {
      items := [value] + items;
    }

    /** `fmt::Display`: the separator goes before every item but the first. */
    method ToText() returns (text: Bytes)
      ensures text == Display(items)
    {
      text := PREFIX;
      for i := 0 to |items|
        invariant text == Display(items[..i])
      {
        if i > 0 {
          text := text + SEPARATOR;
          JoinPush(items[..i], items[i]);
        }
        text := text + items[i];
        assert items[..i + 1] == items[..i] + [items[i]];
      }
      assert items[..|items|] == items;
    }
  }

  /** `EslArray::parse` as an object. */
  method ParseArray(s: Bytes) returns (r: Option<EslArray>)
    ensures r.Some? <==> Parse(s).Some?
    ensures r.Some? ==> fresh(r.value) && r.value.items == Parse(s).value
  {
    if PREFIX <= s {
      var arr := new EslArray(Split(s[|PREFIX|..]));
      r := Some(arr);
    } else {
      r := None;
    }
  }
}
