/** Incremental decoding in general: a parser that looks at the front of a
    buffer, one-shot decoding with it, and decoding of a stream that arrives in
    chunks. Nothing here depends on what a frame looks like. */
module Incremental {
  import opened Text

  /** What one call of a parser does: nothing until more bytes arrive, one
      message, or an error; with the state and the unread bytes it leaves. */
  datatype Step<S, M, E> =
    | Pending(st: S, rest: Bytes)
    | Emit(message: M, st: S, rest: Bytes)
    | Failed(error: E, st: S, rest: Bytes)

  type Parser<!S, M, E> = (S, Bytes) -> Step<S, M, E>

  /** A message uses up at least one byte. */
  ghost predicate Shrinks<S(!new), M, E>(parse: Parser<S, M, E>) {
    forall st, a :: parse(st, a).Emit? ==> |parse(st, a).rest| < |a|
  }

  /** More bytes never change what has been decided. */
  ghost predicate Stable<S(!new), M, E>(parse: Parser<S, M, E>) {
    forall st, a, b :: parse(st, a + b) == Resume(parse, parse(st, a), b)
  }

  function Resume<S, M, E>(parse: Parser<S, M, E>, step: Step<S, M, E>, more: Bytes): Step<S, M, E> {
    match step
    case Pending(st, rest) => parse(st, rest + more)
    case Emit(m, st, rest) => Emit(m, st, rest + more)
    case Failed(e, st, rest) => Failed(e, st, rest + more)
  }

  /** A message is decided by its own bytes alone, and leaves the state in which
      reading it began. */
  ghost predicate Local<S(!new), M, E>(parse: Parser<S, M, E>, st: S) {
    forall a :: parse(st, a).Emit? ==>
      && parse(st, a).st == st
      && exists raw :: a == raw + parse(st, a).rest && IsFrame(parse, st, raw, parse(st, a).message)
  }

  datatype Stop<E> = ParseError(error: E) | BufferOverflow(size: nat)

  /** The outcome of draining a buffer: messages in order, what ended it if
      anything did, and the state and unread bytes left. */
  datatype Run<S, M, E> = Run(messages: seq<M>, end: Option<Stop<E>>, st: S, rest: Bytes)

  /** One-shot decoding: parse until no message is complete, or to an error. */
  function Decode<S(!new), M, E>(parse: Parser<S, M, E>, st: S, data: Bytes): (r: Run<S, M, E>)
    requires Shrinks(parse)
    ensures r.end.Some? ==> r.end.value.ParseError?
    decreases |data|
  {
    match parse(st, data)
    case Pending(st', rest) => Run([], None, st', rest)
    case Failed(e, st', rest) => Run([], Some(ParseError(e)), st', rest)
    case Emit(m, st', rest) => Prepend([m], Decode(parse, st', rest))
  }

  function Prepend<S, M, E>(ms: seq<M>, r: Run<S, M, E>): Run<S, M, E> {
    r.(messages := ms + r.messages)
  }

  /** A finished run, continued with more bytes. */
  function Continue<S(!new), M, E>(parse: Parser<S, M, E>, r: Run<S, M, E>, more: Bytes): Run<S, M, E>
    requires Shrinks(parse)
  {
    if r.end.Some? then r.(rest := r.rest + more)
    else Prepend(r.messages, Decode(parse, r.st, r.rest + more))
  }

  lemma PrependTwice<S, M, E>(a: seq<M>, b: seq<M>, r: Run<S, M, E>)
    ensures Prepend(a, Prepend(b, r)) == Prepend(a + b, r)
  {
    assert (a + b) + r.messages == a + (b + r.messages);
  }

  /** Decoding a concatenation is decoding the first part and continuing. */
  lemma {:induction false} DecodeAppend<S(!new), M, E>(parse: Parser<S, M, E>, st: S, a: Bytes, b: Bytes)
    requires Shrinks(parse) && Stable(parse)
    ensures Decode(parse, st, a + b) == Continue(parse, Decode(parse, st, a), b)
    decreases |a|
  {
    assert parse(st, a + b) == Resume(parse, parse(st, a), b);
    match parse(st, a) {
      case Pending(st', rest) =>
        var r := Decode(parse, st', rest + b);
        assert [] + r.messages == r.messages;
      case Failed(_, _, _) =>
      case Emit(m, st', rest) =>
        DecodeAppend(parse, st', rest, b);
        var r := Decode(parse, st', rest);
        if r.end.None? {
          PrependTwice([m], r.messages, Decode(parse, r.st, r.rest + b));
        }
    }
  }

  /** Decoding itself fails only by a parse error. */
  lemma {:induction false} DecodeNeverOverflows<S(!new), M, E>(parse: Parser<S, M, E>, st: S, data: Bytes)
    requires Shrinks(parse)
    ensures !Overflowed(Decode(parse, st, data))
    decreases |data|
  {
    match parse(st, data) {
      case Emit(_, st', rest) => DecodeNeverOverflows(parse, st', rest);
      case _ =>
    }
  }

  /** Nothing is left to do until more bytes arrive. */
  ghost predicate Drained<S, M, E>(parse: Parser<S, M, E>, r: Run<S, M, E>) {
    r.end.None? ==> parse(r.st, r.rest) == Pending(r.st, r.rest)
  }

  /** Waiting is idempotent: a pending parser asked again gives the same answer. */
  ghost predicate Settles<S(!new), M, E>(parse: Parser<S, M, E>) {
    forall st, a :: parse(st, a).Pending? ==>
      parse(parse(st, a).st, parse(st, a).rest) == parse(st, a)
  }

  lemma {:induction false} DecodeDrains<S(!new), M, E>(parse: Parser<S, M, E>, st: S, data: Bytes)
    requires Shrinks(parse) && Settles(parse)
    ensures Drained(parse, Decode(parse, st, data))
    decreases |data|
  {
    match parse(st, data) {
      case Emit(_, st', rest) => DecodeDrains(parse, st', rest);
      case _ =>
    }
  }

  /** One call of the parser in the middle of a drain: `ms` is what the drain
      has emitted so far. */
  lemma DecodeStepwise<S(!new), M, E>(parse: Parser<S, M, E>, ms: seq<M>, st: S, unread: Bytes)
    requires Shrinks(parse) && Settles(parse)
    ensures var whole := Prepend(ms, Decode(parse, st, unread));
      match parse(st, unread)
      case Emit(m, st', rest) => whole == Prepend(ms + [m], Decode(parse, st', rest))
      case Failed(e, st', rest) => whole == Run(ms, Some(ParseError(e)), st', rest)
      case Pending(st', rest) =>
        whole == Run(ms, None, st', rest) == Prepend(ms, Decode(parse, st', rest))
  {
    assert ms + [] == ms;
    match parse(st, unread) {
      case Emit(m, st', rest) => PrependTwice(ms, [m], Decode(parse, st', rest));
      case _ =>
    }
  }

  // ---- Chunks ----

  function Concat(chunks: seq<Bytes>): Bytes {
    if chunks == [] then [] else chunks[0] + Concat(chunks[1..])
  }

  lemma {:induction false} ConcatAppend(a: seq<Bytes>, b: seq<Bytes>)
    ensures Concat(a + b) == Concat(a) + Concat(b)
  {
    if a == [] {
      assert a + b == b;
    } else {
      assert (a + b)[1..] == a[1..] + b;
      ConcatAppend(a[1..], b);
    }
  }

  /** One round of the read loop: add a chunk to the buffer, check its size,
      drain it. */
  function AddAndDrain<S(!new), M, E>(parse: Parser<S, M, E>, limit: nat, r: Run<S, M, E>, chunk: Bytes): Run<S, M, E>
    requires Shrinks(parse)
  {
    var data := r.rest + chunk;
    if |data| > limit then Run(r.messages, Some(BufferOverflow(|data|)), r.st, data)
    else Prepend(r.messages, Decode(parse, r.st, data))
  }

  /** The read loop: it stops at the first error, and the chunks not read by
      then are `unread`. */
  datatype Feeding<S, M, E> = Feeding(run: Run<S, M, E>, unread: seq<Bytes>)

  function Feed<S(!new), M, E>(parse: Parser<S, M, E>, limit: nat, r: Run<S, M, E>,
                               chunks: seq<Bytes>): Feeding<S, M, E>
    requires Shrinks(parse)
    decreases |chunks|
  {
    if chunks == [] || r.end.Some? then Feeding(r, chunks)
    else Feed(parse, limit, AddAndDrain(parse, limit, r, chunks[0]), chunks[1..])
  }

  predicate Overflowed<S, M, E>(r: Run<S, M, E>) {
    r.end.Some? && r.end.value.BufferOverflow?
  }

  lemma ContinuePrepended<S(!new), M, E>(parse: Parser<S, M, E>, ms: seq<M>, d: Run<S, M, E>, more: Bytes)
    requires Shrinks(parse)
    ensures Continue(parse, Prepend(ms, d), more) == Prepend(ms, Continue(parse, d, more))
  {
    if d.end.None? {
      PrependTwice(ms, d.messages, Decode(parse, d.st, d.rest + more));
    }
  }

  lemma ContinueAfterAdd<S(!new), M, E>(parse: Parser<S, M, E>, limit: nat, r: Run<S, M, E>, chunk: Bytes, more: Bytes)
    requires Shrinks(parse)
    requires r.end.None? && |r.rest + chunk| <= limit
    requires Decode(parse, r.st, (r.rest + chunk) + more) ==
      Continue(parse, Decode(parse, r.st, r.rest + chunk), more)
    ensures Continue(parse, r, chunk + more) == Continue(parse, AddAndDrain(parse, limit, r, chunk), more)
  {
    assert (r.rest + chunk) + more == r.rest + (chunk + more);
    ContinuePrepended(parse, r.messages, Decode(parse, r.st, r.rest + chunk), more);
  }

  /** One round of the read loop is one step of decoding the whole stream. */
  lemma AddIsContinue<S(!new), M, E>(parse: Parser<S, M, E>, limit: nat, r: Run<S, M, E>, chunk: Bytes, more: Bytes)
    requires Shrinks(parse) && Stable(parse)
    requires r.end.None? && |r.rest + chunk| <= limit
    ensures Continue(parse, r, chunk + more) == Continue(parse, AddAndDrain(parse, limit, r, chunk), more)
  {
    DecodeAppend(parse, r.st, r.rest + chunk, more);
    ContinueAfterAdd(parse, limit, r, chunk, more);
  }

  /** Chunking independence. Whatever the chunks, feeding them is decoding their
      concatenation: the same messages, the same first error, the same state;
      what was not read when an error stopped the loop is left over. */
  lemma {:induction false} FeedIsContinue<S(!new), M, E>(
      parse: Parser<S, M, E>, limit: nat, r: Run<S, M, E>, chunks: seq<Bytes>)
    requires Shrinks(parse) && Stable(parse) && Settles(parse) && Drained(parse, r)
    requires !Overflowed(Feed(parse, limit, r, chunks).run)
    ensures var f := Feed(parse, limit, r, chunks);
      && Continue(parse, r, Concat(chunks)) == f.run.(rest := f.run.rest + Concat(f.unread))
      && (f.run.end.None? ==> f.unread == [])
    decreases |chunks|
  {
    if r.end.None? {
      if chunks == [] {
        assert r.rest + [] == r.rest;
        assert r.messages + [] == r.messages;
      } else {
        DecodeDrains(parse, r.st, r.rest + chunks[0]);
        FeedIsContinue(parse, limit, AddAndDrain(parse, limit, r, chunks[0]), chunks[1..]);
        AddIsContinue(parse, limit, r, chunks[0], Concat(chunks[1..]));
      }
    }
  }

  /** What is in the buffer when chunk `k` is added, by one-shot decoding of
      everything before it. */
  ghost predicate TooBigAt<S(!new), M, E>(
      parse: Parser<S, M, E>, limit: nat, r: Run<S, M, E>, chunks: seq<Bytes>, k: nat)
    requires Shrinks(parse) && k < |chunks|
  {
    TooBig(limit, Continue(parse, r, Concat(chunks[..k])), chunks[k])
  }

  predicate TooBig<S, M, E>(limit: nat, before: Run<S, M, E>, chunk: Bytes) {
    before.end.None? && |before.rest| + |chunk| > limit
  }

  /** The loop ends in an overflow exactly when, at some chunk, the bytes left
      over by one-shot decoding of the stream so far do not fit with it. */
  lemma {:induction false} OverflowExactly<S(!new), M, E>(
      parse: Parser<S, M, E>, limit: nat, r: Run<S, M, E>, chunks: seq<Bytes>)
    requires Shrinks(parse) && Stable(parse) && Settles(parse) && Drained(parse, r) && !Overflowed(r)
    ensures Overflowed(Feed(parse, limit, r, chunks).run) <==>
      exists k :: 0 <= k < |chunks| && TooBigAt(parse, limit, r, chunks, k)
    decreases |chunks|
  {
    if chunks == [] || r.end.Some? {
    } else {
      ContinueWithNothing(parse, r);
      assert chunks[..0] == [];
      if |r.rest| + |chunks[0]| > limit {
        assert TooBigAt(parse, limit, r, chunks, 0);
      } else {
        var n := AddAndDrain(parse, limit, r, chunks[0]);
        DecodeDrains(parse, r.st, r.rest + chunks[0]);
        OverflowExactly(parse, limit, n, chunks[1..]);
        forall k | 0 <= k < |chunks| - 1
          ensures TooBigAt(parse, limit, n, chunks[1..], k) <==> TooBigAt(parse, limit, r, chunks, k + 1)
        {
          TooBigShift(parse, limit, r, chunks, k);
        }
        if k :| 0 <= k < |chunks| && TooBigAt(parse, limit, r, chunks, k) {
          assert k > 0;
          assert TooBigAt(parse, limit, n, chunks[1..], k - 1);
        }
      }
    }
  }

  lemma ContinueWithNothing<S(!new), M, E>(parse: Parser<S, M, E>, r: Run<S, M, E>)
    requires Shrinks(parse) && Drained(parse, r)
    ensures Continue(parse, r, []) == r
  {
    assert r.rest + [] == r.rest;
    assert r.messages + [] == r.messages;
  }

  /** Continuing an empty run is decoding. */
  lemma ContinueFresh<S(!new), M, E>(parse: Parser<S, M, E>, st: S, data: Bytes)
    requires Shrinks(parse)
    ensures Continue(parse, Run([], None, st, []), data) == Decode(parse, st, data)
  {
    assert [] + data == data;
    var r := Decode(parse, st, data);
    assert [] + r.messages == r.messages;
  }

  lemma TooBigShift<S(!new), M, E>(parse: Parser<S, M, E>, limit: nat, r: Run<S, M, E>, chunks: seq<Bytes>, k: nat)
    requires Shrinks(parse) && Stable(parse) && r.end.None?
    requires k + 1 < |chunks| && |r.rest + chunks[0]| <= limit
    ensures TooBigAt(parse, limit, AddAndDrain(parse, limit, r, chunks[0]), chunks[1..], k)
      <==> TooBigAt(parse, limit, r, chunks, k + 1)
  {
    assert chunks[..k + 1] == [chunks[0]] + chunks[1..][..k];
    AddIsContinue(parse, limit, r, chunks[0], Concat(chunks[1..][..k]));
  }

  // ---- Frames ----

  /** `raw` is exactly the bytes of one message. */
  ghost predicate IsFrame<S, M, E>(parse: Parser<S, M, E>, st: S, raw: Bytes, m: M) {
    parse(st, raw) == Emit(m, st, [])
  }

  /** `raws` are the bytes of `ms`, one by one, each read from the state `st`. */
  ghost predicate AreFrames<S, M, E>(parse: Parser<S, M, E>, st: S, raws: seq<Bytes>, ms: seq<M>) {
    |raws| == |ms| && forall i | 0 <= i < |ms| :: IsFrame(parse, st, raws[i], ms[i])
  }

  /** A run that emitted nothing. */
  function StepRun<S, M, E>(step: Step<S, M, E>): Run<S, M, E>
    requires !step.Emit?
  {
    match step
    case Pending(st, rest) => Run([], None, st, rest)
    case Failed(e, st, rest) => Run([], Some(ParseError(e)), st, rest)
  }

  /** Decoding a concatenation of frames gives their messages, then whatever
      the bytes after them give. */
  lemma {:induction false} DecodeFrames<S(!new), M, E>(
      parse: Parser<S, M, E>, st: S, raws: seq<Bytes>, ms: seq<M>, tail: Bytes)
    requires Shrinks(parse) && Stable(parse) && AreFrames(parse, st, raws, ms)
    ensures Decode(parse, st, Concat(raws) + tail) == Prepend(ms, Decode(parse, st, tail))
    decreases |ms|
  {
    if ms == [] {
      assert Concat(raws) + tail == tail;
    } else {
      var rest := Concat(raws[1..]) + tail;
      assert Concat(raws) + tail == raws[0] + rest;
      assert IsFrame(parse, st, raws[0], ms[0]);
      assert parse(st, raws[0] + rest) == Resume(parse, parse(st, raws[0]), rest);
      assert [] + rest == rest;
      DecodeFrames(parse, st, raws[1..], ms[1..], tail);
      PrependTwice([ms[0]], ms[1..], Decode(parse, st, tail));
      assert ms == [ms[0]] + ms[1..];
    }
  }

  lemma AreFramesCons<S, M, E>(parse: Parser<S, M, E>, st: S, raw: Bytes, m: M, raws: seq<Bytes>, ms: seq<M>)
    requires IsFrame(parse, st, raw, m) && AreFrames(parse, st, raws, ms)
    ensures AreFrames(parse, st, [raw] + raws, [m] + ms)
    ensures Concat([raw] + raws) == raw + Concat(raws)
  {
    assert ([raw] + raws)[1..] == raws;
  }

  lemma DecodeOneFrame<S(!new), M, E>(parse: Parser<S, M, E>, st: S, raw: Bytes, m: M, tail: Bytes)
    requires Shrinks(parse) && Stable(parse) && IsFrame(parse, st, raw, m)
    ensures Decode(parse, st, raw + tail) == Prepend([m], Decode(parse, st, tail))
  {
    assert parse(st, raw + tail) == Resume(parse, parse(st, raw), tail);
    assert [] + tail == tail;
  }

  /** Part of a frame, cut off before its end, is only waited for. */
  lemma CutFramePends<S(!new), M, E>(parse: Parser<S, M, E>, st: S, p: Bytes, q: Bytes, m: M)
    requires Stable(parse) && IsFrame(parse, st, p + q, m) && q != []
    ensures parse(st, p).Pending?
  {
    assert parse(st, p + q) == Resume(parse, parse(st, p), q);
  }

  /** `data` is the bytes of the messages it decodes to, one frame each,
      followed by `tail`, from which no message can be made. */
  ghost predicate Conserved<S(!new), M, E>(parse: Parser<S, M, E>, st: S, data: Bytes, raws: seq<Bytes>, tail: Bytes)
    requires Shrinks(parse)
  {
    var r := Decode(parse, st, data);
    && data == Concat(raws) + tail
    && AreFrames(parse, st, raws, r.messages)
    && !parse(st, tail).Emit?
    && r == Prepend(r.messages, StepRun(parse(st, tail)))
  }

  lemma ConservedCons<S(!new), M, E>(
      parse: Parser<S, M, E>, st: S, raw: Bytes, data: Bytes, raws: seq<Bytes>, tail: Bytes)
    requires Shrinks(parse) && parse(st, data).Emit? && parse(st, data).st == st
    requires data == raw + parse(st, data).rest && IsFrame(parse, st, raw, parse(st, data).message)
    requires Conserved(parse, st, parse(st, data).rest, raws, tail)
    ensures Conserved(parse, st, data, [raw] + raws, tail)
  {
    var m, rest := parse(st, data).message, parse(st, data).rest;
    var ms := Decode(parse, st, rest).messages;
    AreFramesCons(parse, st, raw, m, raws, ms);
    assert raw + (Concat(raws) + tail) == (raw + Concat(raws)) + tail;
    PrependTwice([m], ms, StepRun(parse(st, tail)));
  }

  /** Byte conservation, for every buffer. */
  lemma {:induction false} DecodeConserves<S(!new), M, E>(parse: Parser<S, M, E>, st: S, data: Bytes)
    returns (raws: seq<Bytes>, tail: Bytes)
    requires Shrinks(parse) && Local(parse, st)
    ensures Conserved(parse, st, data, raws, tail)
    decreases |data|
  {
    if parse(st, data).Emit? {
      var rest := parse(st, data).rest;
      var raw :| data == raw + rest && IsFrame(parse, st, raw, parse(st, data).message);
      raws, tail := DecodeConserves(parse, st, rest);
      ConservedCons(parse, st, raw, data, raws, tail);
      raws := [raw] + raws;
    } else {
      raws, tail := [], data;
    }
  }
}
