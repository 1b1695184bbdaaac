/** Disconnect notices, from their bytes to the end of the reader. */
module Notices {
  import opened Text
  import opened Headers
  import opened Incremental
  import opened Framing
  import opened IncomingFrames
  import opened ReaderLoop
  import EndToEnd
  import Percent

  /** The entries ask the client to stay. */
  predicate AsksToLinger(es: seq<Entry>) {
    exists i | 0 <= i < |es| ::
      SaysAt(es, "Content-Disposition", es[i].1, i) && Percent.DecodeValue(es[i].1) == "linger"
  }

  /** Where the key is said last, or the end. */
  lemma {:induction false} LastOrOmitted(es: seq<Entry>, key: Bytes) returns (i: nat)
    ensures i <= |es|
    ensures if i == |es| then Omits(es, key) else SaysAt(es, key, es[i].1, i)
  {
    if es == [] {
      i := 0;
    } else {
      var n := |es| - 1;
      i := LastOrOmitted(es[..n], key);
      if es[n].0 == key {
        i := n;
      } else if i == n {
        i := |es|;
      }
    }
  }

  lemma OneLast(es: seq<Entry>, key: Bytes, i: nat, j: nat)
    requires i < |es| && j < |es| && SaysAt(es, key, es[i].1, i) && SaysAt(es, key, es[j].1, j)
    ensures i == j
  {
  }

  /** A disconnect notice ends the connection exactly if its header lines do not ask
      to linger. */
  lemma NoticeIsFinalExactly(es: seq<Entry>, body: Option<Bytes>)
    ensures IsFinalNotice(Message(Disconnect, Collect(es, map[]), body)) <==> !AsksToLinger(es)
  {
    var i := LastOrOmitted(es, "Content-Disposition");
    if i < |es| {
      CollectSays(es, map[], "Content-Disposition", es[i].1, i);
      forall j | 0 <= j < |es| && SaysAt(es, "Content-Disposition", es[j].1, j) ensures j == i {
        OneLast(es, "Content-Disposition", i, j);
      }
    } else {
      CollectKeeps(es, map[], "Content-Disposition");
    }
  }

  lemma OneMessage(text: Bytes, m: Message)
    requires ParseMessage(WaitingForHeaders, text) == Emit(m, WaitingForHeaders, [])
    ensures DecodeStream(text) == Run([m], None, WaitingForHeaders, [])
  {
    FrameIsFrame(text, m);
    EndToEnd.OneFrameMore(text, m, []);
    NothingToDecode();
    AloneIsWhole(text, m);
  }

  lemma AloneIsWhole(text: Bytes, m: Message)
    requires DecodeStream(text + []) == Prepend([m], Run([], None, WaitingForHeaders, []))
    ensures DecodeStream(text) == Run([m], None, WaitingForHeaders, [])
  {
    assert text + [] == text && [m] + [] == [m];
  }

  lemma NothingToDecode()
    ensures DecodeStream([]) == Run([], None, WaitingForHeaders, [])
  {
  }

  lemma RoundBeforeData(text: Bytes, threshold: nat, closesAt: Option<nat>)
    requires |text| <= MAX_BUFFER_SIZE
    ensures GoesOn([], [Data(text)], threshold, closesAt, 0)
  {
    NothingToDecode();
    assert [Data(text)][..0] == [];
  }

  lemma HandleNotice(m: Message, closesAt: Option<nat>)
    requires m.messageType.Disconnect?
    ensures HandleAll([m], closesAt).exit == if IsFinalNotice(m) then Published(ServerNotice) else Running
  {
    assert [m][..0] == [];
  }

  lemma OneRead(text: Bytes)
    ensures DataOf([], [Data(text)]) == text && [Data(text)][..1] == [Data(text)]
  {
    assert [Data(text)][..0] == [];
  }

  lemma RoundAtEnd(script: seq<Read>, m: Message, threshold: nat, closesAt: Option<nat>)
    requires DecodeStream(DataOf([], script[..|script|])) == Run([m], None, WaitingForHeaders, [])
    ensures Round([], script, threshold, closesAt, |script|).exit == HandleAll([m], closesAt).exit
  {
  }

  lemma RoundAfterData(text: Bytes, m: Message, threshold: nat, closesAt: Option<nat>)
    requires DecodeStream(text) == Run([m], None, WaitingForHeaders, []) && m.messageType.Disconnect?
    ensures Round([], [Data(text)], threshold, closesAt, 1).exit ==
      if IsFinalNotice(m) then Published(ServerNotice) else Running
  {
    OneRead(text);
    RoundAtEnd([Data(text)], m, threshold, closesAt);
    HandleNotice(m, closesAt);
  }

  /** A reader that receives a notice, and nothing else, says that the server has
      disconnected exactly if the notice does not ask to linger. */
  lemma NoticeEndsTheLoopExactly(es: seq<Entry>, threshold: nat, closesAt: Option<nat>, r: ReaderLoop.Outcome)
    requires Typed(es, "text/disconnect-notice") && Omits(es, "Content-Length")
    requires |Wire(es, [])| <= MAX_BUFFER_SIZE
    requires Explains([], [Data(Wire(es, []))], threshold, closesAt, r)
    ensures r.handled.exit == if AsksToLinger(es) then Running else Published(ServerNotice)
  {
    var m := Message(Disconnect, Collect(es, map[]), None);
    NoLengthNoBody(es, "text/disconnect-notice", []);
    NoticeType();
    NoticeIsFinalExactly(es, None);
    OneMessage(Wire(es, []), m);
    RoundBeforeData(Wire(es, []), threshold, closesAt);
    RoundAfterData(Wire(es, []), m, threshold, closesAt);
  }

  lemma NoticeType()
    ensures TypeOf("text/disconnect-notice") == Disconnect
  {
    MessageTypesExactly("text/disconnect-notice");
    NoPercent();
    Percent.DecodeValueWithoutPercent("text/disconnect-notice");
  }

  lemma NoPercent()
    ensures '%' !in "text/disconnect-notice"
  {
  }
}
