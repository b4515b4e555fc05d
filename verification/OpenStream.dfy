/**
  The reader of an open-ended stream (packages/sdk-go/client.go): every frame with data goes to the
  callback until it stops, fails or the stream ends.
 */
module OpenStream {
  import opened GoText
  import opened Arrival
  import opened EventStream
  import opened Callbacks

  type Callback = seq<Frame> -> Reply

  datatype OpenOutcome = Closed | OpenFailed(error: StreamError)

  function FrameOf(text: string): seq<Frame>
  {
    var block := ReadBlock(text);
    if block.hasData then [Frame(block.event, block.data)] else []
  }

  /** The frames with data in `blocks`; a `response` event is a frame like any other here. */
  function DataFrames(blocks: seq<string>): seq<Frame>
  {
    if blocks == [] then [] else DataFrames(blocks[..|blocks| - 1]) + FrameOf(Last(blocks))
  }

  function OutcomeOf(reply: Reply): OpenOutcome
  {
    if reply.Fail? then OpenFailed(FromCallback(reply.cause)) else Closed
  }

  /** What the reader returns, and the frames it handed over. */
  function OpenRun(onFrame: Callback, chunks: seq<string>, ending: Ending, limit: nat): (OpenOutcome, seq<Frame>)
  {
    var k := Fits(chunks, limit);
    var d := Deliver(onFrame, DataFrames(Arrive(chunks[..k]).done));
    if !d.reply.Continue? then (OutcomeOf(d.reply), d.items)
    else if k < |chunks| then (OpenFailed(TooLarge(limit)), d.items)
    else match ending
      case Broken(cause) => (OpenFailed(ReadFailed(cause)), d.items)
      case Cancelled(cause) => (OpenFailed(ContextEnded(cause)), d.items)
      case Eof =>
        var last := Deliver(onFrame, DataFrames(LiveBlocks(chunks)));
        (OutcomeOf(last.reply), last.items)
  }

  // ---------------------------------------------------------------- the loop

  lemma {:induction false} DataFramesAppend(x: seq<string>, y: seq<string>)
    ensures DataFrames(x + y) == DataFrames(x) + DataFrames(y)
  {
    hide DataFrames, FrameOf;
    if y == [] {
      NoFrames();
      assert x + y == x;
    } else {
      var front, last := y[..|y| - 1], Last(y);
      DataFramesAppend(x, front);
      OneMoreBlock(x + front, last);
      OneMoreBlock(front, last);
      assert x + y == x + front + [last] && y == front + [last];
    }
  }

  lemma NoFrames()
    ensures DataFrames([]) == []
  {
  }

  lemma OneMoreBlock(blocks: seq<string>, text: string)
    ensures DataFrames(blocks + [text]) == DataFrames(blocks) + FrameOf(text)
  {
    hide FrameOf;
    assert (blocks + [text])[..|blocks|] == blocks && Last(blocks + [text]) == text;
  }

  lemma BlockRefusalSticks(onFrame: Callback, x: seq<string>, y: seq<string>)
    requires !Deliver(onFrame, DataFrames(x)).reply.Continue?
    ensures Deliver(onFrame, DataFrames(x + y)) == Deliver(onFrame, DataFrames(x))
  {
    DataFramesAppend(x, y);
    RefusalSticks(onFrame, DataFrames(x), DataFrames(y));
  }

  /** The reader's `handle` closure, with the record of what the callback was given. */
  method Hand(onFrame: Callback, ghost done: seq<string>, d: Delivery<Frame>, text: string)
    returns (next: Delivery<Frame>)
    requires d == Deliver(onFrame, DataFrames(done)) && d.reply.Continue?
    ensures next == Deliver(onFrame, DataFrames(done + [text]))
  {
    var block := ParseEventBlock(text);
    assert (done + [text])[..|done|] == done && Last(done + [text]) == text;
    if !block.hasData {
      assert DataFrames(done + [text]) == DataFrames(done);
      return d;
    }
    var frame := Frame(block.event, block.data);
    var given := d.items + [frame];
    next := Delivery(given, onFrame(given));
    DeliverStopsAtFirstRefusal(onFrame, DataFrames(done));
    DeliverOneMore(onFrame, DataFrames(done), frame);
  }

  method DrainOpen(onFrame: Callback, ghost done: seq<string>, d: Delivery<Frame>, text: string)
    returns (next: Delivery<Frame>, pending: string)
    requires d == Deliver(onFrame, DataFrames(done)) && d.reply.Continue?
    ensures var parts := Split(text, SEP);
      && next == Deliver(onFrame, DataFrames(done + parts[..|parts| - 1]))
      && (next.reply.Continue? ==> pending == Last(parts))
  {
    hide Deliver, DataFrames, Split, Index;
    next, pending := d, text;
    ghost var taken: seq<string> := [];
    assert done + taken == done;
    while true
      invariant next.reply.Continue?
      invariant next == Deliver(onFrame, DataFrames(done + taken))
      invariant Split(text, SEP) == taken + Split(pending, SEP)
      decreases |pending|
    {
      var end := Index(pending, SEP);
      TakeBlock(pending, end);
      if end < 0 {
        assert (taken + [pending])[..|taken + [pending]| - 1] == taken;
        return;
      }
      var block := pending[..end];
      pending := pending[end + |SEP|..];
      Regroup(done, taken, block, Split(pending, SEP));
      next := Hand(onFrame, done + taken, next, block);
      taken := taken + [block];
      if !next.reply.Continue? {
        RefusalSticksInside(onFrame, done, taken, Split(pending, SEP));
        return;
      }
    }
  }

  lemma RefusalSticksInside(onFrame: Callback, done: seq<string>, taken: seq<string>, rest: seq<string>)
    requires !Deliver(onFrame, DataFrames(done + taken)).reply.Continue? && rest != []
    ensures Deliver(onFrame, DataFrames(done + (taken + rest)[..|taken + rest| - 1])) ==
            Deliver(onFrame, DataFrames(done + taken))
  {
    hide Deliver, DataFrames;
    var front := rest[..|rest| - 1];
    BlockRefusalSticks(onFrame, done + taken, front);
    assert (taken + rest)[..|taken + rest| - 1] == taken + front;
    assert done + taken + front == done + (taken + front);
  }

  lemma OpenRefusalSticks(onFrame: Callback, chunks: seq<string>, k: nat, ending: Ending, limit: nat)
    requires k <= |chunks| && |Flat(chunks[..k])| <= limit
    requires !Deliver(onFrame, DataFrames(Arrive(chunks[..k]).done)).reply.Continue?
    ensures var d := Deliver(onFrame, DataFrames(Arrive(chunks[..k]).done));
      OpenRun(onFrame, chunks, ending, limit) == (OutcomeOf(d.reply), d.items)
  {
    hide Deliver, DataFrames;
    var fits := chunks[..Fits(chunks, limit)];
    FitsAtLeast(chunks, limit, k);
    assert fits[..k] == chunks[..k];
    DoneGrows(fits, k);
    var x, y := Arrive(chunks[..k]).done, Arrive(fits).done;
    assert y == x + y[|x|..];
    BlockRefusalSticks(onFrame, x, y[|x|..]);
  }

  lemma NothingDelivered(onFrame: Callback)
    ensures Deliver(onFrame, DataFrames([])) == Delivery([], Continue)
  {
  }

  method ReadOpenEventStream(onFrame: Callback, chunks: seq<string>, ending: Ending, limit: nat)
    returns (outcome: OpenOutcome, frames: seq<Frame>)
    ensures (outcome, frames) == OpenRun(onFrame, chunks, ending, limit)
  {
    hide Deliver, DataFrames, Split, Normalize;
    var d := Delivery([], Continue);
    var pending, total := "", 0;
    NothingDelivered(onFrame);
    for n := 0 to |chunks|
      invariant total == |Flat(chunks[..n])| <= limit
      invariant pending == Arrive(chunks[..n]).pending
      invariant d == Deliver(onFrame, DataFrames(Arrive(chunks[..n]).done)) && d.reply.Continue?
    {
      var bytes := chunks[n];
      assert chunks[..n + 1][..n] == chunks[..n] && Last(chunks[..n + 1]) == bytes;
      if |bytes| > 0 {
        total := total + |bytes|;
        if total > limit {
          FitsIs(chunks, limit, n);
          return OpenFailed(TooLarge(limit)), d.items;
        }
        d, pending := DrainOpen(onFrame, Arrive(chunks[..n]).done, d, Normalize(pending + bytes));
        if !d.reply.Continue? {
          OpenRefusalSticks(onFrame, chunks, n + 1, ending, limit);
          return OutcomeOf(d.reply), d.items;
        }
      }
    }
    assert chunks[..|chunks|] == chunks;
    FitsIs(chunks, limit, |chunks|);
    match ending {
      case Broken(cause) => return OpenFailed(ReadFailed(cause)), d.items;
      case Cancelled(cause) => return OpenFailed(ContextEnded(cause)), d.items;
      case Eof =>
    }
    var parts := Split(pending, SEP);
    ghost var done := Arrive(chunks).done;
    ArrivedIsOneBlock(chunks);
    assert done + parts[..0] == done && done + parts[..1] == LiveBlocks(chunks);
    for i := 0 to |parts|
      invariant d == Deliver(onFrame, DataFrames(done + parts[..i])) && d.reply.Continue?
    {
      assert done + parts[..i] + [parts[i]] == done + parts[..i + 1];
      d := Hand(onFrame, done + parts[..i], d, parts[i]);
      if !d.reply.Continue? {
        return OutcomeOf(d.reply), d.items;
      }
    }
    outcome, frames := Closed, d.items;
  }

  /** The outcome once the reads are used up or too long, in the words of the source. */
  function EndOutcome(ending: Ending, tooLong: bool, limit: nat): OpenOutcome
  {
    if tooLong then OpenFailed(TooLarge(limit))
    else match ending
      case Eof => Closed
      case Broken(cause) => OpenFailed(ReadFailed(cause))
      case Cancelled(cause) => OpenFailed(ContextEnded(cause))
  }

  /**
    Cut into reads in any way, and however it ends: let `k` reads stay within the limit. The callback gets the
    frames of their blocks, the last block only when the stream has ended, up to and including the first it
    refuses. The result is nil or that frame's error if it refuses one, otherwise what ended the stream: an
    error for a stream too long, broken off or cancelled, nil at its end.
   */
  lemma OpenRunIsWhole(onFrame: Callback, chunks: seq<string>, ending: Ending, limit: nat, k: nat)
      returns (reply: Reply)
    requires k <= |chunks| && |Flat(chunks[..k])| <= limit
    requires k < |chunks| ==> |Flat(chunks[..k + 1])| > limit
    requires NoInnerCrCrLf(Flat(chunks[..k]))
    ensures var (outcome, frames) := OpenRun(onFrame, chunks, ending, limit);
      var all := WholeBlocks(Flat(chunks[..k]));
      var seen := if k == |chunks| && ending.Eof? then all else all[..|all| - 1];
      && UpToFirstRefusal(onFrame, DataFrames(seen), Delivery(frames, reply))
      && outcome ==
         match reply {
           case Stop => Closed
           case Fail(cause) => OpenFailed(FromCallback(cause))
           case Continue => EndOutcome(ending, k < |chunks|, limit)
         }
  {
    hide Deliver, DataFrames, Split, Normalize, UpToFirstRefusal, Arrive;
    var fits := chunks[..k];
    CleanIsUndisturbed(fits);
    AgreesIffUndisturbed(fits);
    FitsIs(chunks, limit, k);
    assert Fits(chunks, limit) == k;
    var done, pending := Arrive(fits).done, Arrive(fits).pending;
    assert LiveBlocks(fits) == done + [pending] && (done + [pending])[..|done|] == done;
    var d := Deliver(onFrame, DataFrames(done));
    DeliverStopsAtFirstRefusal(onFrame, DataFrames(done));
    DeliverStopsAtFirstRefusal(onFrame, DataFrames(LiveBlocks(fits)));
    if k == |chunks| && ending.Eof? {
      assert fits == chunks;
      if !d.reply.Continue? {
        BlockRefusalSticks(onFrame, done, [pending]);
      }
      d := Deliver(onFrame, DataFrames(LiveBlocks(fits)));
    }
    reply := d.reply;
    assert d == Delivery(d.items, d.reply);
  }
}
