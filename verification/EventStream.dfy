/**
  The two readers of an agent turn's event stream (packages/sdk-go/client.go): the parser of a body read whole
  and the incremental reader.

  JSON decoding is a parameter. A callback's calls are recorded as the frames it was given; its answer
  is a function of every frame it has been given so far.
 */
module EventStream {
  import opened Wrappers
  import opened GoText
  import opened Arrival

  datatype Frame = Frame(event: string, data: string)

  /** What `json.Unmarshal` finds in a terminal event: `body` is `None` when the key is missing. */
  datatype Envelope = Envelope(status: int, body: Option<string>)

  type Decoder = string -> Option<Envelope>

  datatype StreamError =
    | MultipleTerminals
    | NoTerminal
    | UnparsableTerminal
    | InvalidEnvelope
    | TooLarge(limit: nat)
    | ReadFailed(cause: string)
    | ContextEnded(cause: string)
    | FromCallback(cause: string)

  datatype Outcome = Terminal(status: int, body: string) | Failed(error: StreamError)

  /** How the byte stream finished after its last read. */
  datatype Ending = Eof | Broken(cause: string) | Cancelled(cause: string)

  // ---------------------------------------------------------------- one block

  datatype Block = Block(event: string, data: string, hasData: bool)

  /** The value of the last `event:` line. */
  function EventName(lines: seq<string>): string
  {
    if lines == [] then "message"
    else if "event:" <= Last(lines) then TrimSpace(Last(lines)[|"event:"|..])
    else EventName(lines[..|lines| - 1])
  }

  /** The values of the `data:` lines, in order. */
  function DataLines(lines: seq<string>): seq<string>
  {
    if lines == [] then []
    else DataLines(lines[..|lines| - 1]) +
         if "data:" <= Last(lines) then [TrimBlanksLeft(Last(lines)[|"data:"|..])] else []
  }

  function ReadBlock(text: string): Block
  {
    var lines := Split(text, "\n");
    Block(EventName(lines), Join(DataLines(lines), "\n"), DataLines(lines) != [])
  }

  method ParseEventBlock(text: string) returns (block: Block)
    ensures block == ReadBlock(text)
  {
    var event := "message";
    var data: seq<string> := [];
    var lines := Split(text, "\n");
    for i := 0 to |lines|
      invariant event == EventName(lines[..i])
      invariant data == DataLines(lines[..i])
    {
      var line := lines[i];
      assert lines[..i + 1][..i] == lines[..i] && Last(lines[..i + 1]) == line;
      if ":" <= line {
        assert line[0] == ':' && "event:"[0] == 'e' && "data:"[0] == 'd';
        continue;
      }
      if "event:" <= line {
        event := TrimSpace(line[|"event:"|..]);
      } else if "data:" <= line {
        data := data + [TrimBlanksLeft(line[|"data:"|..])];
      }
    }
    assert lines[..|lines|] == lines;
    block := Block(event, Join(data, "\n"), |data| > 0);
  }

  function DecodeTerminalEnvelope(decode: Decoder, data: string): Outcome
  {
    match decode(data)
    case None => Failed(UnparsableTerminal)
    case Some(e) =>
      if e.status < 100 || e.status > 599 || e.body.None? then Failed(InvalidEnvelope)
      else Terminal(e.status, e.body.value)
  }

  // ---------------------------------------------------------------- an agent turn

  /** The reader's variables; `terminal` is what `found`, `status` and `terminalBody` hold. */
  datatype Turn = Turn(terminal: Option<Outcome>, frames: seq<Frame>, error: Option<StreamError>)

  function HandleBlock(decode: Decoder, turn: Turn, text: string): Turn
  {
    var block := ReadBlock(text);
    if block.event == "response" then
      if turn.terminal.Some? then turn.(error := Some(MultipleTerminals))
      else
        var decoded := DecodeTerminalEnvelope(decode, block.data);
        if decoded.Failed? then turn.(error := Some(decoded.error))
        else turn.(terminal := Some(decoded))
    else if block.hasData then turn.(frames := turn.frames + [Frame(block.event, block.data)])
    else turn
  }

  /** Handle blocks in order, up to the first error. */
  function HandleAll(decode: Decoder, blocks: seq<string>): Turn
  {
    if blocks == [] then Turn(None, [], None)
    else
      var turn := HandleAll(decode, blocks[..|blocks| - 1]);
      if turn.error.Some? then turn else HandleBlock(decode, turn, Last(blocks))
  }

  function Conclude(turn: Turn): Outcome
  {
    if turn.error.Some? then Failed(turn.error.value)
    else if turn.terminal.None? then Failed(NoTerminal)
    else turn.terminal.value
  }

  /** The largest number of leading reads whose bytes stay within `limit`. */
  function Fits(chunks: seq<string>, limit: nat): (k: nat)
    ensures k <= |chunks|
  {
    if |Flat(chunks)| <= limit then |chunks|
    else Fits(chunks[..|chunks| - 1], limit)
  }

  /** What the incremental reader returns, and the frames it handed to the callback. */
  function LiveTurn(decode: Decoder, chunks: seq<string>, ending: Ending, limit: nat): (Outcome, seq<Frame>)
  {
    var k := Fits(chunks, limit);
    var turn := HandleAll(decode, Arrive(chunks[..k]).done);
    if turn.error.Some? then (Failed(turn.error.value), turn.frames)
    else if k < |chunks| then (Failed(TooLarge(limit)), turn.frames)
    else if !ending.Eof? then (Failed(ReadFailed(ending.cause)), turn.frames)
    else
      var last := HandleAll(decode, LiveBlocks(chunks));
      (Conclude(last), last.frames)
  }

  /** What the buffered path returns for the same bytes. */
  function BufferedTurn(decode: Decoder, chunks: seq<string>, ending: Ending, limit: nat): Outcome
  {
    if |Flat(chunks)| > limit then Failed(TooLarge(limit))
    else if !ending.Eof? then Failed(ReadFailed(ending.cause))
    else Conclude(HandleAll(decode, WholeBlocks(Flat(chunks))))
  }

  /** After an error nothing more is handled. */
  lemma {:induction false} ErrorSticks(decode: Decoder, x: seq<string>, y: seq<string>)
    requires HandleAll(decode, x).error.Some?
    ensures HandleAll(decode, x + y) == HandleAll(decode, x)
  {
    if y == [] {
      assert x + y == x;
    } else {
      var front := y[..|y| - 1];
      ErrorSticks(decode, x, front);
      assert (x + y)[..|x + y| - 1] == x + front;
    }
  }

  /** Handling one more block. */
  lemma HandleOneMore(decode: Decoder, blocks: seq<string>, text: string)
    requires HandleAll(decode, blocks).error.None?
    ensures HandleAll(decode, blocks + [text]) == HandleBlock(decode, HandleAll(decode, blocks), text)
  {
    assert (blocks + [text])[..|blocks|] == blocks;
  }

  method ParseTerminalEventStream(decode: Decoder, body: string) returns (outcome: Outcome)
    ensures outcome == Conclude(HandleAll(decode, WholeBlocks(body)))
  {
    hide HandleAll, ReadBlock, Split, Normalize;
    HandleNone(decode);
    var terminal: Option<Outcome> := None;
    var blocks := Split(Normalize(body), SEP);
    for i := 0 to |blocks|
      invariant HandleAll(decode, blocks[..i]).error.None?
      invariant terminal == HandleAll(decode, blocks[..i]).terminal
    {
      var block := ParseEventBlock(blocks[i]);
      assert blocks[..i + 1] == blocks[..i] + [blocks[i]];
      HandleOneMore(decode, blocks[..i], blocks[i]);
      if block.event != "response" {
        continue;
      }
      ghost var rest := blocks[i + 1..];
      assert blocks == blocks[..i + 1] + rest;
      if terminal.Some? {
        ErrorSticks(decode, blocks[..i + 1], rest);
        return Failed(MultipleTerminals);
      }
      var decoded := DecodeTerminalEnvelope(decode, block.data);
      if decoded.Failed? {
        ErrorSticks(decode, blocks[..i + 1], rest);
        return decoded;
      }
      terminal := Some(decoded);
    }
    assert blocks[..|blocks|] == blocks;
    outcome := if terminal.None? then Failed(NoTerminal) else terminal.value;
  }

  /** The reader's `handle` closure. */
  method Handle(decode: Decoder, turn: Turn, text: string) returns (next: Turn)
    requires turn.error.None?
    ensures next == HandleBlock(decode, turn, text)
  {
    var block := ParseEventBlock(text);
    next := turn;
    if block.event == "response" {
      if turn.terminal.Some? {
        return turn.(error := Some(MultipleTerminals));
      }
      var decoded := DecodeTerminalEnvelope(decode, block.data);
      if decoded.Failed? {
        return turn.(error := Some(decoded.error));
      }
      next := turn.(terminal := Some(decoded));
    } else if block.hasData {
      next := turn.(frames := turn.frames + [Frame(block.event, block.data)]);
    }
  }

  lemma {:induction false} FitsIs(chunks: seq<string>, limit: nat, k: nat)
    requires k <= |chunks| && |Flat(chunks[..k])| <= limit
    requires k < |chunks| ==> |Flat(chunks[..k + 1])| > limit
    ensures Fits(chunks, limit) == k
  {
    if k == |chunks| {
      assert chunks[..k] == chunks;
    } else {
      var front := chunks[..|chunks| - 1];
      FlatPrefix(chunks, k + 1);
      assert front[..k] == chunks[..k];
      if k < |front| {
        assert front[..k + 1] == chunks[..k + 1];
      }
      FitsIs(front, limit, k);
    }
  }

  /** Taking off the first block. */
  lemma TakeBlock(text: string, i: int)
    requires i == Index(text, SEP)
    ensures i >= 0 ==> Split(text, SEP) == [text[..i]] + Split(text[i + |SEP|..], SEP)
    ensures i < 0 ==> Split(text, SEP) == [text]
  {
  }

  lemma Regroup(done: seq<string>, taken: seq<string>, block: string, rest: seq<string>)
    ensures done + taken + [block] == done + (taken + [block])
    ensures taken + ([block] + rest) == (taken + [block]) + rest
  {
  }

  lemma ErrorSticksInside(decode: Decoder, done: seq<string>, taken: seq<string>, rest: seq<string>)
    requires HandleAll(decode, done + taken).error.Some? && rest != []
    ensures HandleAll(decode, done + (taken + rest)[..|taken + rest| - 1]) == HandleAll(decode, done + taken)
  {
    hide HandleAll;
    var front := rest[..|rest| - 1];
    ErrorSticks(decode, done + taken, front);
    assert (taken + rest)[..|taken + rest| - 1] == taken + front;
    assert done + taken + front == done + (taken + front);
  }

  /** The inner loop: handle every complete block of `text`, stopping at an error. */
  method Drain(decode: Decoder, ghost done: seq<string>, turn: Turn, text: string)
    returns (next: Turn, pending: string)
    requires turn == HandleAll(decode, done) && turn.error.None?
    ensures var parts := Split(text, SEP);
      && next == HandleAll(decode, done + parts[..|parts| - 1])
      && (next.error.None? ==> pending == Last(parts))
  {
    hide HandleAll, HandleBlock, Split, Index;
    next, pending := turn, text;
    ghost var taken: seq<string> := [];
    assert done + taken == done;
    while true
      invariant next.error.None?
      invariant next == HandleAll(decode, done + taken)
      invariant Split(text, SEP) == taken + Split(pending, SEP)
      decreases |pending|
    {
      var end := Index(pending, SEP);
      TakeBlock(pending, end);
      if end < 0 {
        assert (taken + [pending])[..|taken + [pending]| - 1] == taken;
        return;
      }
      var block := pending[..end];
      pending := pending[end + |SEP|..];
      next := Handle(decode, next, block);
      Regroup(done, taken, block, Split(pending, SEP));
      HandleOneMore(decode, done + taken, block);
      taken := taken + [block];
      if next.error.Some? {
        ErrorSticksInside(decode, done, taken, Split(pending, SEP));
        return;
      }
    }
  }

  method ReadLiveEventStream(decode: Decoder, chunks: seq<string>, ending: Ending, limit: nat)
    returns (outcome: Outcome, frames: seq<Frame>)
    ensures (outcome, frames) == LiveTurn(decode, chunks, ending, limit)
  {
    hide HandleAll, HandleBlock, Split, Normalize;
    var turn := Turn(None, [], None);
    var pending, total := "", 0;
    HandleNone(decode);
    for n := 0 to |chunks|
      invariant total == |Flat(chunks[..n])| <= limit
      invariant pending == Arrive(chunks[..n]).pending
      invariant turn == HandleAll(decode, Arrive(chunks[..n]).done) && turn.error.None?
    {
      var bytes := chunks[n];
      assert chunks[..n + 1][..n] == chunks[..n] && Last(chunks[..n + 1]) == bytes;
      if |bytes| > 0 {
        total := total + |bytes|;
        if total > limit {
          FitsIs(chunks, limit, n);
          return Failed(TooLarge(limit)), turn.frames;
        }
        turn, pending := Drain(decode, Arrive(chunks[..n]).done, turn, Normalize(pending + bytes));
        if turn.error.Some? {
          LiveErrorSticks(decode, chunks, n + 1, ending, limit);
          return Failed(turn.error.value), turn.frames;
        }
      }
    }
    assert chunks[..|chunks|] == chunks;
    FitsIs(chunks, limit, |chunks|);
    if !ending.Eof? {
      return Failed(ReadFailed(ending.cause)), turn.frames;
    }
    var parts := Split(pending, SEP);
    ghost var done := Arrive(chunks).done;
    ArrivedIsOneBlock(chunks);
    assert done + parts[..0] == done && done + parts[..1] == LiveBlocks(chunks);
    for i := 0 to |parts|
      invariant turn == HandleAll(decode, done + parts[..i]) && turn.error.None?
    {
      turn := Handle(decode, turn, parts[i]);
      HandleOneMore(decode, done + parts[..i], parts[i]);
      assert done + parts[..i] + [parts[i]] == done + parts[..i + 1];
      if turn.error.Some? {
        return Failed(turn.error.value), turn.frames;
      }
    }
    outcome, frames := Conclude(turn), turn.frames;
  }

  lemma HandleNone(decode: Decoder)
    ensures HandleAll(decode, []) == Turn(None, [], None)
  {
  }

  /** The text left when the stream ends is split once more, into itself. */
  lemma {:induction false} ArrivedIsOneBlock(chunks: seq<string>)
    ensures Split(Arrive(chunks).pending, SEP) == [Arrive(chunks).pending]
  {
    if chunks != [] {
      var before, bytes := chunks[..|chunks| - 1], Last(chunks);
      if bytes == "" {
        ArrivedIsOneBlock(before);
      } else {
        LastPartHasNoSeparator(Normalize(Arrive(before).pending + bytes), SEP, Arrive(chunks).pending);
      }
    }
  }

  /** Blocks taken off stay taken off. */
  lemma {:induction false} DoneGrows(chunks: seq<string>, k: nat)
    requires k <= |chunks|
    ensures Arrive(chunks[..k]).done <= Arrive(chunks).done
  {
    if k == |chunks| {
      assert chunks[..k] == chunks;
    } else {
      var front := chunks[..|chunks| - 1];
      assert front[..k] == chunks[..k];
      DoneGrows(front, k);
    }
  }

  lemma {:induction false} FitsAtLeast(chunks: seq<string>, limit: nat, k: nat)
    requires k <= |chunks| && |Flat(chunks[..k])| <= limit
    ensures Fits(chunks, limit) >= k
  {
    if k == |chunks| {
      assert chunks[..k] == chunks;
    } else {
      var front := chunks[..|chunks| - 1];
      assert front[..k] == chunks[..k];
      FitsAtLeast(front, limit, k);
    }
  }

  /** An error within the limit is what the turn returns, whatever arrives later. */
  lemma LiveErrorSticks(decode: Decoder, chunks: seq<string>, k: nat, ending: Ending, limit: nat)
    requires k <= |chunks| && |Flat(chunks[..k])| <= limit
    requires HandleAll(decode, Arrive(chunks[..k]).done).error.Some?
    ensures var turn := HandleAll(decode, Arrive(chunks[..k]).done);
      LiveTurn(decode, chunks, ending, limit) == (Failed(turn.error.value), turn.frames)
  {
    hide Arrive, Fits, HandleAll, Conclude;
    var fits := chunks[..Fits(chunks, limit)];
    FitsAtLeast(chunks, limit, k);
    assert fits[..k] == chunks[..k];
    DoneGrows(fits, k);
    var x, y := Arrive(chunks[..k]).done, Arrive(fits).done;
    assert y == x + y[|x|..];
    ErrorSticks(decode, x, y[|x|..]);
  }
}
