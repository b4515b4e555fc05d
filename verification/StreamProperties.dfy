/**
  What the turn readers promise: one verdict in closed form, and agreement of the incremental reader with the
  buffered one, with the inputs on which they differ.
 */
module StreamProperties {
  import opened Wrappers
  import opened GoText
  import opened Arrival
  import opened EventStream

  // ---------------------------------------------------------------- the verdict of a turn

  /** The payloads of the `response` blocks, in order. */
  function Responses(blocks: seq<string>): seq<string>
  {
    if blocks == [] then []
    else
      var block := ReadBlock(Last(blocks));
      Responses(blocks[..|blocks| - 1]) + if block.event == "response" then [block.data] else []
  }

  /** The other blocks that carry data, in order. */
  function ProgressFrames(blocks: seq<string>): seq<Frame>
  {
    if blocks == [] then []
    else
      var block := ReadBlock(Last(blocks));
      ProgressFrames(blocks[..|blocks| - 1]) +
      if block.event != "response" && block.hasData then [Frame(block.event, block.data)] else []
  }

  function Verdict(decode: Decoder, responses: seq<string>): Outcome
  {
    if responses == [] then Failed(NoTerminal)
    else
      var first := DecodeTerminalEnvelope(decode, responses[0]);
      if first.Failed? || |responses| == 1 then first else Failed(MultipleTerminals)
  }

  /** What a turn knows after blocks with these responses and progress frames. */
  ghost predicate Tracks(decode: Decoder, turn: Turn, responses: seq<string>, frames: seq<Frame>)
  {
    && turn.frames <= frames
    && match turn.error {
         case None =>
           && turn.frames == frames
           && if responses == [] then turn.terminal.None?
              else
                && |responses| == 1
                && turn.terminal == Some(DecodeTerminalEnvelope(decode, responses[0]))
                && turn.terminal.value.Terminal?
         case Some(e) =>
           && responses != []
           && Verdict(decode, responses) == Failed(e)
       }
  }

  lemma TracksStep(decode: Decoder, turn: Turn, responses: seq<string>, frames: seq<Frame>, text: string)
    requires Tracks(decode, turn, responses, frames)
    ensures
      var block := ReadBlock(text);
      var next := if turn.error.Some? then turn else HandleBlock(decode, turn, text);
      Tracks(decode, next,
             responses + (if block.event == "response" then [block.data] else []),
             frames + (if block.event != "response" && block.hasData then [Frame(block.event, block.data)] else []))
  {
    hide ReadBlock;
    var block := ReadBlock(text);
    if block.event == "response" {
      assert (responses + [block.data])[0] == if responses == [] then block.data else responses[0];
      assert frames + [] == frames;
    } else {
      assert responses + [] == responses;
    }
  }

  lemma {:induction false} HandleAllTracks(decode: Decoder, blocks: seq<string>)
    ensures Tracks(decode, HandleAll(decode, blocks), Responses(blocks), ProgressFrames(blocks))
  {
    if blocks != [] {
      var front := blocks[..|blocks| - 1];
      HandleAllTracks(decode, front);
      TracksStep(decode, HandleAll(decode, front), Responses(front), ProgressFrames(front), Last(blocks));
    }
  }

  /**
    The fold over blocks computes the verdict. The frames delivered are a prefix of the progress frames,
    and all of them unless the turn failed on a terminal.
   */
  lemma HandleAllVerdict(decode: Decoder, blocks: seq<string>)
    ensures Conclude(HandleAll(decode, blocks)) == Verdict(decode, Responses(blocks))
    ensures HandleAll(decode, blocks).frames <= ProgressFrames(blocks)
    ensures Verdict(decode, Responses(blocks)) == Failed(NoTerminal) || Verdict(decode, Responses(blocks)).Terminal?
            ==> HandleAll(decode, blocks).frames == ProgressFrames(blocks)
  {
    HandleAllTracks(decode, blocks);
  }

  /**
    A turn succeeds exactly when it has one `response` block whose envelope decodes with a body and a
    status from 100 to 599.
   */
  lemma SucceedsIff(decode: Decoder, blocks: seq<string>, status: int, body: string)
    ensures Conclude(HandleAll(decode, blocks)) == Terminal(status, body) <==>
            && |Responses(blocks)| == 1
            && 100 <= status <= 599
            && decode(Responses(blocks)[0]) == Some(Envelope(status, Some(body)))
  {
    hide HandleAll, Responses, Conclude;
    HandleAllVerdict(decode, blocks);
  }

  /** And it fails in exactly one of four ways. */
  lemma FailsIff(decode: Decoder, blocks: seq<string>)
    ensures var outcome, rs := Conclude(HandleAll(decode, blocks)), Responses(blocks);
      var valid := rs != [] && decode(rs[0]).Some? && decode(rs[0]).value.body.Some?
                   && 100 <= decode(rs[0]).value.status <= 599;
      && (outcome == Failed(NoTerminal) <==> rs == [])
      && (outcome == Failed(UnparsableTerminal) <==> rs != [] && decode(rs[0]).None?)
      && (outcome == Failed(InvalidEnvelope) <==> rs != [] && decode(rs[0]).Some? && !valid)
      && (outcome == Failed(MultipleTerminals) <==> valid && |rs| > 1)
  {
    hide HandleAll, Responses, Conclude;
    HandleAllVerdict(decode, blocks);
  }

  /** Whether responses make a turn fail before the stream has ended. */
  predicate FailsOn(decode: Decoder, responses: seq<string>)
  {
    responses != [] && Verdict(decode, responses).Failed?
  }

  /** A turn has failed exactly when its responses so far make it fail. */
  lemma ErrorIff(decode: Decoder, blocks: seq<string>)
    ensures HandleAll(decode, blocks).error.Some? <==> FailsOn(decode, Responses(blocks))
    ensures FailsOn(decode, Responses(blocks)) ==>
              Failed(HandleAll(decode, blocks).error.value) == Verdict(decode, Responses(blocks))
    ensures !FailsOn(decode, Responses(blocks)) ==> HandleAll(decode, blocks).frames == ProgressFrames(blocks)
  {
    HandleAllTracks(decode, blocks);
    hide HandleAll, Responses, ProgressFrames;
  }

  lemma NoBlockFails(decode: Decoder)
    ensures !FailsOn(decode, Responses([]))
  {
  }

  /** A block after a failure adds nothing, and one that fails delivers nothing. */
  lemma LastHandled(decode: Decoder, blocks: seq<string>)
    requires blocks != [] && HandleAll(decode, blocks).error.Some?
    ensures HandleAll(decode, blocks).frames == HandleAll(decode, blocks[..|blocks| - 1]).frames
  {
    HandledError(decode, HandleAll(decode, blocks[..|blocks| - 1]), Last(blocks));
    hide HandleBlock;
  }

  lemma HandledError(decode: Decoder, turn: Turn, text: string)
    ensures turn.error.None? && HandleBlock(decode, turn, text).error.Some? ==>
              HandleBlock(decode, turn, text).frames == turn.frames
  {
    hide ReadBlock;
  }

  /** A turn that fails has delivered every progress frame before the block it fails on, and none after it. */
  lemma {:induction false} FramesUntilFailure(decode: Decoder, blocks: seq<string>) returns (n: nat)
    requires FailsOn(decode, Responses(blocks))
    ensures n < |blocks|
    ensures !FailsOn(decode, Responses(blocks[..n])) && FailsOn(decode, Responses(blocks[..n + 1]))
    ensures HandleAll(decode, blocks).frames == ProgressFrames(blocks[..n])
  {
    hide HandleAll, Responses, ProgressFrames, FailsOn, Verdict;
    NoBlockFails(decode);
    var front := blocks[..|blocks| - 1];
    ErrorIff(decode, blocks);
    ErrorIff(decode, front);
    LastHandled(decode, blocks);
    if FailsOn(decode, Responses(front)) {
      n := FramesUntilFailure(decode, front);
      assert front[..n] == blocks[..n] && front[..n + 1] == blocks[..n + 1];
    } else {
      n := |blocks| - 1;
      assert blocks[..n + 1] == blocks;
    }
  }

  // ---------------------------------------------------------------- incremental against buffered

  /**
    The incremental reader, however the stream is cut and however it ends: let `k` reads stay within the limit.
    A failure in the responses of their blocks is the result; otherwise a stream too long or broken off is an
    error, and a stream that ended gets its verdict. The last block counts only when the stream has ended.
   */
  lemma LiveRunIsWhole(decode: Decoder, chunks: seq<string>, ending: Ending, limit: nat, k: nat)
    requires k <= |chunks| && |Flat(chunks[..k])| <= limit
    requires k < |chunks| ==> |Flat(chunks[..k + 1])| > limit
    requires NoInnerCrCrLf(Flat(chunks[..k]))
    ensures var (outcome, frames) := LiveTurn(decode, chunks, ending, limit);
      var all := WholeBlocks(Flat(chunks[..k]));
      var seen := if k == |chunks| && ending.Eof? then all else all[..|all| - 1];
      && frames == HandleAll(decode, seen).frames
      && outcome ==
         if FailsOn(decode, Responses(seen)) then Verdict(decode, Responses(seen))
         else if k < |chunks| then Failed(TooLarge(limit))
         else match ending {
           case Eof => Verdict(decode, Responses(seen))
           case Broken(cause) => Failed(ReadFailed(cause))
           case Cancelled(cause) => Failed(ReadFailed(cause))
         }
  {
    hide HandleAll, Responses, ProgressFrames, Split, Normalize, Arrive, Conclude, Verdict, FailsOn;
    var fits := chunks[..k];
    CleanIsUndisturbed(fits);
    AgreesIffUndisturbed(fits);
    FitsIs(chunks, limit, k);
    var done, pending := Arrive(fits).done, Arrive(fits).pending;
    assert LiveBlocks(fits) == done + [pending] && (done + [pending])[..|done|] == done;
    ErrorIff(decode, done);
    if k == |chunks| && ending.Eof? {
      assert fits == chunks;
      LiveVerdict(decode, chunks, limit);
    }
  }

  /** Read whole, a stream too long or broken off is an error, and any other gets its verdict. */
  lemma BufferedRun(decode: Decoder, chunks: seq<string>, ending: Ending, limit: nat)
    ensures BufferedTurn(decode, chunks, ending, limit) ==
      if |Flat(chunks)| > limit then Failed(TooLarge(limit))
      else match ending {
        case Eof => Verdict(decode, Responses(WholeBlocks(Flat(chunks))))
        case Broken(cause) => Failed(ReadFailed(cause))
        case Cancelled(cause) => Failed(ReadFailed(cause))
      }
  {
    hide HandleAll, Responses, WholeBlocks, Conclude, Verdict;
    HandleAllVerdict(decode, WholeBlocks(Flat(chunks)));
  }

  /**
    Reading a turn as it arrives gives the outcome of reading it whole, for every way of cutting it into
    reads: the same status and body, or the same error.
   */
  lemma LiveAgreesWithBuffered(decode: Decoder, chunks: seq<string>, limit: nat)
    requires NoInnerCrCrLf(Flat(chunks)) && |Flat(chunks)| <= limit
    ensures LiveTurn(decode, chunks, Eof, limit).0 == BufferedTurn(decode, chunks, Eof, limit)
    ensures LiveTurn(decode, chunks, Eof, limit).1 == HandleAll(decode, WholeBlocks(Flat(chunks))).frames
  {
    CleanIsUndisturbed(chunks);
    AgreesIffUndisturbed(chunks);
    LiveVerdict(decode, chunks, limit);
    HandleAllVerdict(decode, LiveBlocks(chunks));
  }

  /** Within the limit and up to the end of the stream, the incremental reader returns its blocks' verdict. */
  lemma LiveVerdict(decode: Decoder, chunks: seq<string>, limit: nat)
    requires |Flat(chunks)| <= limit
    ensures LiveTurn(decode, chunks, Eof, limit).0 == Verdict(decode, Responses(LiveBlocks(chunks)))
    ensures LiveTurn(decode, chunks, Eof, limit).1 == HandleAll(decode, LiveBlocks(chunks)).frames
  {
    assert chunks[..|chunks|] == chunks;
    FitsIs(chunks, limit, |chunks|);
    HandleAllVerdict(decode, LiveBlocks(chunks));
    if HandleAll(decode, Arrive(chunks).done).error.Some? {
      ErrorSticks(decode, Arrive(chunks).done, [Arrive(chunks).pending]);
    }
  }

  /**
    A progress callback never turns a failure into a success or a success into anything else, also when
    the stream is too long or breaks off.
   */
  lemma LiveSucceedsIffBuffered(decode: Decoder, chunks: seq<string>, ending: Ending, limit: nat,
                                status: int, body: string)
    requires NoInnerCrCrLf(Flat(chunks))
    ensures LiveTurn(decode, chunks, ending, limit).0 == Terminal(status, body) <==>
            BufferedTurn(decode, chunks, ending, limit) == Terminal(status, body)
  {
    if |Flat(chunks)| <= limit && ending.Eof? {
      LiveAgreesWithBuffered(decode, chunks, limit);
    }
  }

  // ---------------------------------------------------------------- where the two differ

  /** Responses no decoder can tell apart: the same first payload, and one of it or more alike. */
  predicate SameResponses(a: seq<string>, b: seq<string>)
  {
    if a == [] || b == [] then a == b
    else a[0] == b[0] && (|a| == 1 <==> |b| == 1)
  }

  lemma SameVerdictsIff(a: seq<string>, b: seq<string>)
    ensures (forall decode: Decoder :: Verdict(decode, a) == Verdict(decode, b)) <==> SameResponses(a, b)
  {
    if !SameResponses(a, b) {
      var accepts: Decoder := data => Some(Envelope(200, Some("")));
      var refuses: Decoder := data => if a != [] && data == a[0] then None else accepts(data);
      assert Verdict(accepts, a) != Verdict(accepts, b) || Verdict(refuses, a) != Verdict(refuses, b);
    }
  }

  /**
    Over every decoder, the incremental reader returns what the buffered one returns for the same reads exactly
    when the responses in its blocks are the same as far as a turn looks at them.
   */
  lemma SameOutcomeIff(chunks: seq<string>, limit: nat)
    requires |Flat(chunks)| <= limit
    ensures (forall decode: Decoder ::
               LiveTurn(decode, chunks, Eof, limit).0 == BufferedTurn(decode, chunks, Eof, limit))
            <==> SameResponses(Responses(LiveBlocks(chunks)), Responses(WholeBlocks(Flat(chunks))))
  {
    hide LiveTurn, HandleAll, Conclude, Responses, Verdict, SameResponses, LiveBlocks, WholeBlocks;
    var live, whole := Responses(LiveBlocks(chunks)), Responses(WholeBlocks(Flat(chunks)));
    forall decode: Decoder
      ensures LiveTurn(decode, chunks, Eof, limit).0 == Verdict(decode, live)
      ensures BufferedTurn(decode, chunks, Eof, limit) == Verdict(decode, whole)
    {
      LiveVerdict(decode, chunks, limit);
      HandleAllVerdict(decode, WholeBlocks(Flat(chunks)));
    }
    SameVerdictsIff(live, whole);
  }

  predicate OneLine(s: string)
  {
    '\r' !in s && '\n' !in s
  }

  lemma NormalizeCrLf(a: string, b: string)
    ensures Normalize(a + ("\r\n" + b)) == Normalize(a) + ("\n" + Normalize(b))
    ensures Normalize(a + "\r") == Normalize(a) + "\r"
  {
    assert a + ("\r\n" + b) == a + "\r" + ("\n" + b);
    NormalizeMerge(a, b);
  }

  lemma LineIsCrLfFree(h: string)
    requires OneLine(h)
    ensures CrLfFree(h) && CrLfFree(h + "\n")
  {
    assert forall j :: 0 <= j < |h| ==> h[j] in h;
  }

  /** Normalizing once leaves "\r\n" of a "\r\r\n"; normalizing again takes the "\r" too. */
  lemma NormalizeTwice(h: string, t: string)
    requires CrLfFree(h) && CrLfFree(t)
    ensures Normalize((h + "\r") + ("\r\n" + t)) == h + ("\r\n" + t)
    ensures Normalize(h + ("\r\n" + t)) == h + ("\n" + t)
  {
    NormalizeShrinks(h);
    NormalizeShrinks(t);
    hide Normalize;
    NormalizeCrLf(h, t);
    NormalizeCrLf(h + "\r", t);
    assert (h + "\r") + ("\n" + t) == h + ("\r\n" + t);
  }

  /** Text with no blank line before its end, so that it stays one block when the separator follows. */
  predicate OneBlock(s: string)
  {
    && (s != "" ==> Last(s) != '\n')
    && forall j :: 0 <= j < |s| - 1 ==> s[j] != '\n' || s[j + 1] != '\n'
  }

  lemma SplitLastBlock(s: string)
    requires OneBlock(s)
    ensures Split(s, SEP) == [s]
  {
    IndexChars(s, SEP);
  }

  lemma SplitBlock(s: string, rest: string)
    requires OneBlock(s)
    ensures Split(s + SEP + rest, SEP) == [s] + Split(rest, SEP)
  {
    forall j | OccursAt(s + SEP, SEP, j) ensures j == |s| {
      OccursChars(s + SEP, SEP, j);
      assert (s + SEP)[j] == SEP[0] && (s + SEP)[j + 1] == SEP[1];
    }
    SplitAtFirst(s, SEP, rest);
  }

  /** Read whole, "<h>\n\r\r\n<t>" is one block. */
  lemma DisturbedWhole(h: string, t: string)
    requires OneLine(h) && OneLine(t) && t != ""
    ensures WholeBlocks((h + "\n" + "\r") + ("\r\n" + t)) == [h + "\n" + ("\r\n" + t)]
  {
    LineIsCrLfFree(h);
    LineIsCrLfFree(t);
    NormalizeTwice(h + "\n", t);
    StrayCrIsOneBlock(h, t);
    hide Normalize, Split, OneBlock, CrLfFree, OneLine;
    SplitLastBlock(h + "\n" + ("\r\n" + t));
  }

  lemma StrayCrIsOneBlock(h: string, t: string)
    requires OneLine(h) && OneLine(t) && t != ""
    ensures OneBlock(h + "\n" + ("\r\n" + t))
  {
    var s, n := h + "\n" + ("\r\n" + t), |h| + 3;
    forall j | 0 <= j < |s| ensures s[j] == '\n' ==> j == |h| || j == |h| + 2 {
      if j < |h| {
        assert s[j] == h[j] && h[j] in h;
      } else if j >= n {
        assert s[j] == t[j - n] && t[j - n] in t;
      }
    }
  }

  lemma DisturbedFirstRead(h: string)
    requires OneLine(h)
    ensures Feed(Arrived([], ""), h + "\n" + "\r" + ("\r\n" + "")) == Arrived([], h + "\n" + ("\r\n" + ""))
  {
    LineIsCrLfFree(h);
    NormalizeTwice(h + "\n", "");
    hide Normalize, Split;
    var bytes, held := h + "\n" + "\r" + ("\r\n" + ""), h + "\n" + ("\r\n" + "");
    assert "" + bytes == bytes;
    HeldIsOneBlock(h);
    hide OneLine, CrLfFree;
    assert held != "" && [held][..0] == [];
  }

  lemma HeldIsOneBlock(h: string)
    requires OneLine(h)
    ensures Split(h + "\n" + ("\r\n" + ""), SEP) == [h + "\n" + ("\r\n" + "")]
  {
    hide Split;
    var held := h + "\n" + ("\r\n" + "");
    forall j | 0 <= j < |held| - 1 ensures held[j] != '\n' || held[j + 1] != '\n' {
      if j < |h| {
        assert held[j] == h[j] && h[j] in h;
      }
    }
    SplitNoBlank(held);
  }

  lemma FeedSecondBlock(held: string, h: string, t: string)
    requires Normalize(held + t) == h + SEP + t && OneBlock(h) && OneBlock(t) && t != ""
    ensures Feed(Arrived([], held), t) == Arrived([h], t)
  {
    hide Normalize, Split;
    SplitBlock(h, t);
    SplitLastBlock(t);
    assert [h] + [t] == [h, t];
  }

  lemma DisturbedSecondRead(h: string, t: string)
    requires OneLine(h) && OneLine(t) && t != ""
    ensures Feed(Arrived([], h + "\n" + ("\r\n" + "")), t) == Arrived([h], t)
  {
    LineIsCrLfFree(h);
    LineIsCrLfFree(t);
    NormalizeTwice(h + "\n", t);
    hide Normalize, Split, Feed;
    var held := h + "\n" + ("\r\n" + "");
    assert held + t == h + "\n" + ("\r\n" + t);
    assert h + "\n" + ("\n" + t) == h + SEP + t;
    LineIsOneBlock(h);
    LineIsOneBlock(t);
    FeedSecondBlock(held, h, t);
  }

  lemma LineIsOneBlock(s: string)
    requires '\n' !in s
    ensures OneBlock(s)
  {
    assert forall j :: 0 <= j < |s| ==> s[j] in s;
  }

  lemma SplitNoBlank(s: string)
    requires forall j :: 0 <= j < |s| - 1 ==> s[j] != '\n' || s[j + 1] != '\n'
    ensures Split(s, SEP) == [s]
  {
    IndexChars(s, SEP);
  }

  /** The text of `h`, a stray "\r" line and `t`, as one block: `t` decides its event. */
  lemma LastLineNames(h: string, t: string)
    requires OneLine(h) && OneLine(t) && "event:" <= t
    ensures ReadBlock(h + "\n" + ("\r\n" + t)).event == TrimSpace(t[|"event:"|..])
  {
    hide Split;
    assert "\r\n" + t == "\r" + "\n" + t;
    SplitHead(h, '\n', "\r\n" + t);
    SplitHead("\r", '\n', t);
    SplitLast(t, '\n');
    assert Last([h] + (["\r"] + [t])) == t;
  }

  lemma LineNames(h: string)
    requires OneLine(h) && "event:" <= h
    ensures ReadBlock(h).event == TrimSpace(h[|"event:"|..])
  {
    SplitLast(h, '\n');
  }

  lemma OneResponse(h: string, t: string)
    ensures ReadBlock(h).event == "response" ==> Responses([h, t]) != []
    ensures ReadBlock(h).event != "response" ==> Responses([h]) == []
  {
    hide ReadBlock;
    assert [h, t][..1] == [h] && [h][..0] == [];
  }

  lemma DisturbedBlocks(h: string, t: string)
    requires OneLine(h) && OneLine(t) && t != ""
    ensures var chunks := [h + "\n" + "\r" + ("\r\n" + ""), t];
      && LiveBlocks(chunks) == [h, t]
      && |Flat(chunks)| == |h| + |t| + 4
      && WholeBlocks(Flat(chunks)) == [h + "\n" + ("\r\n" + t)]
  {
    var bytes := h + "\n" + "\r" + ("\r\n" + "");
    var chunks := [bytes, t];
    DisturbedWhole(h, t);
    DisturbedFirstRead(h);
    DisturbedSecondRead(h, t);
    hide Feed, WholeBlocks;
    assert chunks[..1] == [bytes] && [bytes][..0] == [];
    assert Flat([bytes]) == "" + bytes == bytes;
    assert Flat(chunks) == h + "\n" + "\r" + ("\r\n" + t);
    assert Arrive([bytes]) == Feed(Arrived([], ""), bytes);
    assert Arrive(chunks) == Arrived([h], t);
  }

  lemma VerdictsDiffer(decode: Decoder, chunks: seq<string>, limit: nat, h: string, t: string, w: string)
    requires LiveBlocks(chunks) == [h, t] && WholeBlocks(Flat(chunks)) == [w] && |Flat(chunks)| <= limit
    requires ReadBlock(h).event == "response" && ReadBlock(w).event != "response"
    ensures BufferedTurn(decode, chunks, Eof, limit) == Failed(NoTerminal)
    ensures LiveTurn(decode, chunks, Eof, limit).0 != Failed(NoTerminal)
  {
    LiveVerdict(decode, chunks, limit);
    HandleAllVerdict(decode, [w]);
    OneResponse(h, t);
    OneResponse(w, t);
    hide ReadBlock, LiveTurn, WholeBlocks, Flat, LiveBlocks, HandleAll, Responses;
  }

  /**
    A "\r\r\n" before the end can change what a turn returns, whatever the JSON decoder. Read whole, the
    body below is one block named by its second line; cut before that line, its first line is a response.
   */
  lemma DisturbedOutcomes(decode: Decoder, h: string, t: string, limit: nat)
    requires OneLine(h) && OneLine(t) && "event:" <= h && "event:" <= t
    requires TrimSpace(h[|"event:"|..]) == "response" && TrimSpace(t[|"event:"|..]) != "response"
    requires |h| + |t| + 4 <= limit
    ensures var chunks := [h + "\n" + "\r" + ("\r\n" + ""), t];
      && BufferedTurn(decode, chunks, Eof, limit) == Failed(NoTerminal)
      && LiveTurn(decode, chunks, Eof, limit).0 != Failed(NoTerminal)
  {
    hide Split, TrimSpace, ReadBlock, LiveTurn, WholeBlocks, Flat, LiveBlocks, HandleAll, BufferedTurn;
    DisturbedBlocks(h, t);
    LastLineNames(h, t);
    LineNames(h);
    VerdictsDiffer(decode, [h + "\n" + "\r" + ("\r\n" + ""), t], limit, h, t, h + "\n" + ("\r\n" + t));
  }

  /** Concretely: "event:response" CR CR LF "event:x" after a line break, cut before its last line. */
  lemma DisturbedExample(decode: Decoder)
    ensures var chunks := ["event:response" + "\n" + "\r" + ("\r\n" + ""), "event:x"];
      && BufferedTurn(decode, chunks, Eof, 64) == Failed(NoTerminal)
      && LiveTurn(decode, chunks, Eof, 64).0 != Failed(NoTerminal)
  {
    hide BufferedTurn, LiveTurn;
    var h, t := "event:response", "event:x";
    assert h[|"event:"|..] == "response" && t[|"event:"|..] == "x";
    VisibleEndsAreTrimmed("response");
    VisibleEndsAreTrimmed("x");
    TrimTrimmed("response");
    TrimTrimmed("x");
    hide TrimSpace;
    DisturbedOutcomes(decode, h, t, 64);
  }
}
