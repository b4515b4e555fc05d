/**
  How an event stream that arrives in pieces falls into blocks (packages/sdk-go/client.go).

  The buffered reader normalizes the whole body and splits it once. The incremental readers keep the
  undelivered text, append each read, normalize what they then hold and take off the blocks that are
  complete. This module says exactly when the two see the same blocks.
 */
module Arrival {
  import opened GoText

  /** Blocks end at a blank line. */
  const SEP: string := "\n\n"

  /** The readers' buffer: no read returns more bytes than this. */
  const READ_BUFFER: nat := 32 * 1024

  /** Every block of a body read whole. */
  function WholeBlocks(body: string): seq<string>
  {
    Split(Normalize(body), SEP)
  }

  /** Blocks already taken off, and the text still held. */
  datatype Arrived = Arrived(done: seq<string>, pending: string)

  /** One read: empty chunks change nothing. */
  function Feed(a: Arrived, bytes: string): Arrived
  {
    if bytes == "" then a
    else
      var parts := Split(Normalize(a.pending + bytes), SEP);
      Arrived(a.done + parts[..|parts| - 1], Last(parts))
  }

  /** What an incremental reader holds after `chunks`. */
  function Arrive(chunks: seq<string>): Arrived
  {
    if chunks == [] then Arrived([], "")
    else Feed(Arrive(chunks[..|chunks| - 1]), Last(chunks))
  }

  /** The blocks an incremental reader has handled once the stream has ended. */
  function LiveBlocks(chunks: seq<string>): seq<string>
  {
    Arrive(chunks).done + [Arrive(chunks).pending]
  }

  function Flat(chunks: seq<string>): string
  {
    if chunks == [] then "" else Flat(chunks[..|chunks| - 1]) + Last(chunks)
  }

  predicate CrLfAt(s: string, j: int)
  {
    0 <= j && j + 1 < |s| && s[j] == '\r' && s[j + 1] == '\n'
  }

  predicate CrCrLfAt(s: string, j: int)
  {
    0 <= j && j + 2 < |s| && s[j] == '\r' && s[j + 1] == '\r' && s[j + 2] == '\n'
  }

  ghost predicate CrLfFree(s: string)
  {
    forall j :: !CrLfAt(s, j)
  }

  /** No "\r\r\n" ends before the last byte of `body`. */
  ghost predicate NoInnerCrCrLf(body: string)
  {
    forall j :: CrCrLfAt(body, j) ==> j + 3 == |body|
  }

  /** No read found a "\r\n" in the text the reader was still holding. */
  ghost predicate Undisturbed(chunks: seq<string>)
  {
    forall k :: 0 <= k < |chunks| && chunks[k] != "" ==> CrLfFree(Arrive(chunks[..k]).pending)
  }

  // ---------------------------------------------------------------- normalization

  predicate EndsCr(s: string)
  {
    s != "" && Last(s) == '\r'
  }

  predicate StartsLf(s: string)
  {
    s != "" && s[0] == '\n'
  }

  /** Normalization by its first step. */
  lemma NormalizeStep(s: string)
    requires s != ""
    ensures Normalize(s) == if CrLfAt(s, 0) then "\n" + Normalize(s[2..]) else [s[0]] + Normalize(s[1..])
  {
    assert "\r\n" <= s <==> CrLfAt(s, 0);
  }

  lemma NormalizeNothing()
    ensures Normalize("") == ""
  {
  }

  lemma {:induction false} NormalizeAppend(a: string, b: string)
    requires !(EndsCr(a) && StartsLf(b))
    ensures Normalize(a + b) == Normalize(a) + Normalize(b)
  {
    hide Normalize;
    if a == "" {
      NormalizeNothing();
      assert a + b == b;
    } else {
      var n := if CrLfAt(a, 0) then 2 else 1;
      NormalizeStep(a);
      NormalizeStep(a + b);
      assert (a + b)[n..] == a[n..] + b;
      NormalizeAppend(a[n..], b);
    }
  }

  lemma NormalizeMerge(a: string, b: string)
    ensures Normalize(a + "\r" + ("\n" + b)) == Normalize(a) + "\n" + Normalize(b)
    ensures Normalize(a + "\r") == Normalize(a) + "\r"
  {
    assert a + "\r" + ("\n" + b) == a + ("\r\n" + b);
    NormalizeAppend(a, "\r\n" + b);
    assert ("\r\n" + b)[2..] == b;
    NormalizeAppend(a, "\r");
  }

  lemma {:induction false} NormalizeShrinks(s: string)
    ensures Normalize(s) == s <==> CrLfFree(s)
    ensures |Normalize(s)| < |s| <==> !CrLfFree(s)
  {
    hide Normalize;
    if s == "" {
      NormalizeNothing();
    } else {
      NormalizeStep(s);
      if !CrLfAt(s, 0) {
        NormalizeShrinks(s[1..]);
        assert s == [s[0]] + s[1..];
        assert forall j :: CrLfAt(s[1..], j) ==> CrLfAt(s, j + 1);
        assert forall j :: CrLfAt(s, j) ==> CrLfAt(s[1..], j - 1);
      }
    }
  }

  /** Normalizing never empties a text or changes its last byte. */
  lemma {:induction false} NormalizeLast(s: string)
    requires s != ""
    ensures Normalize(s) != "" && Last(Normalize(s)) == Last(s)
  {
    hide Normalize;
    var n := if CrLfAt(s, 0) then 2 else 1;
    NormalizeStep(s);
    NormalizeNothing();
    if s[n..] != "" {
      NormalizeLast(s[n..]);
      assert Last(s[n..]) == Last(s);
    }
  }

  /** A "\r\n" is left over only where the text had "\r\r\n". */
  lemma {:induction false} NormalizeClean(s: string)
    requires forall j :: !CrCrLfAt(s, j)
    ensures CrLfFree(Normalize(s))
  {
    hide Normalize;
    if s == "" {
      NormalizeNothing();
    } else {
      var n := if CrLfAt(s, 0) then 2 else 1;
      var rest := s[n..];
      NormalizeStep(s);
      assert forall j :: CrCrLfAt(rest, j) ==> CrCrLfAt(s, j + n);
      NormalizeClean(rest);
      assert forall j :: j != 0 && CrLfAt(Normalize(s), j) ==> CrLfAt(Normalize(rest), j - 1);
      NormalizeNothing();
      if rest != "" {
        NormalizeStep(rest);
        assert !CrCrLfAt(s, 0);
      }
    }
  }

  // ---------------------------------------------------------------- splitting

  /** The bytes a list of blocks covers, each with the separator after it. */
  function Size(blocks: seq<string>): nat
  {
    if blocks == [] then 0 else |blocks[0]| + |SEP| + Size(blocks[1..])
  }

  lemma {:induction false} SizeAppend(x: seq<string>, y: seq<string>)
    ensures Size(x + y) == Size(x) + Size(y)
  {
    if x == [] {
      assert x + y == y;
    } else {
      assert (x + y)[1..] == x[1..] + y;
      SizeAppend(x[1..], y);
    }
  }

  lemma {:induction false} SizeSplit(s: string)
    ensures Size(Split(s, SEP)) == |s| + |SEP|
    decreases |s|
  {
    var i := Index(s, SEP);
    if i >= 0 {
      SizeSplit(s[i + |SEP|..]);
      assert Split(s, SEP)[1..] == Split(s[i + |SEP|..], SEP);
    }
  }

  lemma SplitRest(s: string, done: seq<string>, pending: string)
    requires Split(s, SEP) == done + [pending]
    requires Index(s, SEP) >= 0
    ensures var i := Index(s, SEP);
      && done != [] && done[0] == s[..i]
      && Split(s[i + |SEP|..], SEP) == done[1..] + [pending]
      && s == s[..i] + SEP + s[i + |SEP|..]
  {
    var i := Index(s, SEP);
    var parts := Split(s[i + |SEP|..], SEP);
    assert done + [pending] == [s[..i]] + parts;
    assert |done| == |parts| > 0;
    assert done[0] == (done + [pending])[0] == s[..i];
    assert parts == (done + [pending])[1..] == done[1..] + [pending];
  }

  lemma SplitNone(s: string, done: seq<string>, pending: string)
    requires Split(s, SEP) == done + [pending]
    requires Index(s, SEP) < 0
    ensures done == [] && pending == s
  {
    assert |done + [pending]| == 1 && pending == (done + [pending])[|done|];
  }

  /** The last block is the end of the text, after what the other blocks cover. */
  lemma {:induction false} LastIsSuffix(s: string, done: seq<string>, pending: string)
    requires Split(s, SEP) == done + [pending]
    ensures Size(done) + |pending| == |s| && s[Size(done)..] == pending
    ensures done != [] ==> 0 < Size(done) <= |s| && s[Size(done) - 1] == '\n'
    decreases |s|
  {
    hide Split, Index;
    var i := Index(s, SEP);
    if i >= 0 {
      var rest := s[i + |SEP|..];
      SplitRest(s, done, pending);
      LastIsSuffix(rest, done[1..], pending);
      assert s[i..i + |SEP|] == SEP && s[i + 1] == '\n';
    } else {
      SplitNone(s, done, pending);
    }
  }

  /** Replacing the last block's text leaves the blocks before it alone. */
  lemma {:induction false} SplitPrefix(s: string, done: seq<string>, pending: string, z: string)
    requires Split(s, SEP) == done + [pending]
    requires Size(done) <= |s|
    ensures Split(s[..Size(done)] + z, SEP) == done + Split(z, SEP)
    decreases |s|
  {
    hide Split, Index;
    var i := Index(s, SEP);
    if i < 0 {
      SplitNone(s, done, pending);
      assert s[..0] + z == z;
    } else {
      var rest := s[i + |SEP|..];
      SplitRest(s, done, pending);
      var n := Size(done[1..]);
      SplitPrefix(rest, done[1..], pending, z);
      var tail := rest[..n] + z;
      assert s[..Size(done)] + z == s[..i] + SEP + tail;
      FirstSeparator(s, i);
      SplitAtFirst(s[..i], SEP, tail);
      assert done == [s[..i]] + done[1..];
    }
  }

  lemma FirstSeparator(s: string, i: int)
    requires i == Index(s, SEP) >= 0
    ensures forall j :: OccursAt(s[..i] + SEP, SEP, j) ==> j == i
  {
    IndexLeast(s, SEP);
    assert s[..i] + SEP == s[..i + |SEP|];
    forall j | OccursAt(s[..i] + SEP, SEP, j) ensures j == i {
      assert s[j..j + |SEP|] == (s[..i] + SEP)[j..j + |SEP|];
      assert OccursAt(s, SEP, j);
    }
  }

  // ---------------------------------------------------------------- one read

  /** Appending a read to undisturbed pending text normalizes just as appending it to everything. */
  lemma NormalizeHeld(raw: string, front: string, pending: string, bytes: string)
    requires Normalize(raw) == front + pending
    requires CrLfFree(pending) && EndsCr(pending) == EndsCr(raw)
    ensures Normalize(raw + bytes) == front + Normalize(pending + bytes)
  {
    hide Normalize;
    if EndsCr(raw) && StartsLf(bytes) {
      assert raw == raw[..|raw| - 1] + "\r" && pending == pending[..|pending| - 1] + "\r";
      assert bytes == "\n" + bytes[1..];
      assert front + pending == front + (pending[..|pending| - 1] + "\r");
      NormalizeHeldMerge(raw[..|raw| - 1], front, pending[..|pending| - 1], bytes[1..]);
    } else {
      NormalizeAppend(raw, bytes);
      NormalizeAppend(pending, bytes);
      NormalizeShrinks(pending);
    }
  }

  lemma NormalizeHeldMerge(x: string, front: string, p: string, y: string)
    requires Normalize(x + "\r") == front + (p + "\r")
    requires CrLfFree(p + "\r")
    ensures Normalize(x + "\r" + ("\n" + y)) == front + Normalize(p + "\r" + ("\n" + y))
  {
    hide Normalize;
    NormalizeMerge(x, y);
    NormalizeMerge(p, y);
    CrLfFreePart(p, "\r");
    NormalizeShrinks(p);
    assert Normalize(x) + "\r" == (front + p) + "\r";
    assert Normalize(x) == (Normalize(x) + "\r")[..|Normalize(x)|] == front + p;
  }

  lemma CrLfFreePart(a: string, b: string)
    requires CrLfFree(a + b)
    ensures CrLfFree(a) && CrLfFree(b)
  {
    assert forall j :: CrLfAt(a, j) ==> CrLfAt(a + b, j);
    assert forall j :: CrLfAt(b, j) ==> CrLfAt(a + b, |a| + j);
  }

  lemma NormalizeLength(a: string, b: string)
    ensures |Normalize(a + b)| ==
            |Normalize(a)| + |Normalize(b)| - (if EndsCr(a) && StartsLf(b) then 1 else 0)
  {
    hide Normalize;
    if EndsCr(a) && StartsLf(b) {
      var x, y := a[..|a| - 1], b[1..];
      assert a == x + "\r" && b == "\n" + y;
      NormalizeMerge(x, y);
      NormalizeStep(b);
    } else {
      NormalizeAppend(a, b);
    }
  }

  /** What one non-empty read does to what the reader holds. */
  lemma FeedParts(a: Arrived, bytes: string)
    requires bytes != ""
    ensures var text, next := Normalize(a.pending + bytes), Feed(a, bytes);
      && next.done + [next.pending] == a.done + Split(text, SEP)
      && Size(next.done + [next.pending]) == Size(a.done) + |text| + |SEP|
      && EndsCr(next.pending) == EndsCr(bytes)
  {
    var text := Normalize(a.pending + bytes);
    var parts := Split(text, SEP);
    var front := parts[..|parts| - 1];
    assert parts == front + [Last(parts)];
    hide Split;
    assert a.done + front + [Last(parts)] == a.done + parts;
    SizeAppend(a.done, parts);
    SizeSplit(text);
    LastIsSuffix(text, front, Last(parts));
    assert Last(a.pending + bytes) == Last(bytes);
    NormalizeLast(a.pending + bytes);
  }

  // ---------------------------------------------------------------- whole runs

  /** How many bytes shorter the incrementally read text is than the text read whole. */
  ghost function Slack(chunks: seq<string>): int
  {
    |Normalize(Flat(chunks))| + |SEP| - Size(LiveBlocks(chunks))
  }

  lemma {:induction false} EndsAlike(chunks: seq<string>)
    ensures EndsCr(Arrive(chunks).pending) == EndsCr(Flat(chunks))
  {
    if chunks != [] {
      var before, bytes := chunks[..|chunks| - 1], Last(chunks);
      if bytes == "" {
        EndsAlike(before);
      } else {
        FeedParts(Arrive(before), bytes);
      }
    }
  }

  /** A non-empty read loses exactly the "\r\n" pairs in the text held before it. */
  lemma SlackStep(before: seq<string>, bytes: string)
    requires bytes != ""
    ensures var pending := Arrive(before).pending;
      Slack(before + [bytes]) == Slack(before) + |pending| - |Normalize(pending)|
  {
    var chunks := before + [bytes];
    assert chunks[..|chunks| - 1] == before && Last(chunks) == bytes;
    var a := Arrive(before);
    FeedParts(a, bytes);
    EndsAlike(before);
    NormalizeLength(Flat(before), bytes);
    NormalizeLength(a.pending, bytes);
    SizeAppend(a.done, [a.pending]);
    assert Size([a.pending]) == |a.pending| + |SEP|;
  }

  lemma UndisturbedStep(before: seq<string>, bytes: string)
    ensures Undisturbed(before + [bytes]) <==>
            Undisturbed(before) && (bytes == "" || CrLfFree(Arrive(before).pending))
  {
    var chunks := before + [bytes];
    assert chunks[..|before|] == before;
    assert forall k :: 0 <= k < |before| ==> chunks[..k] == before[..k] && chunks[k] == before[k];
  }

  lemma {:induction false} SlackZeroIffUndisturbed(chunks: seq<string>)
    ensures Slack(chunks) >= 0
    ensures Slack(chunks) == 0 <==> Undisturbed(chunks)
  {
    if chunks == [] {
      assert LiveBlocks(chunks) == [""];
    } else {
      var before, bytes := chunks[..|chunks| - 1], Last(chunks);
      assert chunks == before + [bytes];
      SlackZeroIffUndisturbed(before);
      UndisturbedStep(before, bytes);
      if bytes != "" {
        SlackStep(before, bytes);
        NormalizeShrinks(Arrive(before).pending);
      } else {
        assert Flat(chunks) == Flat(before);
        assert LiveBlocks(chunks) == LiveBlocks(before);
      }
    }
  }

  lemma {:induction false} UndisturbedAgrees(chunks: seq<string>)
    requires Undisturbed(chunks)
    ensures LiveBlocks(chunks) == WholeBlocks(Flat(chunks))
  {
    if chunks != [] {
      var before, bytes := chunks[..|chunks| - 1], Last(chunks);
      assert chunks == before + [bytes];
      UndisturbedStep(before, bytes);
      UndisturbedAgrees(before);
      if bytes == "" {
        assert Flat(chunks) == Flat(before);
      } else {
        AgreementStep(Arrive(before), Flat(before), bytes) by { EndsAlike(before); }
      }
    }
  }

  lemma AgreementStep(a: Arrived, raw: string, bytes: string)
    requires a.done + [a.pending] == WholeBlocks(raw)
    requires CrLfFree(a.pending) && EndsCr(a.pending) == EndsCr(raw) && bytes != ""
    ensures Feed(a, bytes).done + [Feed(a, bytes).pending] == WholeBlocks(raw + bytes)
  {
    hide Split, Normalize;
    var text, n := Normalize(raw), Size(a.done);
    LastIsSuffix(text, a.done, a.pending);
    assert text == text[..n] + a.pending;
    NormalizeHeld(raw, text[..n], a.pending, bytes);
    SplitPrefix(text, a.done, a.pending, Normalize(a.pending + bytes));
    FeedParts(a, bytes);
  }

  /**
    An incremental reader sees the blocks of the body read whole exactly when no read found a "\r\n" in
    the text still held.
   */
  lemma AgreesIffUndisturbed(chunks: seq<string>)
    ensures LiveBlocks(chunks) == WholeBlocks(Flat(chunks)) <==> Undisturbed(chunks)
  {
    SlackZeroIffUndisturbed(chunks);
    SizeSplit(Normalize(Flat(chunks)));
    if Undisturbed(chunks) {
      UndisturbedAgrees(chunks);
    }
  }

  // ---------------------------------------------------------------- every chunking

  lemma {:induction false} FlatPrefix(chunks: seq<string>, k: nat)
    requires k <= |chunks|
    ensures |Flat(chunks[..k])| <= |Flat(chunks)|
    ensures Flat(chunks[..k]) == Flat(chunks)[..|Flat(chunks[..k])|]
    ensures k < |chunks| && chunks[k] != "" ==> |Flat(chunks[..k])| < |Flat(chunks)|
  {
    if k == |chunks| {
      assert chunks[..k] == chunks;
    } else {
      var before := chunks[..|chunks| - 1];
      FlatPrefix(before, k);
      assert before[..k] == chunks[..k];
    }
  }

  /** A body with no "\r\r\n" before its end is never disturbed, however it is cut into reads. */
  lemma {:induction false} CleanIsUndisturbed(chunks: seq<string>)
    requires NoInnerCrCrLf(Flat(chunks))
    ensures Undisturbed(chunks)
  {
    if chunks != [] {
      var before, bytes := chunks[..|chunks| - 1], Last(chunks);
      assert chunks == before + [bytes];
      FlatPrefix(chunks, |before|);
      assert forall j :: CrCrLfAt(Flat(before), j) ==> CrCrLfAt(Flat(chunks), j);
      CleanIsUndisturbed(before);
      UndisturbedStep(before, bytes);
      if bytes != "" {
        assert forall j :: !CrCrLfAt(Flat(before), j);
        PendingClean(before);
      }
    }
  }

  lemma PendingClean(chunks: seq<string>)
    requires Undisturbed(chunks)
    requires forall j :: !CrCrLfAt(Flat(chunks), j)
    ensures CrLfFree(Arrive(chunks).pending)
  {
    UndisturbedAgrees(chunks);
    hide Normalize, Split, Arrive, Flat;
    var text, a := Normalize(Flat(chunks)), Arrive(chunks);
    NormalizeClean(Flat(chunks));
    LastIsSuffix(text, a.done, a.pending);
    assert text == text[..Size(a.done)] + a.pending;
    CrLfFreePart(text[..Size(a.done)], a.pending);
  }

  /** The body delivered one byte at a time. */
  function Singles(s: string): (chunks: seq<string>)
    ensures |chunks| == |s|
    ensures forall c :: c in chunks ==> |c| == 1
  {
    seq(|s|, i requires 0 <= i < |s| => [s[i]])
  }

  lemma SinglesPrefix(s: string, k: nat)
    requires k <= |s|
    ensures Singles(s)[..k] == Singles(s[..k])
  {
  }

  lemma {:induction false} SinglesFlat(s: string)
    ensures Flat(Singles(s)) == s
  {
    if s != "" {
      var n := |s| - 1;
      SinglesFlat(s[..n]);
      SinglesPrefix(s, n);
      assert s == s[..n] + [s[n]];
    }
  }

  predicate EndsCrLf(s: string)
  {
    CrLfAt(s, |s| - 2)
  }

  lemma {:induction false} LastEndsCrLf(s: string, done: seq<string>, pending: string)
    requires Split(s, SEP) == done + [pending]
    requires EndsCrLf(s)
    ensures EndsCrLf(pending)
    decreases |s|
  {
    hide Split, Index;
    var i := Index(s, SEP);
    if i < 0 {
      SplitNone(s, done, pending);
    } else {
      SplitRest(s, done, pending);
      var rest := s[i + |SEP|..];
      assert s[i..i + |SEP|] == SEP && s[i] == '\n' && s[i + 1] == '\n';
      LastEndsCrLf(rest, done[1..], pending);
    }
  }

  lemma CrCrLfStays(s: string)
    requires |s| >= 3 && CrCrLfAt(s, |s| - 3)
    ensures EndsCrLf(Normalize(s))
  {
    var x := s[..|s| - 3];
    assert s == x + "\r" + "\r" + ("\n" + "");
    NormalizeMerge(x + "\r", "");
    NormalizeMerge(x, "");
  }

  /** Read byte by byte, a body with an inner "\r\r\n" is disturbed. */
  lemma InnerDisturbs(body: string, j: nat)
    requires CrCrLfAt(body, j) && j + 3 < |body|
    ensures !Undisturbed(Singles(body))
  {
    hide Normalize, Split, Flat, Arrive;
    var k, chunks := j + 3, Singles(body);
    SinglesFlat(body);
    SinglesPrefix(body, k);
    var before, prefix := chunks[..k], body[..k];
    if Undisturbed(before) {
      UndisturbedAgrees(before);
      SinglesFlat(prefix);
      CrCrLfStays(prefix);
      var a := Arrive(before);
      LastEndsCrLf(Normalize(prefix), a.done, a.pending);
      assert chunks[k] != "" && !CrLfFree(a.pending);
    } else {
      assert forall i :: 0 <= i < k ==> before[..i] == chunks[..i] && before[i] == chunks[i];
    }
  }

  /** Some way of cutting `body` into reads the buffer can hold. */
  ghost predicate Chunking(chunks: seq<string>, body: string)
  {
    Flat(chunks) == body && forall c :: c in chunks ==> |c| <= READ_BUFFER
  }

  /**
    Incremental and whole reading agree on the blocks of `body` under every chunking exactly when `body`
    has no "\r\r\n" before its end.
   */
  lemma ChunkingInvariant(body: string)
    ensures (forall chunks :: Chunking(chunks, body) ==> LiveBlocks(chunks) == WholeBlocks(body))
            <==> NoInnerCrCrLf(body)
  {
    if NoInnerCrCrLf(body) {
      forall chunks | Chunking(chunks, body) ensures LiveBlocks(chunks) == WholeBlocks(body) {
        CleanIsUndisturbed(chunks);
        AgreesIffUndisturbed(chunks);
      }
    } else {
      var j :| CrCrLfAt(body, j) && j + 3 != |body|;
      InnerDisturbs(body, j);
      SinglesFlat(body);
      AgreesIffUndisturbed(Singles(body));
      assert Chunking(Singles(body), body);
    }
  }
}
