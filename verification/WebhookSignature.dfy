/**
  Webhook signatures (packages/sdk-go/webhook_signature.go). HMAC-SHA256 is a parameter: any function from a
  secret and a message to bytes. Instants are nanoseconds since the Unix epoch.
 */
module WebhookSignature {
  import opened Wrappers
  import opened GoText
  import opened GoNumbers
  import Calendar

  type Hmac = (string, string) -> string

  /** Seconds from year 1, where Go's clock starts, to the Unix epoch. */
  const UNIX_TO_INTERNAL: int := 62_135_596_800

  const DEFAULT_TOLERANCE: int := 300 * SECOND

  // ---------------------------------------------------------------- the header

  datatype Parsed = Parsed(timestamp: int, signatures: seq<string>)

  /** A part's key and value, trimmed; `None` without an equals sign. */
  function KeyValue(part: string): Option<(string, string)>
  {
    var eq := Index(part, "=");
    if eq < 0 then None else Some((TrimSpace(part[..eq]), TrimSpace(part[eq + 1..])))
  }

  /** The last timestamp among the parts that parses. */
  function Timestamp(parts: seq<string>): Option<int>
  {
    if parts == [] then None
    else
      var kv := KeyValue(Last(parts));
      if kv.Some? && kv.value.0 == "t" && ParseInt(kv.value.1).Some? then ParseInt(kv.value.1)
      else Timestamp(parts[..|parts| - 1])
  }

  /** The non-empty v1 values, in order. */
  function Signatures(parts: seq<string>): seq<string>
  {
    if parts == [] then []
    else
      var kv := KeyValue(Last(parts));
      Signatures(parts[..|parts| - 1]) +
      if kv.Some? && kv.value.0 == "v1" && kv.value.1 != "" then [kv.value.1] else []
  }

  function ParsedHeader(header: string): Option<Parsed>
  {
    var parts := Split(header, ",");
    if Timestamp(parts).None? || Signatures(parts) == [] then None
    else Some(Parsed(Timestamp(parts).value, Signatures(parts)))
  }

  method ParseSignatureHeader(header: string) returns (r: Option<Parsed>)
    ensures r == ParsedHeader(header)
  {
    hide Split, ParseInt, TrimSpace;
    var ts, tsSet, sigs := 0, false, [];
    var parts := Split(header, ",");
    for i := 0 to |parts|
      invariant Timestamp(parts[..i]) == if tsSet then Some(ts) else None
      invariant sigs == Signatures(parts[..i])
    {
      var part := parts[i];
      assert parts[..i + 1][..i] == parts[..i] && Last(parts[..i + 1]) == part;
      var eq := Index(part, "=");
      if eq < 0 {
        continue;
      }
      var key, val := TrimSpace(part[..eq]), TrimSpace(part[eq + 1..]);
      if key == "t" {
        var n := ParseInt(val);
        if n.Some? {
          ts, tsSet := n.value, true;
        }
      } else if key == "v1" {
        if val != "" {
          sigs := sigs + [val];
        }
      }
    }
    assert parts[..|parts|] == parts;
    r := if !tsSet || sigs == [] then None else Some(Parsed(ts, sigs));
  }

  /** A header as the server renders it. */
  function HeaderParts(t: int, signatures: seq<string>): seq<string>
  {
    if signatures == [] then ["t=" + FormatInt(t)]
    else HeaderParts(t, signatures[..|signatures| - 1]) + ["v1=" + Last(signatures)]
  }

  function Header(t: int, signatures: seq<string>): string
  {
    Join(HeaderParts(t, signatures), ",")
  }

  predicate Renderable(signature: string)
  {
    signature != "" && Trimmed(signature) && ',' !in signature
  }

  lemma KeyValueOf(key: string, value: string)
    requires '=' !in key && Trimmed(key) && Trimmed(value)
    ensures KeyValue(key + "=" + value) == Some((key, value))
  {
    var part := key + "=" + value;
    IndexLeast(part, "=");
    assert part[|key|..|key| + 1] == "=" && OccursAt(part, "=", |key|);
    IndexChars(part, "=");
    var eq := Index(part, "=");
    hide Index;
    assert forall j :: 0 <= j < |key| ==> part[j] == key[j];
    assert eq == |key|;
    assert part[..eq] == key && part[eq + 1..] == value;
    TrimTrimmed(key);
    TrimTrimmed(value);
  }

  lemma TimestampPart(t: int)
    requires Int64(t)
    ensures KeyValue("t=" + FormatInt(t)) == Some(("t", FormatInt(t)))
    ensures ParseInt(FormatInt(t)) == Some(t) && ',' !in "t=" + FormatInt(t)
  {
    ParseFormatted(t);
    hide ParseInt, FormatInt;
    assert "t=" + FormatInt(t) == "t" + "=" + FormatInt(t);
    KeyValueOf("t", FormatInt(t));
  }

  lemma SignaturePart(signature: string)
    requires Renderable(signature)
    ensures KeyValue("v1=" + signature) == Some(("v1", signature)) && ',' !in "v1=" + signature
  {
    assert "v1=" + signature == "v1" + "=" + signature;
    KeyValueOf("v1", signature);
  }

  /** How one more part adds to what the parts before it gave. */
  lemma OneMorePart(parts: seq<string>, part: string, key: string, value: string)
    requires KeyValue(part) == Some((key, value))
    ensures Timestamp(parts + [part]) ==
            if key == "t" && ParseInt(value).Some? then ParseInt(value) else Timestamp(parts)
    ensures Signatures(parts + [part]) == Signatures(parts) + if key == "v1" && value != "" then [value] else []
  {
    hide KeyValue, ParseInt;
    assert (parts + [part])[..|parts + [part]| - 1] == parts && Last(parts + [part]) == part;
  }

  lemma {:induction false} ReadHeaderParts(t: int, signatures: seq<string>)
    requires Int64(t) && forall i :: 0 <= i < |signatures| ==> Renderable(signatures[i])
    ensures var parts := HeaderParts(t, signatures);
      && parts != []
      && (forall i :: 0 <= i < |parts| ==> ',' !in parts[i])
      && Timestamp(parts) == Some(t)
      && Signatures(parts) == signatures
  {
    hide KeyValue, ParseInt, FormatInt, Timestamp, Signatures;
    if signatures == [] {
      TimestampPart(t);
      OneMorePart([], "t=" + FormatInt(t), "t", FormatInt(t));
      NoParts();
      assert [] + ["t=" + FormatInt(t)] == ["t=" + FormatInt(t)];
    } else {
      var front, last := signatures[..|signatures| - 1], Last(signatures);
      ReadHeaderParts(t, front);
      SignaturePart(last);
      OneMorePart(HeaderParts(t, front), "v1=" + last, "v1", last);
      assert signatures == front + [last];
    }
  }

  lemma NoParts()
    ensures Timestamp([]) == None && Signatures([]) == []
  {
  }

  /** A rendered header parses back to exactly the timestamp and signatures it was rendered from. */
  lemma HeaderRoundTrip(t: int, signatures: seq<string>)
    requires Int64(t) && signatures != []
    requires forall i :: 0 <= i < |signatures| ==> Renderable(signatures[i])
    ensures ParsedHeader(Header(t, signatures)) == Some(Parsed(t, signatures))
    ensures Header(t, signatures) != ""
  {
    ReadHeaderParts(t, signatures);
    SplitJoin(HeaderParts(t, signatures), ',');
    hide HeaderParts, Timestamp, Signatures;
    EmptyHeader();
  }

  lemma EmptyHeader()
    ensures ParsedHeader("") == None
  {
    SplitLast("", ',');
    var none: seq<string> := [];
    assert [""][..0] == none;
  }

  // ---------------------------------------------------------------- any header

  /** A part of a header: a key and a value with white space around them, or text without an equals sign. */
  datatype Part =
    | Field(k0: seq<string>, key: string, k1: seq<string>, v0: seq<string>, value: string, v1: seq<string>)
    | Bare(text: string)

  function PartText(part: Part): string
  {
    match part
    case Field(k0, key, k1, v0, value, v1) =>
      (Concat(k0) + key + Concat(k1)) + "=" + (Concat(v0) + value + Concat(v1))
    case Bare(text) => text
  }

  predicate ReadablePart(part: Part)
  {
    && ',' !in PartText(part)
    && match part {
         case Field(k0, key, k1, v0, value, v1) =>
           && AllSpaces(k0) && AllSpaces(k1) && AllSpaces(v0) && AllSpaces(v1)
           && Trimmed(key) && Trimmed(value) && '=' !in Concat(k0) + key + Concat(k1)
         case Bare(text) => '=' !in text
       }
  }

  lemma AtEquals(text: string)
    ensures var eq := Index(text, "=");
      if eq < 0 then '=' !in text
      else '=' !in text[..eq] && text == text[..eq] + "=" + text[eq + 1..]
  {
    IndexLeast(text, "=");
    var eq := Index(text, "=");
    hide Index;
    forall j | 0 <= j < (if eq < 0 then |text| else eq) ensures text[j] != '=' {
      assert text[j] == '=' ==> OccursAt(text, "=", j);
    }
  }

  lemma FirstEquals(left: string, right: string)
    requires '=' !in left
    ensures var text := left + "=" + right;
      var eq := Index(text, "=");
      eq == |left| && text[..eq] == left && text[eq + 1..] == right
  {
    var text := left + "=" + right;
    AtEquals(text);
    IndexChars(text, "=");
    IndexLeast(text, "=");
    var eq := Index(text, "=");
    hide Index;
    assert text[|left|] == '=' && text[|left|..|left| + 1] == "=" && OccursAt(text, "=", |left|);
    assert forall j :: 0 <= j < |left| ==> text[j] == left[j] && left[j] in left;
  }

  /** Every part can be written so. */
  lemma EveryPartIsWritten(text: string) returns (part: Part)
    requires ',' !in text
    ensures ReadablePart(part) && PartText(part) == text
  {
    hide TrimSpace, Trimmed, AllSpaces, Index, Concat;
    AtEquals(text);
    var eq := Index(text, "=");
    if eq < 0 {
      part := Bare(text);
    } else {
      var k0, k1 := TrimSpaceIs(text[..eq]);
      var v0, v1 := TrimSpaceIs(text[eq + 1..]);
      part := Field(k0, TrimSpace(text[..eq]), k1, v0, TrimSpace(text[eq + 1..]), v1);
    }
  }

  /** The last timestamp given, or `before`. */
  function TimeIn(parts: seq<Part>, before: Option<int>): Option<int>
  {
    if parts == [] then before
    else
      var first := parts[0];
      TimeIn(parts[1..], if first.Field? && first.key == "t" && ParseInt(first.value).Some? then ParseInt(first.value)
                         else before)
  }

  function SignaturesIn(parts: seq<Part>): seq<string>
  {
    if parts == [] then []
    else
      (if parts[0].Field? && parts[0].key == "v1" && parts[0].value != "" then [parts[0].value] else [])
      + SignaturesIn(parts[1..])
  }

  function PartTexts(parts: seq<Part>): (texts: seq<string>)
    ensures |texts| == |parts|
    ensures forall i :: 0 <= i < |parts| ==> texts[i] == PartText(parts[i])
  {
    seq(|parts|, i requires 0 <= i < |parts| => PartText(parts[i]))
  }

  lemma ReadPart(part: Part)
    requires ReadablePart(part)
    ensures KeyValue(PartText(part)) == if part.Field? then Some((part.key, part.value)) else None
  {
    hide TrimSpace, Trimmed, AllSpaces, Index, Concat;
    match part
    case Bare(text) =>
      AtEquals(text);
    case Field(k0, key, k1, v0, value, v1) =>
      TrimSurrounded(k0, key, k1);
      TrimSurrounded(v0, value, v1);
      FirstEquals(Concat(k0) + key + Concat(k1), Concat(v0) + value + Concat(v1));
  }

  lemma {:induction false} LastPartIn(front: seq<Part>, part: Part, before: Option<int>)
    ensures TimeIn(front + [part], before) ==
            if part.Field? && part.key == "t" && ParseInt(part.value).Some? then ParseInt(part.value)
            else TimeIn(front, before)
    ensures SignaturesIn(front + [part]) ==
            SignaturesIn(front) + if part.Field? && part.key == "v1" && part.value != "" then [part.value] else []
  {
    hide ParseInt;
    if front == [] {
      assert front + [part] == [part] && [part][1..] == [];
    } else {
      var first := front[0];
      LastPartIn(front[1..], part,
                 if first.Field? && first.key == "t" && ParseInt(first.value).Some? then ParseInt(first.value) else before);
      assert (front + [part])[1..] == front[1..] + [part];
    }
  }

  lemma BarePart(parts: seq<string>, part: string)
    requires KeyValue(part) == None
    ensures Timestamp(parts + [part]) == Timestamp(parts) && Signatures(parts + [part]) == Signatures(parts)
  {
    hide KeyValue;
    assert (parts + [part])[..|parts + [part]| - 1] == parts && Last(parts + [part]) == part;
  }

  lemma {:induction false} ReadParts(parts: seq<Part>)
    requires forall i :: 0 <= i < |parts| ==> ReadablePart(parts[i])
    ensures Timestamp(PartTexts(parts)) == TimeIn(parts, None)
    ensures Signatures(PartTexts(parts)) == SignaturesIn(parts)
  {
    hide KeyValue, ParseInt, Timestamp, Signatures, TimeIn, SignaturesIn, ReadablePart, PartText;
    if parts == [] {
      NoParts();
      NoPartsIn();
      assert PartTexts(parts) == [];
    } else {
      var front, last := parts[..|parts| - 1], parts[|parts| - 1];
      ReadParts(front);
      ReadPart(last);
      LastPartIn(front, last, None);
      if last.Field? {
        OneMorePart(PartTexts(front), PartText(last), last.key, last.value);
      } else {
        BarePart(PartTexts(front), PartText(last));
      }
      assert parts == front + [last] && PartTexts(parts) == PartTexts(front) + [PartText(last)];
    }
  }

  lemma NoPartsIn()
    ensures TimeIn([], None) == None && SignaturesIn([]) == []
  {
  }

  /**
    Any header: the last timestamp that parses and all non-empty v1 values in order, whatever other parts and
    white space there are; nothing without both.
   */
  lemma AnyHeader(parts: seq<Part>)
    requires parts != [] && forall i :: 0 <= i < |parts| ==> ReadablePart(parts[i])
    ensures ParsedHeader(Join(PartTexts(parts), ",")) ==
            match TimeIn(parts, None) {
              case None => None
              case Some(t) => if SignaturesIn(parts) == [] then None else Some(Parsed(t, SignaturesIn(parts)))
            }
  {
    ReadParts(parts);
    assert forall i :: 0 <= i < |parts| ==> ',' !in PartTexts(parts)[i];
    hide PartText, ReadablePart, Timestamp, Signatures, TimeIn, SignaturesIn, Split, Join;
    SplitJoin(PartTexts(parts), ',');
  }

  // ---------------------------------------------------------------- the clock

  /** Go's clock starts at the first day of year 1. */
  lemma ClockStart()
    ensures UNIX_TO_INTERNAL == -86_400 * Calendar.DayFromYear(1)
  {
  }

  /** `time.Duration` arithmetic of `now.Sub(time.Unix(t, 0))`: exact if it fits, otherwise the nearest limit. */
  function Elapsed(now: int, t: int): int
  {
    now + UNIX_TO_INTERNAL * SECOND - Wrap64(t + UNIX_TO_INTERNAL) * SECOND
  }

  function Sub(now: int, t: int): (d: int)
    ensures Int64(d)
  {
    var exact := Elapsed(now, t);
    if exact < -TWO_63 then -TWO_63 else if exact >= TWO_63 then TWO_63 - 1 else exact
  }

  /** The test the verifier makes: the negated least duration is itself. */
  predicate WithinTolerance(now: int, t: int, tolerance: int)
  {
    var delta := Sub(now, t);
    var size := if delta < 0 then Wrap64(-delta) else delta;
    size <= tolerance
  }

  /** Timestamps whose second count Go's clock can hold. */
  predicate OnClock(t: int)
  {
    Int64(t + UNIX_TO_INTERNAL)
  }

  /**
    Exactly when the test passes: within the tolerance, or so far ahead that the difference is at its lower
    limit, or with the largest tolerance for any age.
   */
  lemma ToleranceExactly(now: int, t: int, tolerance: int)
    requires 0 < tolerance < TWO_63
    ensures WithinTolerance(now, t, tolerance) <==>
            || -tolerance <= Elapsed(now, t) <= tolerance
            || Elapsed(now, t) <= -TWO_63
            || (tolerance == TWO_63 - 1 && Elapsed(now, t) >= TWO_63)
  {
  }

  /** For every difference a duration can hold, the test is the tolerance itself. */
  lemma ToleranceHolds(now: int, t: int, tolerance: int)
    requires 0 < tolerance < TWO_63 && OnClock(t)
    requires -TWO_63 < now - t * 1_000_000_000 < TWO_63
    ensures WithinTolerance(now, t, tolerance) <==> -tolerance <= now - t * 1_000_000_000 <= tolerance
  {
    ToleranceExactly(now, t, tolerance);
  }

  /** Three centuries ahead the difference is at its limit, and the test passes. */
  lemma ToleranceAtTheLimit()
    ensures OnClock(9_300_000_000) && WithinTolerance(0, 9_300_000_000, DEFAULT_TOLERANCE)
  {
  }

  // ---------------------------------------------------------------- verification

  function Message(t: int, body: string): string
  {
    FormatInt(t) + "." + body
  }

  /** Whether one header vouches for the body. */
  ghost predicate Vouches(hmac: Hmac, body: string, header: string, secret: string, tolerance: int, now: int)
  {
    && ParsedHeader(header).Some?
    && var p := ParsedHeader(header).value;
    && WithinTolerance(now, p.timestamp, tolerance)
    && exists i :: 0 <= i < |p.signatures|
                   && HexDecode(p.signatures[i]) == Some(hmac(secret, Message(p.timestamp, body)))
  }

  method VerifySingleHeader(hmac: Hmac, body: string, header: string, secret: string, tolerance: int, now: int)
    returns (ok: bool)
    ensures ok == Vouches(hmac, body, header, secret, tolerance, now)
  {
    hide ParsedHeader, HexDecode, WithinTolerance;
    if header == "" {
      EmptyHeader();
      return false;
    }
    var parsed := ParseSignatureHeader(header);
    if parsed.None? {
      return false;
    }
    var p := parsed.value;
    if !WithinTolerance(now, p.timestamp, tolerance) {
      return false;
    }
    var expected := hmac(secret, Message(p.timestamp, body));
    for i := 0 to |p.signatures|
      invariant forall j :: 0 <= j < i ==> HexDecode(p.signatures[j]) != Some(expected)
    {
      var got := HexDecode(p.signatures[i]);
      if got.None? {
        continue;
      }
      if got.value == expected {
        return true;
      }
    }
    ok := false;
  }

  datatype Options = Options(tolerance: int, now: Option<int>, headerPrev: string)

  /** Accepts exactly when the secret is not empty and one of the headers supplied vouches for the body. */
  method VerifyWebhookSignature(hmac: Hmac, body: string, header: string, secret: string,
                                opts: Option<Options>, clock: int)
    returns (ok: bool)
    ensures ok <==>
            && secret != ""
            && var tolerance := if opts.Some? && opts.value.tolerance > 0 then opts.value.tolerance else 300_000_000_000;
            var now := if opts.Some? && opts.value.now.Some? then opts.value.now.value else clock;
            || Vouches(hmac, body, header, secret, tolerance, now)
            || (opts.Some? && Vouches(hmac, body, opts.value.headerPrev, secret, tolerance, now))
  {
    if secret == "" {
      return false;
    }
    var tolerance, now, headerPrev := DEFAULT_TOLERANCE, clock, "";
    if opts.Some? {
      if opts.value.tolerance > 0 {
        tolerance := opts.value.tolerance;
      }
      if opts.value.now.Some? {
        now := opts.value.now.value;
      }
      headerPrev := opts.value.headerPrev;
    }
    EmptyHeader();
    hide ParsedHeader;
    ok := VerifySingleHeader(hmac, body, header, secret, tolerance, now);
    if ok {
      return true;
    }
    if headerPrev != "" {
      ok := VerifySingleHeader(hmac, body, headerPrev, secret, tolerance, now);
    }
  }

  // ---------------------------------------------------------------- what rotation relies on

  /** A rendered header vouches exactly when it is timely and one of its signatures is the body's. */
  lemma RenderedHeaderVouches(hmac: Hmac, body: string, secret: string, tolerance: int, now: int,
                              t: int, signatures: seq<string>)
    requires Int64(t) && signatures != []
    requires forall i :: 0 <= i < |signatures| ==> Renderable(signatures[i])
    ensures Vouches(hmac, body, Header(t, signatures), secret, tolerance, now) <==>
            && WithinTolerance(now, t, tolerance)
            && exists s :: s in signatures && HexDecode(s) == Some(hmac(secret, FormatInt(t) + "." + body))
  {
    HeaderRoundTrip(t, signatures);
    assert Message(t, body) == FormatInt(t) + "." + body;
    hide ParsedHeader, HexDecode, WithinTolerance, Header, Message, FormatInt;
    var expected := hmac(secret, Message(t, body));
    assert (exists s :: s in signatures && HexDecode(s) == Some(expected)) <==>
           (exists i :: 0 <= i < |signatures| && HexDecode(signatures[i]) == Some(expected)) by {
      if s :| s in signatures && HexDecode(s) == Some(expected) {
        var i :| 0 <= i < |signatures| && signatures[i] == s;
      }
    }
  }

  /** The order of the signatures does not matter. */
  lemma SignatureOrderIrrelevant(hmac: Hmac, body: string, secret: string, tolerance: int, now: int,
                                 t: int, x: seq<string>, y: seq<string>)
    requires Int64(t) && x != [] && y != [] && forall s :: s in x <==> s in y
    requires forall s :: s in x ==> Renderable(s)
    ensures Vouches(hmac, body, Header(t, x), secret, tolerance, now) <==>
            Vouches(hmac, body, Header(t, y), secret, tolerance, now)
  {
    hide Vouches;
    RenderedHeaderVouches(hmac, body, secret, tolerance, now, t, x);
    RenderedHeaderVouches(hmac, body, secret, tolerance, now, t, y);
  }

  /** A header signed with two secrets is accepted by a holder of either, within the tolerance. */
  lemma EitherSecretPasses(hmac: Hmac, body: string, current: string, previous: string,
                           tolerance: int, now: int, t: int)
    requires Int64(t) && WithinTolerance(now, t, tolerance)
    requires var signed := FormatInt(t) + "." + body;
      && IsBytes(hmac(current, signed)) && hmac(current, signed) != ""
      && IsBytes(hmac(previous, signed)) && hmac(previous, signed) != ""
    ensures
      var signed := FormatInt(t) + "." + body;
      var header := Header(t, [HexEncode(hmac(current, signed)), HexEncode(hmac(previous, signed))]);
      && Vouches(hmac, body, header, current, tolerance, now)
      && Vouches(hmac, body, header, previous, tolerance, now)
  {
    var signed := FormatInt(t) + "." + body;
    var a, b := hmac(current, signed), hmac(previous, signed);
    HexRoundTrip(a);
    HexRoundTrip(b);
    var signatures := [HexEncode(a), HexEncode(b)];
    hide Vouches, WithinTolerance, HexDecode, HexEncode, FormatInt;
    RenderedHeaderVouches(hmac, body, current, tolerance, now, t, signatures);
    RenderedHeaderVouches(hmac, body, previous, tolerance, now, t, signatures);
    assert HexEncode(a) in signatures && HexEncode(b) in signatures;
  }

  /** A header whose only signature is of another body, time or secret is not accepted, if the digests differ. */
  lemma OtherDigestFails(hmac: Hmac, body: string, secret: string, tolerance: int, now: int, t: int, digest: string)
    requires Int64(t) && IsBytes(digest) && digest != "" && digest != hmac(secret, FormatInt(t) + "." + body)
    ensures !Vouches(hmac, body, Header(t, [HexEncode(digest)]), secret, tolerance, now)
  {
    HexRoundTrip(digest);
    hide Vouches, WithinTolerance, HexDecode, HexEncode, FormatInt;
    RenderedHeaderVouches(hmac, body, secret, tolerance, now, t, [HexEncode(digest)]);
  }
}
