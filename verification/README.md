# Driftstack: a verified model of the credit arithmetic, the event-stream readers and the client protocols

This project models, in Dafny, the parts of Driftstack whose correctness is an argument rather than a lookup,
and proves what they are for. `dafny verify dfyconfig.toml` checks everything.

**AI credits** (`Calendar`, `NaturalMonths`, `Proration`, `CallBudget`, `CallFit`, `RateCard`, `Doubles`,
`SpendOrder`, `Utf8Length`). Dates are UTC fields whose meaning is the ECMAScript time value; a bijection between the two is
proved, so leap years and month lengths are theorems. Natural months counted from an anchor are shown to
partition time, a paid period is partitioned by its months, and cutting a month into windows conserves its
credits up to one credit per cut. The bound on a model call is an upper bound for every way a provider may bill
the bytes sent, the output ceiling is its exact inverse, and the ladder that admits calls keeps a whole task
within what it reserved.

**Event streams** (`GoText`, `Arrival`, `EventStream`, `StreamProperties`, `WireRoundTrip`, `OpenStream`,
`Callbacks`, `WhiteSpace`). The SDK reads one wire format in three ways. The incremental readers are compared with the
buffered one over every way of cutting a byte stream into reads. They agree under every cutting of a stream
exactly when it has no CR CR LF before its end, because the incremental readers normalize CR LF again in text
they have normalized already; on one particular cutting they agree exactly when no read finds a CR LF in the text still
held. Writing frames, with any other lines among them, and reading them back is the identity.

**Client protocols** (`GoNumbers`, `ErrorMapping`, `Retry`, `RequestProtocol`, `WebhookSignature`,
`Pagination`). Retries run against a server that replays by idempotency key over a network that may lose
requests and responses; webhook headers round-trip and verification is characterised exactly; the cursor walk
is compared with the chain of pages, and exactly when it ends is settled.

**The SYN observer** (`SynPacket`, `SynTable`). The option loop is total and recovers every well-formed option
list, every packet with room for its headers is read back field by field, and the bounded table is, after any
packets, the 4,096 most recently seen keys with their latest signatures.

## How the source's form is kept

Loops that update variables are methods with loop invariants, proved against specification functions; the
observer's table is a class. Callbacks are functions of everything they have been given so far, so they may
keep any state. JSON decoding, HMAC-SHA256, randomness, floating-point rounding, cancellation and loss are
parameters. A Go string is a `string` with one `char` per byte. `Wrappers` holds the two datatypes for missing and refused values.

## Where code and documentation differ

- packages/sdk-go/client.go:557-561 says the incremental reader treats a stream exactly as the buffered one does. For the
  blocks seen under every cutting, that holds under the condition above and fails otherwise (`ChunkingInvariant`). The result of
  a turn can still be the same where blocks differ: it is, for every decoder, exactly when the responses agree
  as far as a turn looks at them (`SameOutcomeIff`), and not always (`DisturbedExample`).
- packages/api-types/src/ai-credits.ts:587 calls 1,200 months the longest period. The guard runs before the end test, so 1,199 is
  (`SplittableUpTo1199Months`).
- packages/api-types/src/ai-credits.ts:537: adding months is increasing in the number of months but not in the anchor; the one case
  where it reverses is `AnchorOrderReversed`.
- packages/sdk-go/client.go:343-347 says a keyed request cannot be applied twice. Header entries that spell the key header
  differently overwrite each other in no fixed order, so for a request that is retried at all this holds exactly
  when they agree (`AppliedAtMostOnceIff`). No exported call of the SDK builds two spellings: those with a key
  (packages/sdk-go/agent_sessions.go:459-467 and 674-682, packages/sdk-go/crypto_orders.go:127) set one, and the
  promise holds for them (`CallsApplyAtMostOnce`).
- packages/sdk-go/webhook_signature.go:95-102 compares a saturating duration; what its test accepts is `ToleranceExactly`.
- packages/sdk-go/pagination.go:3-14 says a repeated cursor is caught instead of spinning. Only a repeat of the cursor just
  sent is; when any other cursor comes back the walk never ends by itself (`RepeatMeansEndless`,
  `CycleIsNotDetected`). On a server with finitely many cursors it ends exactly when none comes back
  (`WalkEndsIff`).
- packages/sdk-go/retry.go:41 says a rate limit's hint is honoured. Its seconds are multiplied in 64 bits, so a hint above
  9,223,372,036 seconds is honoured only if it wraps to a long enough duration (`HintIsFollowedIff`,
  `HintLostExample`).

## Model

| member | source | states |
|---|---|---|
| `Arrival.AgreesIffUndisturbed` | packages/sdk-go/client.go:588-624 | for one cutting into reads, the incremental reader sees the blocks of the whole body iff no read found a CR LF in the text held |
| `Arrival.ChunkingInvariant` | packages/sdk-go/client.go:488-493 | the two agree on a body under every cutting into reads of at most 32 KiB iff the body has no CR CR LF before its end |
| `Arrival.SlackStep` | packages/sdk-go/client.go:600 | a read loses exactly the CR LF pairs in the text held before it |
| `Arrival.CleanIsUndisturbed` | packages/sdk-go/client.go:590-612 | a body without inner CR CR LF is never disturbed, however it is cut |
| `Arrival.InnerDisturbs` | packages/sdk-go/client.go:600-607 | read byte by byte, a body with an inner CR CR LF always is |
| `EventStream.ParseEventBlock` | packages/sdk-go/client.go:518-532 | the last event name (default "message"), the data lines joined, whether there were any; comments skipped |
| `EventStream.ParseTerminalEventStream` | packages/sdk-go/client.go:488-513 | the conclusion of handling every block of the normalized body in order up to the first error |
| `EventStream.Drain` | packages/sdk-go/client.go:601-611 | handles every complete block of the held text, keeps the rest, stops at an error |
| `EventStream.ReadLiveEventStream` | packages/sdk-go/client.go:562-629 | outcome and delivered frames for every cutting, ending and limit, the first error winning over later bytes |
| `EventStream.LiveErrorSticks` | packages/sdk-go/client.go:608-610 | an error within the limit is the result, whatever arrives later |
| `StreamProperties.HandleAllVerdict` | packages/sdk-go/client.go:562-586 | the fold over blocks equals a closed-form verdict on the response payloads; delivered frames are a prefix of the progress frames, all of them unless a terminal failed |
| `StreamProperties.SucceedsIff` | packages/sdk-go/client.go:534-548 | a turn succeeds iff there is exactly one response block and its envelope has a body and a status in 100..599 |
| `StreamProperties.FailsIff` | packages/sdk-go/client.go:494-548 | each of the four failures of a turn iff its responses call for it: none, unreadable, invalid envelope, more than one |
| `StreamProperties.FramesUntilFailure` | packages/sdk-go/client.go:566-586 | a turn that fails has delivered exactly the progress frames before the block it fails on |
| `StreamProperties.LiveVerdict` | packages/sdk-go/client.go:613-629 | within the limit and up to end of stream, the incremental result is the verdict on its blocks |
| `StreamProperties.LiveRunIsWhole` | packages/sdk-go/client.go:588-629 | for every cutting, ending and limit: a failure in the complete blocks within the limit, else an error for a stream too long or broken off, else the verdict |
| `StreamProperties.BufferedRun` | packages/sdk-go/client.go:448-467 | read whole: too long, broken off, or the verdict on the blocks of the body |
| `StreamProperties.LiveAgreesWithBuffered` | packages/sdk-go/client.go:438-467 | incremental and buffered reading give the same status and body or the same error, for every cutting |
| `StreamProperties.LiveSucceedsIffBuffered` | packages/sdk-go/client.go:438-467 | also for streams too long or broken off, a callback never changes whether a turn succeeds or with what |
| `StreamProperties.SameOutcomeIff` | packages/sdk-go/client.go:557-629 | for one cutting within the limit, the two return the same for every decoder iff both see no response, or the same first response and one of it or more alike |
| `StreamProperties.DisturbedOutcomes` | packages/sdk-go/client.go:600 | a family of streams with CR CR LF, and a cutting, on which the two return different outcomes for every decoder |
| `StreamProperties.DisturbedExample` | packages/sdk-go/client.go:600 | one concrete such stream and cutting |
| `WireRoundTrip.ReadWritten` | packages/sdk-go/client.go:518-532 | a block of any lines reads back to its last name, its data lines joined and whether there were any; ids, retry times and comments change nothing |
| `WireRoundTrip.EveryBlockIsWritten` | packages/sdk-go/client.go:518-532 | every text is such a block, so this says what reading does with all of them |
| `WireRoundTrip.ServerEventIsWritten` | apps/server/src/routes/agent-sessions.ts:5514-5518 | an event as the server writes it, with or without an id, says its name and its data |
| `WireRoundTrip.StreamBlocks` | packages/sdk-go/client.go:488-493 | a written stream splits into exactly the blocks written |
| `WireRoundTrip.RoundTrip` | packages/sdk-go/client.go:557-629 | under any cutting the frames written are the frames delivered, in order and once, and the outcome is the verdict on the responses written |
| `WireRoundTrip.OpenRoundTrip` | packages/sdk-go/client.go:631-692 | under any cutting every frame written to an open-ended stream reaches the callback, up to its first refusal |
| `GoText.TrimSurrounded` | packages/sdk-go/client.go:525 | trimming removes any white space around a trimmed text |
| `GoText.TrimSpaceIs` | packages/sdk-go/client.go:525 | what trimming leaves is trimmed, and what it takes away is white space |
| `WhiteSpace.TrimmedIffWhiteSpace` | packages/sdk-go/client.go:525 | a character is trimmed iff it has Unicode's White_Space property |
| `Callbacks.DeliverStopsAtFirstRefusal` | packages/sdk-go/client.go:667-670 | a callback gets exactly the items up to its first refusal |
| `Callbacks.FirstRefusalIsUnique` | packages/sdk-go/client.go:667-670 | nothing else satisfies that description |
| `OpenStream.ReadOpenEventStream` | packages/sdk-go/client.go:637-692 | outcome and delivered frames for every cutting, ending, limit and callback |
| `OpenStream.OpenRunIsWhole` | packages/sdk-go/client.go:631-692 | under any cutting, ending and limit without inner CR CR LF: the data frames of the blocks within the limit up to and including the first refusal, and its result; else an error for a stream too long, broken off or cancelled, nil at its end |
| `Calendar.NextMonth` | packages/api-types/src/ai-credits.ts:513-529 | each month starts where the one before ends, across leap days and year ends |
| `Calendar.MonthStartsOnBoundary` | packages/api-types/src/ai-credits.ts:513-529 | every month starts on the day of its year that ECMAScript's month table says, leap years included |
| `Calendar.TimeOrder` | packages/api-types/src/ai-credits.ts:538-562 | time values order dates as their fields do and are injective |
| `Calendar.DateAt` | packages/api-types/src/ai-credits.ts:538-562 | every time value is exactly one valid date's |
| `Calendar.AddMonths` | packages/api-types/src/ai-credits.ts:541-552 | the month number moves by the count, the day is the anchor's clamped to the month, the time of day is kept |
| `Calendar.AddMonthsDay` | packages/api-types/src/ai-credits.ts:541-552 | the day is kept or clamped to 30 in April, June, September and November and to 28 or 29 in February |
| `Calendar.AddUtcMonthsExactly` | packages/api-types/src/ai-credits.ts:541-562 | refused iff the date is invalid, the count no safe integer or the result beyond 8.64e15 milliseconds from 1970 |
| `Calendar.RepresentableEnds` | packages/api-types/src/ai-credits.ts:553-560 | the first and last milliseconds a Date holds, as calendar dates |
| `Calendar.AddMonthsIncreases` | packages/api-types/src/ai-credits.ts:503-511 | strictly increasing in the month count |
| `Calendar.ChainingNeverPasses` | packages/api-types/src/ai-credits.ts:503-506 | chaining never passes the direct sum; equal iff the month between is long enough, always for days up to 28 |
| `Calendar.AnchorOrderReversed` | packages/api-types/src/ai-credits.ts:537-552 | the exact case in which a later anchor gives an earlier result |
| `Calendar.AnchorOrderReversedExample` | packages/api-types/src/ai-credits.ts:537-552 | January 30 12:00 and January 31 00:00 come out swapped one month on |
| `NaturalMonths.EstimateBrackets` | packages/api-types/src/ai-credits.ts:578-580 | the month-difference estimate is right or one too high |
| `NaturalMonths.EstimateNotNegative` | packages/api-types/src/ai-credits.ts:581 | the negative-index repair is unreachable |
| `NaturalMonths.MonthIndexIsUnique` | packages/api-types/src/ai-credits.ts:571-585 | every instant lies in exactly one natural month |
| `NaturalMonths.DescendToMonth` | packages/api-types/src/ai-credits.ts:582 | from the month of the instant or the one after, the first loop reaches the month of the instant in at most that one step |
| `NaturalMonths.ClimbToMonth` | packages/api-types/src/ai-credits.ts:583 | from any earlier month the second loop reaches the month of the instant, or fails because its end is not representable |
| `NaturalMonths.NaturalMonthContaining` | packages/api-types/src/ai-credits.ts:571-585 | the month containing the instant with its exact ends, refused in exactly the stated cases; first loop at most once, second never |
| `NaturalMonths.NaturalMonthsOfPeriod` | packages/api-types/src/ai-credits.ts:601-618 | succeeds iff the period closes within 1,199 months at a representable boundary; returns exactly the months of the period |
| `NaturalMonths.SplittableUpTo1199Months` | packages/api-types/src/ai-credits.ts:587-609 | for every start, succeeds iff start + 1,199 months reaches the end and the first boundary at or after the end is representable; exactly 1,200 months is refused |
| `NaturalMonths.WholeMonths` | packages/api-types/src/ai-credits.ts:590-592 | a period of n whole months gives n months, an annual one twelve |
| `NaturalMonths.MonthsPartitionPeriod` | packages/api-types/src/ai-credits.ts:590-600 | first starts at the start, each ends where the next begins, last ends at the end, none is empty |
| `NaturalMonths.EveryInstantInItsMonth` | packages/api-types/src/ai-credits.ts:571-618 | each instant of the period lies in exactly one of its months, the one with its natural-month index |
| `Proration.ShareIsFloorOfExact` | packages/api-types/src/ai-credits.ts:624-646 | the share is the largest whole number of credits not above the exact share, and not above the amount |
| `Proration.ProrationNeverFails` | packages/api-types/src/ai-credits.ts:633-646 | with valid arguments the safe-integer guard never fires; the share is odd in the amount |
| `Proration.ProrationRefusedIff` | packages/api-types/src/ai-credits.ts:633-646 | exactly which arguments are refused |
| `Proration.ShareMonotone` | packages/api-types/src/ai-credits.ts:644 | a longer portion never gets less |
| `Proration.ShareOfWhole` | packages/api-types/src/ai-credits.ts:654-658 | the whole month grants the level floored to whole credits |
| `Proration.WindowIsGranted` | packages/api-types/src/ai-credits.ts:659-681 | inside a natural month every window of a partition is granted its share |
| `Proration.WindowShareExactly` | packages/api-types/src/ai-credits.ts:659-681 | a window is granted its share of the month iff all instants are dates, it is not empty and lies inside, and level and month are safe |
| `Proration.WindowsConserveCredits` | packages/api-types/src/ai-credits.ts:654-681 | any partition into n windows grants between the floored level minus n-1 credits and the floored level |
| `Proration.NaturalMonthConservesCredits` | packages/api-types/src/ai-credits.ts:654-681 | the same for every natural month of every anchor |
| `Proration.NaturalMonthIsShort` | packages/api-types/src/ai-credits.ts:680 | a natural month is short enough for its length to be exact |
| `CallBudget.CallChargeMicro` | packages/api-types/src/ai-credits.ts:338-353 | every kind of token at its own rate, or refused for an invalid count, rate or total |
| `CallBudget.ChargeRefusedIff` | packages/api-types/src/ai-credits.ts:338-353 | refused iff a count, a rate or the total is no safe integer |
| `CallBudget.ChargeWithinBound` | packages/api-types/src/ai-credits.ts:399-451 | for every attribution of tokens to regions the charge can be computed and is at most the bound |
| `CallBudget.BoundIsAttained` | packages/api-types/src/ai-credits.ts:399-451 | the bound is the least: some billing costs exactly it, costs the input bound without its output, and has the input tokens of the bound |
| `CallBudget.BoundRefusedIff` | packages/api-types/src/ai-credits.ts:415-451 | refused iff a size, rate or total is no safe integer, the rates are out of order or the ceiling is 0 |
| `CallBudget.CeilingIsExact` | packages/api-types/src/ai-credits.ts:453-471 | a ceiling's bound fits in the room iff the ceiling is at most the one computed |
| `CallBudget.CeilingRefusedIff` | packages/api-types/src/ai-credits.ts:458-467 | refused iff room, input or a rate is no safe integer or output is free |
| `CallFit.LadderIsExact` | apps/server/src/services/credit-call-fit.ts:145-175 | the full ceiling iff it fits, else the largest that fits down to the floor, else the low rungs |
| `CallFit.FitRefusedUnpriced` | apps/server/src/services/credit-call-fit.ts:145-163 | decides only for a safe room and history, an output rate and a body that can be bounded |
| `CallFit.LadderInTokens` | apps/server/src/services/credit-call-fit.ts:163-175 | plan calls get 8,192 output tokens or the most that fits from 1,024 up, answer calls 4,096 or the most from 512 up |
| `CallFit.AdmittedBoundFits` | apps/server/src/services/credit-call-fit.ts:131-138 | both admitting rungs carry a bound within the room and a ceiling from floor to full |
| `CallFit.LowRungsAreHonest` | apps/server/src/services/credit-call-fit.ts:177-204 | a refusal names a positive shortfall against the floor's bound; a trim asks for at least one byte and at most all |
| `CallFit.LowRungsExactly` | apps/server/src/services/credit-call-fit.ts:177-204 | exactly when a call is trimmed, refused or an error, and the fewest bytes that cover the excess |
| `CallFit.LowRungSumsAreExact` | apps/server/src/services/credit-call-fit.ts:177-228 | for every room, all sums of the low rungs are safe integers iff the shortfall is one and, where a trim is priced, the shortfall plus an input token's price is; on every card the shortfall alone decides |
| `CallFit.TrimmedCallIsAdmitted` | apps/server/src/services/credit-call-fit.ts:27-32 | dropping the bytes asked for, from any regions, is enough: the rebuilt call is admitted |
| `CallFit.CallsStayWithinRoom` | apps/server/src/services/credit-call-fit.ts:131-138 | over any sequence of admitted calls the total charged stays within the starting room |
| `RateCard.CardIsTwiceListPrice` | packages/api-types/src/ai-credits.ts:264-314 | for every model and token vector up to two million dollars, the registry's price computed in doubles is half the card's charge in thousandths, rounded once; no price iff a count is negative |
| `RateCard.NoiseIsSmall` | packages/api-types/src/agent-models.ts:340-362 | with every product and sum rounded to nearest, a price up to two million dollars is off by less than half a microcent |
| `Doubles.ProductError` | packages/api-types/src/agent-models.ts:356-361 | a chain of products in doubles is within four half-units per factor of the exact product |
| `Doubles.TermsError` | packages/api-types/src/agent-models.ts:356-361 | a sum in doubles is within two half-units per term of the exact sum |
| `RateCard.ListPriceIsWhole` | packages/api-types/src/agent-models.ts:340-343 | the exact list price is a whole number of microcents and half the card's charge |
| `RateCard.CardRowsCanBeBounded` | packages/api-types/src/ai-credits.ts:409-428 | every card row meets the rate order and the ladder's condition, so a priced model is never refused a bound for its rates |
| `Utf8Length.Utf8ByteLength` | packages/api-types/src/ai-credits.ts:480-497 | the length of the UTF-8 encoding with lone surrogates replaced by U+FFFD |
| `Utf8Length.EncodeRoundTrip` | packages/api-types/src/ai-credits.ts:473-479 | the reference encoding is readable: lead byte gives the length, the character decodes |
| `Utf8Length.CharactersAreScalars` | packages/api-types/src/ai-credits.ts:476-479 | the characters counted are Unicode scalar values |
| `Utf8Length.Utf16RoundTrip` | packages/api-types/src/ai-credits.ts:476-493 | characters written in UTF-16 are read back, every half pair as U+FFFD |
| `Utf8Length.LengthBounds` | packages/api-types/src/ai-credits.ts:473-497 | between one and three bytes per code unit |
| `Utf8Length.LengthOfConcatenation` | packages/api-types/src/ai-credits.ts:486-493 | additive, except two less when a surrogate pair is joined |
| `SpendOrder.CompareIsTotalOrder` | packages/api-types/src/ai-credits.ts:719-727 | antisymmetric, transitive, and a tie only between equal ids |
| `SpendOrder.CompareExactly` | packages/api-types/src/ai-credits.ts:719-727 | included credits, then goodwill, then bought ones; within a group by expiry, then age, then id |
| `SpendOrder.IdLessIs` | packages/api-types/src/ai-credits.ts:726 | ids compare by their first difference, a proper prefix first |
| `SpendOrder.BoughtCreditsLast` | packages/api-types/src/ai-credits.ts:697-705 | in spend order no bought credit precedes an included or goodwill one; within a rank by expiry, then age, then id |
| `SpendOrder.SpendOrderIsUnique` | packages/api-types/src/ai-credits.ts:715-718 | two sorted arrangements of the same lots are equal |
| `SynPacket.ReadOptions` | infra/os-observer/observer.py:99-120 | kinds in order, last segment size and last window scale, for every byte string |
| `SynPacket.ParseSyn` | infra/os-observer/observer.py:72-128 | total: each field, or nothing for what is not an initial SYN to an observed port |
| `SynPacket.OptionRoundTrip` | infra/os-observer/observer.py:99-120 | an option list is read back entry by entry, followed by its end-of-list option or what there is of a broken option |
| `SynPacket.EveryListIsWritten` | infra/os-observer/observer.py:99-120 | every byte string is such a list |
| `SynPacket.LastOneWins` | infra/os-observer/observer.py:116-119 | the size is that of the last kind 2 with two bytes, the scale that of the last kind 3 with one |
| `SynPacket.NothingGiven` | infra/os-observer/observer.py:100 | without such an option the value is None |
| `SynPacket.PacketRoundTrip` | infra/os-observer/observer.py:74-128 | an initial SYN to an observed port is read back field by field, whatever its other header bytes, data offset, options and payload; any other segment is passed over |
| `SynPacket.SegmentIsRead` | infra/os-observer/observer.py:74-128 | the same wherever the header length says the segment starts |
| `SynPacket.EveryPacketIsRendered` | infra/os-observer/observer.py:74-98 | every packet with room for both headers is a rendering of them, so the round trip covers all of them |
| `SynPacket.OtherPacketsPassedOver` | infra/os-observer/observer.py:74-90 | packets too short or not IPv4 are passed over |
| `SynPacket.DottedQuadInjective` | infra/os-observer/observer.py:86 | different source addresses have different texts, so table keys do not collide |
| `SynPacket.DottedQuadReads` | infra/os-observer/observer.py:86 | the address text is its four numbers in order with dots between them |
| `SynTable.Table.EvictOldest` | infra/os-observer/observer.py:150-151 | keeps the newest entries; one eviction for one entry too many |
| `SynTable.Table.Observe` | infra/os-observer/observer.py:142-151 | the table stays the newest 4,096 keys by last sighting with their latest signatures; evicts iff full and the key is new |
| `SynTable.Table.Sniff` | infra/os-observer/observer.py:137-151 | after any packets the table's history is exactly the SYNs among them |
| `SynTable.HeldIffKept` | infra/os-observer/observer.py:148-151 | a key is held iff fewer than 4,096 other keys were seen since |
| `SynTable.LatestIsLast` | infra/os-observer/observer.py:148-149 | the signature kept for a key is that of its last sighting |
| `SynTable.Table.Lookup` | infra/os-observer/observer.py:177-208 | answers the latest signature iff it is held and within the lifetime; never a default |
| `ErrorMapping.RetryableIff` | packages/sdk-go/error_mapping.go:61-111 | a response is worth retrying iff its body is no problem document or an internal or rate-limited one |
| `ErrorMapping.RateLimitHint` | packages/sdk-go/error_mapping.go:188-199 | the header's seconds if it is a number other than 0, otherwise the body's |
| `Retry.NextDelay` | packages/sdk-go/retry.go:93-131 | the hint capped at the maximum, else random below the capped exponential backoff, with defaults for unset values, whatever the platform's rounding and conversion |
| `Retry.UnsetMeansDefault` | packages/sdk-go/retry.go:98-108 | a setting of zero or less stands for 200 ms, 10 s or a factor of 2 |
| `Retry.DelayBounds` | packages/sdk-go/retry.go:93-131 | never negative or above the effective maximum, whatever rounding and overflow give; otherwise below the backoff, every such value possible |
| `Retry.BackoffIsExponential` | packages/sdk-go/retry.go:15-17 | where no product needs rounding the backoff is InitialDelay * multiplier^attempt |
| `Retry.HintIsFollowedIff` | packages/sdk-go/retry.go:85-114 | for every positive 64-bit number of seconds, the hint up to the maximum is the sleep iff it fits a duration or wraps to one no shorter than the maximum |
| `Retry.HeaderIsWaitedOut` | packages/sdk-go/retry.go:85-114 | a rate limit whose header names n seconds is waited out, up to the maximum |
| `Retry.HintLostExample` | packages/sdk-go/retry.go:85-91 | a hint of 9,223,372,037 seconds under the default policy can lead to a sleep of zero |
| `RequestProtocol.Do` | packages/sdk-go/client.go:280-299 | the run of attempts, sleeps and server effects |
| `RequestProtocol.HasKey` | packages/sdk-go/client.go:360-365 | whether some spelling of the key header, under Unicode folding, has a non-blank value |
| `RequestProtocol.SpellsIff` | packages/sdk-go/client.go:361 | an ASCII header name is the key header iff it is Idempotency-Key in some mixture of cases |
| `RequestProtocol.KelvinSpells` | packages/sdk-go/client.go:361 | and one with the Kelvin sign iff that stands for the K |
| `RequestProtocol.RunShape` | packages/sdk-go/retry.go:45-74 | at most max(MaxRetries, 0) + 1 attempts and max(MaxRetries, 0) sleeps, all attempts but the last retryable, stopping at the first success or other error; every sleep within the maximum; one attempt if not retry-safe |
| `RequestProtocol.RunIsTraced` | packages/sdk-go/retry.go:55-73 | every attempt meets the server its predecessor left, every sleep is the delay for the failure just met, and cancellation ends the run |
| `RequestProtocol.WaitIsBounded` | packages/sdk-go/retry.go:19-21 | in every run the total wait is at most max(MaxRetries, 0) times the effective maximum delay |
| `RequestProtocol.DefaultPolicyBounds` | packages/sdk-go/retry.go:29-38 | the default policy makes at most four attempts and waits at most 30 seconds in all |
| `RequestProtocol.IdempotentIsRetried` | packages/sdk-go/client.go:348-353 | GET, HEAD, PUT, DELETE, OPTIONS and TRACE in any case are retried after a failure worth it |
| `RequestProtocol.KeylessIsSentOnce` | packages/sdk-go/client.go:276-295 | a POST or PATCH without a key is sent exactly once and applied at most once |
| `RequestProtocol.KeyedIsRetried` | packages/sdk-go/client.go:360-364 | a request with a non-blank key is retried |
| `RequestProtocol.KeyedRunAppliesAtMostOnce` | packages/sdk-go/client.go:343-347 | under one key a run has at most one effect if the key is new and none if it is recorded |
| `RequestProtocol.AppliedAtMostOnceIff` | packages/sdk-go/client.go:343-366 | over every run with losses, a request whose method is none of the six is applied at most once iff retries are off, it has no usable key, it cannot be sent, or all spellings of the key agree |
| `RequestProtocol.CallsApplyAtMostOnce` | packages/sdk-go/agent_sessions.go:459-467 | with the headers the SDK's own calls build, no POST or PATCH is applied twice, whatever is lost |
| `RequestProtocol.CallsAreSendable` | packages/sdk-go/agent_sessions.go:459-467 | those requests can be sent iff the two values hold no control characters but tabs |
| `WebhookSignature.ParseSignatureHeader` | packages/sdk-go/webhook_signature.go:129-157 | the last timestamp that parses and the non-empty v1 values in order |
| `WebhookSignature.HeaderRoundTrip` | packages/sdk-go/webhook_signature.go:129-157 | a rendered header parses back to exactly its timestamp and signatures |
| `WebhookSignature.AnyHeader` | packages/sdk-go/webhook_signature.go:129-157 | whatever parts and white space a header has: its last timestamp that parses and its non-empty v1 values in order, nothing without both |
| `WebhookSignature.EveryPartIsWritten` | packages/sdk-go/webhook_signature.go:133-139 | every part of a header is of the kinds this covers |
| `GoNumbers.ParseFormatted` | packages/sdk-go/webhook_signature.go:141-146 | parsing undoes formatting for every 64-bit integer |
| `GoNumbers.ParseIntReads` | packages/sdk-go/webhook_signature.go:142 | an optional sign, any zeros and digits are read, and refused beyond 64 bits |
| `GoNumbers.ParseIntReadsOnly` | packages/sdk-go/webhook_signature.go:142 | nothing else is |
| `GoNumbers.HexDecodesIff` | packages/sdk-go/webhook_signature.go:113-116 | a signature decodes to bytes iff it is their pairs of hexadecimal digits in either case |
| `WebhookSignature.VerifySingleHeader` | packages/sdk-go/webhook_signature.go:87-122 | true iff the header parses, passes the time test and some v1 decodes to the digest |
| `WebhookSignature.VerifyWebhookSignature` | packages/sdk-go/webhook_signature.go:54-85 | accepts iff the secret is not empty and a supplied header vouches |
| `WebhookSignature.ToleranceExactly` | packages/sdk-go/webhook_signature.go:95-102 | exactly which differences pass the time test, saturation and wrap-around included |
| `WebhookSignature.ToleranceHolds` | packages/sdk-go/webhook_signature.go:95-102 | for differences a duration can hold, the test is the tolerance |
| `WebhookSignature.ToleranceAtTheLimit` | packages/sdk-go/webhook_signature.go:95-102 | a concrete difference beyond that for which the test passes |
| `WebhookSignature.ClockStart` | packages/sdk-go/webhook_signature.go:94 | Go's clock starts at the first day of year 1 |
| `WebhookSignature.SignatureOrderIrrelevant` | packages/sdk-go/webhook_signature.go:108-120 | the order of v1 values does not matter |
| `WebhookSignature.EitherSecretPasses` | packages/sdk-go/webhook_signature.go:108-120 | a header signed with two secrets is accepted with either |
| `WebhookSignature.OtherDigestFails` | packages/sdk-go/webhook_signature.go:103-122 | a signature that is not the digest of the timestamp, a dot and the body is not accepted |
| `Pagination.HandPage` | packages/sdk-go/sessions.go:76-84 | hands over one page up to the first refusal |
| `Pagination.Iterate` | packages/sdk-go/sessions.go:63-94 | delivers the chain's items up to the first refusal and requests its cursors in order, the failing request included; success, stuck cursor, stop, callback error and request error are told apart |
| `Pagination.WalkFromPages` | packages/sdk-go/pagination.go:15-26 | every result from the pages themselves: a chain of cursors; success iff the last page names none, stuck iff it names itself, a request error iff one more was needed, else the callback's answer at the page with the item it refused |
| `Pagination.NeverTwiceInARow` | packages/sdk-go/pagination.go:15-26 | no cursor is requested twice in a row |
| `Pagination.DescendingWalkEnds` | packages/sdk-go/pagination.go:5-14 | if the cursors given out descend a rank the walk ends by itself within that many requests |
| `Pagination.EndingWalkDescends` | packages/sdk-go/pagination.go:5-14 | only such walks end: every walk that ends by itself descends a rank |
| `Pagination.EndedWalkNeverRepeats` | packages/sdk-go/sessions.go:63-94 | a walk that ends by itself requests every cursor once |
| `Pagination.RepeatMeansEndless` | packages/sdk-go/pagination.go:15-26 | once any cursor has come back, at any distance, the walk does not end by itself within any number of requests |
| `Pagination.WalkEndsIff` | packages/sdk-go/pagination.go:15-26 | with finitely many cursors the walk ends by itself iff no cursor comes back within one request more than there are cursors |
| `Pagination.CompleteWalk` | packages/sdk-go/sessions.go:63-94 | from cursors that descend a rank, with requests enough and a callback that never refuses: the whole chain of pages is requested without repeats, every item of every page delivered in order, and the result is success, or the stuck cursor if the last page names itself |
| `Pagination.CycleIsNotDetected` | packages/sdk-go/pagination.go:19-24 | a concrete server whose second page enters a cycle of two: the walk never ends by itself |

## Left out

- HTTP transport, contexts, timers, threads, sockets and JSON decoding: a send, a read and a decode are inputs.
- The tail after a stream (decoding a 2xx body into the caller's value): the same few lines on both paths.
- HMAC-SHA256 and constant-time comparison: any function from secret and message to bytes.
- LadderIsExact: the low rungs' sums are exact integers here. `LowRungSumsAreExact` says when they are exact in the source's doubles too; what double rounding does beyond that is not modelled.
- CardIsTwiceListPrice: above two million dollars a call, where noise can reach half a microcent, nothing is promised; a registry price for a fractional token count is not modelled.
- SpendOrder: lots have valid dates. An invalid one makes the source's comparator return NaN, and the order is then whatever the sort makes of it.
- Requests refused by `net/http` before sending are those with an invalid method, header name or header value; a custom transport that sends them is not modelled.
- A pagination walk meets a server whose pages do not change while it runs.
- The path syntax of the observer's HTTP interface, its health and listing routes.
- Non-integer numbers as arguments to the credit functions: refused by the source before any arithmetic.
- Display rounding, tier tables, request and response schemas, the resource methods of the SDK and the other error builders: one branch or one field each.
- The server-side ledger and reservations: the room of a task is an input.
