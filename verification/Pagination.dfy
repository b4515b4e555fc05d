/**
  Cursor pagination (packages/sdk-go/pagination.go) and the walk over all pages that every resource's
  `Iterate` makes (packages/sdk-go/sessions.go). The server is a fixed map from cursor to page; it answers
  `budget` requests, and the one after them fails.
 */
module Pagination {
  import opened Wrappers
  import opened Callbacks

  datatype Page<+T> = Page(items: seq<T>, next: Option<string>)

  type Server<T> = string -> Page<T>

  datatype Advance = LastPage | NotAdvanced | To(cursor: string)

  function AdvanceCursor(current: string, next: Option<string>): Advance
  {
    if next.None? || next.value == "" then LastPage
    else if next.value == current then NotAdvanced
    else To(next.value)
  }

  /** How a walk ends: at the last page, at a cursor that does not advance, or at a request that fails. */
  datatype Ending = Finished | Stuck | CutShort

  datatype Outcome =
    | Walked
    | NotAdvancing
    | Stopped
    | CallbackFailed(cause: string)
    | RequestFailed(cause: string)

  function AfterPage<T>(server: Server<T>, cursor: string): Advance
  {
    AdvanceCursor(cursor, server(cursor).next)
  }

  // ---------------------------------------------------------------- the chain of pages

  /** The cursors of the pages from `cursor` on, as far as `budget` requests reach. */
  function Cursors<T>(server: Server<T>, cursor: string, budget: nat): seq<string>
    decreases budget
  {
    if budget == 0 then []
    else
      match AfterPage(server, cursor)
      case To(next) => [cursor] + Cursors(server, next, budget - 1)
      case _ => [cursor]
  }

  /** The items of those pages, in order. */
  function Items<T>(server: Server<T>, cursor: string, budget: nat): seq<T>
    decreases budget
  {
    if budget == 0 then []
    else
      match AfterPage(server, cursor)
      case To(next) => server(cursor).items + Items(server, next, budget - 1)
      case _ => server(cursor).items
  }

  /** The items of the pages at `cursors`, in order. */
  function PageItems<T>(server: Server<T>, cursors: seq<string>): seq<T>
  {
    if cursors == [] then [] else server(cursors[0]).items + PageItems(server, cursors[1..])
  }

  lemma {:induction false} OneMorePage<T>(server: Server<T>, cursors: seq<string>, cursor: string)
    ensures PageItems(server, cursors + [cursor]) == PageItems(server, cursors) + server(cursor).items
  {
    if cursors == [] {
      assert cursors + [cursor] == [cursor] && [cursor][1..] == [] && PageItems(server, []) == [];
      assert server(cursor).items + [] == [] + server(cursor).items;
    } else {
      OneMorePage(server, cursors[1..], cursor);
      assert (cursors + [cursor])[1..] == cursors[1..] + [cursor];
    }
  }

  /** How a walk that nothing interrupts ends. */
  function WalkEnd<T>(server: Server<T>, cursor: string, budget: nat): Ending
    decreases budget
  {
    if budget == 0 then CutShort
    else
      match AfterPage(server, cursor)
      case To(next) => WalkEnd(server, next, budget - 1)
      case LastPage => Finished
      case NotAdvanced => Stuck
  }

  function OutcomeOf(reply: Reply, end: Ending, failure: string): Outcome
  {
    match reply
    case Stop => Stopped
    case Fail(cause) => CallbackFailed(cause)
    case Continue =>
      match end
      case Finished => Walked
      case Stuck => NotAdvancing
      case CutShort => RequestFailed(failure)
  }

  /** The items after the page at `cursor`. */
  function ItemsAfter<T>(server: Server<T>, cursor: string, budget: nat): seq<T>
    requires budget > 0
  {
    match AfterPage(server, cursor)
    case To(next) => Items(server, next, budget - 1)
    case _ => []
  }

  /** One page of the chain, and what is left after it. */
  lemma ChainStep<T>(server: Server<T>, cursor: string, budget: nat)
    ensures budget == 0 ==>
              && Items(server, cursor, budget) == [] && Cursors(server, cursor, budget) == []
              && WalkEnd(server, cursor, budget) == CutShort
    ensures budget > 0 ==>
              && Items(server, cursor, budget) == server(cursor).items + ItemsAfter(server, cursor, budget)
              && [cursor] <= Cursors(server, cursor, budget)
    ensures budget > 0 && AfterPage(server, cursor).To? ==>
              var next := AfterPage(server, cursor).cursor;
              && ItemsAfter(server, cursor, budget) == Items(server, next, budget - 1)
              && Cursors(server, cursor, budget) == [cursor] + Cursors(server, next, budget - 1)
              && WalkEnd(server, cursor, budget) == WalkEnd(server, next, budget - 1)
    ensures budget > 0 && !AfterPage(server, cursor).To? ==>
              && ItemsAfter(server, cursor, budget) == []
              && Cursors(server, cursor, budget) == [cursor]
              && WalkEnd(server, cursor, budget) == if AfterPage(server, cursor).LastPage? then Finished else Stuck
  {
  }

  lemma NoPages<T>(server: Server<T>)
    ensures PageItems(server, []) == []
  {
  }

  lemma DeliverNothing<T>(callback: seq<T> -> Reply)
    ensures Deliver(callback, []) == Delivery([], Continue)
  {
  }

  /** The inner loop: hand over one page. */
  method HandPage<T>(callback: seq<T> -> Reply, before: seq<T>, items: seq<T>) returns (d: Delivery<T>)
    requires Deliver(callback, before) == Delivery(before, Continue)
    ensures d == Deliver(callback, before + items)
    ensures d.reply.Continue? ==> d.items == before + items
    ensures !d.reply.Continue? ==> |before| < |d.items| && d.items <= before + items
  {
    hide Deliver;
    d := Delivery(before, Continue);
    assert before + items[..0] == before;
    for i := 0 to |items|
      invariant d == Deliver(callback, before + items[..i]) && d == Delivery(before + items[..i], Continue)
    {
      var given := d.items + [items[i]];
      DeliverOneMore(callback, before + items[..i], items[i]);
      assert before + items[..i] + [items[i]] == before + items[..i + 1];
      d := Delivery(given, callback(given));
      if !d.reply.Continue? {
        RefusalSticks(callback, before + items[..i + 1], items[i + 1..]);
        assert before + items[..i + 1] + items[i + 1..] == before + items;
        return;
      }
    }
    assert items[..|items|] == items;
  }

  /** After `requested`, with `left` more requests answered, the walk stands at `cursor`. */
  ghost predicate OnTrack<T>(server: Server<T>, start: string, budget: nat, delivered: seq<T>,
                             requested: seq<string>, cursor: string, left: nat)
  {
    && left == budget - |requested|
    && Items(server, start, budget) == delivered + Items(server, cursor, left)
    && Cursors(server, start, budget + 1) == requested + Cursors(server, cursor, left + 1)
    && WalkEnd(server, start, budget) == WalkEnd(server, cursor, left)
  }

  /** The request for the page at `cursor` fails. */
  lemma TrackUnanswered<T>(server: Server<T>, start: string, budget: nat, delivered: seq<T>,
                           requested: seq<string>, cursor: string)
    requires OnTrack(server, start, budget, delivered, requested, cursor, 0)
    ensures Items(server, start, budget) == delivered
    ensures Cursors(server, start, budget + 1) == requested + [cursor]
    ensures WalkEnd(server, start, budget) == CutShort
  {
    hide Items, ItemsAfter, Cursors, WalkEnd, AfterPage;
    ChainStep(server, cursor, 0);
    ChainStep(server, cursor, 1);
    if AfterPage(server, cursor).To? {
      ChainStep(server, AfterPage(server, cursor).cursor, 0);
      assert [cursor] + [] == [cursor];
    }
    assert delivered + [] == delivered;
  }

  /** The page at `cursor` is read. */
  lemma TrackPage<T>(server: Server<T>, start: string, budget: nat, delivered: seq<T>,
                     requested: seq<string>, cursor: string, left: nat)
    requires OnTrack(server, start, budget, delivered, requested, cursor, left) && left > 0
    ensures var given, asked := delivered + server(cursor).items, requested + [cursor];
      && asked <= Cursors(server, start, budget + 1)
      && Items(server, start, budget) == given + ItemsAfter(server, cursor, left)
      && match AfterPage(server, cursor) {
           case To(next) => OnTrack(server, start, budget, given, asked, next, left - 1)
           case end =>
             && Items(server, start, budget) == given && Cursors(server, start, budget + 1) == asked
             && WalkEnd(server, start, budget) == if end.LastPage? then Finished else Stuck
         }
  {
    hide Items, ItemsAfter, Cursors, WalkEnd, AfterPage;
    ChainStep(server, cursor, left);
    ChainStep(server, cursor, left + 1);
    var items, rest := server(cursor).items, ItemsAfter(server, cursor, left);
    assert delivered + (items + rest) == delivered + items + rest;
    if AfterPage(server, cursor).To? {
      var more := Cursors(server, AfterPage(server, cursor).cursor, left);
      assert requested + ([cursor] + more) == requested + [cursor] + more;
    } else {
      assert delivered + items + [] == delivered + items;
    }
  }

  /**
    What a walk comes to: the items of the chain of pages up to the callback's first refusal, and the cursors
    of that chain requested in order; all of them, a failing last one included, unless the callback refuses, and
    none after the page with the item it refuses.
   */
  ghost predicate IsWalk<T>(server: Server<T>, start: string, budget: nat, failure: string,
                            callback: seq<T> -> Reply,
                            outcome: Outcome, delivered: seq<T>, requested: seq<string>)
  {
    var d := Deliver(callback, Items(server, start, budget));
    && delivered == d.items
    && outcome == OutcomeOf(d.reply, WalkEnd(server, start, budget), failure)
    && requested <= Cursors(server, start, budget + 1)
    && (d.reply.Continue? ==>
          && requested == Cursors(server, start, budget + 1)
          && delivered == PageItems(server, if |requested| <= budget then requested else requested[..budget]))
    && (!d.reply.Continue? ==>
          && requested != [] && |requested| <= budget
          && |PageItems(server, requested[..|requested| - 1])| < |delivered|
          && delivered <= PageItems(server, requested))
  }

  method Iterate<T>(server: Server<T>, start: string, budget: nat, failure: string, callback: seq<T> -> Reply)
    returns (outcome: Outcome, delivered: seq<T>, requested: seq<string>)
    ensures IsWalk(server, start, budget, failure, callback, outcome, delivered, requested)
  {
    hide Deliver, Items, ItemsAfter, Cursors, WalkEnd, PageItems;
    var cursor := start;
    NoPages(server);
    delivered, requested := [], [];
    DeliverNothing(callback);
    ghost var left := budget;
    while true
      invariant OnTrack(server, start, budget, delivered, requested, cursor, left)
      invariant Deliver(callback, delivered) == Delivery(delivered, Continue)
      invariant delivered == PageItems(server, requested) && |requested| <= budget
      decreases left
    {
      if |requested| == budget {
        TrackUnanswered(server, start, budget, delivered, requested, cursor);
        assert (requested + [cursor])[..budget] == requested;
        return RequestFailed(failure), delivered, requested + [cursor];
      }
      TrackPage(server, start, budget, delivered, requested, cursor, left);
      hide OnTrack;
      OneMorePage(server, requested, cursor);
      assert (requested + [cursor])[..|requested|] == requested;
      requested := requested + [cursor];
      var page := server(cursor);
      ghost var given := delivered + page.items;
      var d := HandPage(callback, delivered, page.items);
      delivered := d.items;
      if !d.reply.Continue? {
        RefusalSticks(callback, given, ItemsAfter(server, cursor, left));
        return if d.reply.Fail? then CallbackFailed(d.reply.cause) else Stopped, delivered, requested;
      }
      match AdvanceCursor(cursor, page.next) {
        case NotAdvanced => return NotAdvancing, delivered, requested;
        case LastPage => return Walked, delivered, requested;
        case To(next) =>
          cursor := next;
          left := left - 1;
      }
    }
  }

  // ---------------------------------------------------------------- the walk in terms of pages

  /** Each page names the next: a cursor that is not empty and not the page's own. */
  ghost predicate IsChain<T>(server: Server<T>, start: string, cursors: seq<string>)
  {
    && cursors != [] && cursors[0] == start
    && forall i :: 0 < i < |cursors| ==>
         server(cursors[i - 1]).next == Some(cursors[i]) && cursors[i] != "" && cursors[i] != cursors[i - 1]
  }

  lemma AdvanceIs(current: string, next: Option<string>)
    ensures AdvanceCursor(current, next).LastPage? <==> next in {None, Some("")}
    ensures AdvanceCursor(current, next).NotAdvanced? <==> next == Some(current) && current != ""
    ensures forall c :: AdvanceCursor(current, next) == To(c) <==> next == Some(c) && c != "" && c != current
  {
  }

  lemma {:induction false} CursorsAreChain<T>(server: Server<T>, cursor: string, budget: nat)
    ensures budget > 0 ==> IsChain(server, cursor, Cursors(server, cursor, budget))
    ensures |Cursors(server, cursor, budget)| <= budget
    decreases budget
  {
    ChainStep(server, cursor, budget);
    AdvanceIs(cursor, server(cursor).next);
    hide Cursors, WalkEnd, Items, ItemsAfter, AdvanceCursor;
    if budget > 0 && AfterPage(server, cursor).To? {
      var next := AfterPage(server, cursor).cursor;
      CursorsAreChain(server, next, budget - 1);
      if budget > 1 {
        ChainLink(server, cursor, next, Cursors(server, next, budget - 1));
      } else {
        ChainStep(server, next, 0);
      }
    }
  }

  lemma ChainLink<T>(server: Server<T>, cursor: string, next: string, rest: seq<string>)
    requires server(cursor).next == Some(next) && next != "" && next != cursor && IsChain(server, next, rest)
    ensures IsChain(server, cursor, [cursor] + rest)
  {
    var all := [cursor] + rest;
    forall i | 0 < i < |all|
      ensures server(all[i - 1]).next == Some(all[i]) && all[i] != "" && all[i] != all[i - 1]
    {
      if i > 1 {
        assert all[i] == rest[i - 1] && all[i - 1] == rest[i - 1 - 1];
      }
    }
  }

  /** How a walk ends, from the last page it asks for. */
  lemma {:induction false} EndFromCursors<T>(server: Server<T>, cursor: string, budget: nat)
    ensures var all := Cursors(server, cursor, budget + 1);
      && all != []
      && var last := all[|all| - 1];
      && (WalkEnd(server, cursor, budget) == CutShort <==> |all| == budget + 1)
      && (|all| <= budget ==>
            && server(last).next in {None, Some(""), Some(last)}
            && (WalkEnd(server, cursor, budget) == Finished <==> server(last).next in {None, Some("")}))
    decreases budget
  {
    ChainStep(server, cursor, budget);
    ChainStep(server, cursor, budget + 1);
    AdvanceIs(cursor, server(cursor).next);
    CursorsAreChain(server, cursor, budget + 1);
    hide Cursors, WalkEnd, Items, ItemsAfter, AdvanceCursor, IsChain;
    if AfterPage(server, cursor).To? {
      var next := AfterPage(server, cursor).cursor;
      if budget > 0 {
        EndFromCursors(server, next, budget - 1);
      } else {
        ChainStep(server, next, 0);
      }
    }
  }

  /**
    Every result of `Iterate`, from the pages themselves. The cursors requested are a chain from the start. With a
    callback that takes everything, the walk succeeds exactly when the last page it got names no next page, is
    stuck exactly when that page names itself, and fails exactly when a request after the budget was needed;
    otherwise the callback's answer is the result, at the page with the item it refused.
   */
  lemma WalkFromPages<T>(server: Server<T>, start: string, budget: nat, failure: string, callback: seq<T> -> Reply,
                         outcome: Outcome, delivered: seq<T>, requested: seq<string>)
    requires IsWalk(server, start, budget, failure, callback, outcome, delivered, requested)
    ensures IsChain(server, start, requested) && |requested| <= budget + 1
    ensures var last := requested[|requested| - 1];
      match outcome
      case Walked => |requested| <= budget && server(last).next in {None, Some("")}
                     && delivered == PageItems(server, requested)
      case NotAdvancing => |requested| <= budget && server(last).next == Some(last) && last != ""
                           && delivered == PageItems(server, requested)
      case RequestFailed(cause) => |requested| == budget + 1 && cause == failure
                                   && delivered == PageItems(server, requested[..budget])
      case Stopped => |requested| <= budget && delivered != [] && callback(delivered) == Stop
                      && delivered <= PageItems(server, requested)
                      && |PageItems(server, requested[..|requested| - 1])| < |delivered|
      case CallbackFailed(cause) => |requested| <= budget && delivered != [] && callback(delivered) == Fail(cause)
                                    && delivered <= PageItems(server, requested)
                                    && |PageItems(server, requested[..|requested| - 1])| < |delivered|
    ensures forall n :: 0 < n < |delivered| ==> callback(delivered[..n]) == Continue
    ensures outcome in {Walked, NotAdvancing, RequestFailed(failure)} && delivered != [] ==> callback(delivered) == Continue
  {
    hide Deliver, Items, Cursors, WalkEnd, PageItems;
    var items := Items(server, start, budget);
    var d := Deliver(callback, items);
    DeliverStopsAtFirstRefusal(callback, items);
    assert forall n :: 0 < n < |d.items| ==> d.items[..n] == items[..n];
    CursorsAreChain(server, start, budget + 1);
    EndFromCursors(server, start, budget);
    ChainPrefix(server, start, Cursors(server, start, budget + 1), requested);
    hide IsChain, UpToFirstRefusal;
  }

  lemma ChainPrefix<T>(server: Server<T>, start: string, all: seq<string>, requested: seq<string>)
    requires IsChain(server, start, all) && requested <= all
    ensures requested != [] ==> IsChain(server, start, requested)
  {
  }

  // ---------------------------------------------------------------- what the walk promises

  /** No cursor is requested twice in a row. */
  lemma {:induction false} NeverTwiceInARow<T>(server: Server<T>, cursor: string, budget: nat)
    ensures budget > 0 ==> Cursors(server, cursor, budget) != [] && Cursors(server, cursor, budget)[0] == cursor
    ensures forall i :: 0 < i < |Cursors(server, cursor, budget)| ==>
              Cursors(server, cursor, budget)[i - 1] != Cursors(server, cursor, budget)[i]
    decreases budget
  {
    if budget > 0 && AfterPage(server, cursor).To? {
      var next := AfterPage(server, cursor).cursor;
      NeverTwiceInARow(server, next, budget - 1);
      var rest := Cursors(server, next, budget - 1);
      assert Cursors(server, cursor, budget) == [cursor] + rest;
    }
  }

  /** No cursor is asked for twice. */
  ghost predicate AllDifferent(cursors: seq<string>)
  {
    forall i, j :: 0 <= i < j < |cursors| ==> cursors[i] != cursors[j]
  }

  lemma {:induction false} EndedLengthIsFixed<T>(server: Server<T>, cursor: string, b: nat, c: nat)
    requires WalkEnd(server, cursor, b) != CutShort && WalkEnd(server, cursor, c) != CutShort
    ensures |Cursors(server, cursor, b)| == |Cursors(server, cursor, c)|
    decreases b
  {
    if AfterPage(server, cursor).To? {
      EndedLengthIsFixed(server, AfterPage(server, cursor).cursor, b - 1, c - 1);
    }
  }

  /** A walk that has ended cannot be made longer; one that has not has asked for a page at every request. */
  lemma {:induction false} EndedWalkIsLongest<T>(server: Server<T>, cursor: string, b: nat, e: nat)
    ensures WalkEnd(server, cursor, e) != CutShort ==>
              && Cursors(server, cursor, b) <= Cursors(server, cursor, e)
              && (e <= b ==> WalkEnd(server, cursor, b) == WalkEnd(server, cursor, e))
    ensures WalkEnd(server, cursor, e) == CutShort ==> |Cursors(server, cursor, e)| == e
    decreases e
  {
    if e > 0 && AfterPage(server, cursor).To? {
      EndedWalkIsLongest(server, AfterPage(server, cursor).cursor, if b > 0 then b - 1 else 0, e - 1);
    }
  }

  /** From the `i`-th cursor on, the walk is the walk from that cursor. */
  lemma {:induction false} WalkFrom<T>(server: Server<T>, cursor: string, budget: nat, i: nat)
    requires i < |Cursors(server, cursor, budget)|
    ensures i < budget
    ensures Cursors(server, cursor, budget)[i..] ==
            Cursors(server, Cursors(server, cursor, budget)[i], budget - i)
    ensures WalkEnd(server, cursor, budget) ==
            WalkEnd(server, Cursors(server, cursor, budget)[i], budget - i)
    decreases budget
  {
    var all := Cursors(server, cursor, budget);
    if i == 0 {
      assert all[0..] == all;
    } else {
      var next := AfterPage(server, cursor).cursor;
      var rest := Cursors(server, next, budget - 1);
      WalkFrom(server, next, budget - 1, i - 1);
      assert all == [cursor] + rest && all[i..] == rest[i - 1..] && all[i] == rest[i - 1];
    }
  }

  /** A walk that ends by itself requests no cursor twice, so it delivers every page once. */
  lemma EndedWalkNeverRepeats<T>(server: Server<T>, cursor: string, budget: nat)
    requires WalkEnd(server, cursor, budget) != CutShort
    ensures AllDifferent(Cursors(server, cursor, budget))
  {
    var all := Cursors(server, cursor, budget);
    forall i, j | 0 <= i < j < |all| ensures all[i] != all[j] {
      WalkFrom(server, cursor, budget, i);
      WalkFrom(server, cursor, budget, j);
      hide Cursors, WalkEnd;
      if all[i] == all[j] {
        EndedLengthIsFixed(server, all[i], budget - i, budget - j);
      }
    }
  }

  // ---------------------------------------------------------------- when the walk ends

  /** Once any cursor has come back, at any distance, the walk never ends by itself. */
  lemma RepeatMeansEndless<T>(server: Server<T>, cursor: string, b: nat, e: nat)
    requires !AllDifferent(Cursors(server, cursor, b))
    ensures WalkEnd(server, cursor, e) == CutShort
  {
    hide Cursors, WalkEnd;
    if WalkEnd(server, cursor, e) != CutShort {
      EndedWalkIsLongest(server, cursor, b, e);
      EndedWalkNeverRepeats(server, cursor, e);
    }
  }

  /** More places than values: some value comes twice. */
  lemma {:induction false} Pigeonhole(cursors: seq<string>, known: set<string>)
    requires AllDifferent(cursors) && forall c :: c in cursors ==> c in known
    ensures |cursors| <= |known|
  {
    if cursors != [] {
      Pigeonhole(cursors[1..], known - {cursors[0]});
    }
  }

  /** The cursors in `known` lead nowhere else. */
  ghost predicate Closed<T>(server: Server<T>, known: set<string>)
  {
    forall c :: c in known && AfterPage(server, c).To? ==> AfterPage(server, c).cursor in known
  }

  lemma {:induction false} WalkStaysInside<T>(server: Server<T>, cursor: string, budget: nat, known: set<string>)
    requires cursor in known && Closed(server, known)
    ensures forall c :: c in Cursors(server, cursor, budget) ==> c in known
    decreases budget
  {
    if budget > 0 && AfterPage(server, cursor).To? {
      WalkStaysInside(server, AfterPage(server, cursor).cursor, budget - 1, known);
    }
  }

  /**
    On a server with finitely many cursors the walk ends by itself exactly when no cursor comes back, and then
    within as many requests as there are cursors; one request more than that settles the question.
   */
  lemma WalkEndsIff<T>(server: Server<T>, cursor: string, known: set<string>)
    requires cursor in known && Closed(server, known)
    ensures WalkEnd(server, cursor, |known|) != CutShort <==> AllDifferent(Cursors(server, cursor, |known| + 1))
    ensures WalkEnd(server, cursor, |known| + 1) != CutShort <==> AllDifferent(Cursors(server, cursor, |known| + 1))
    ensures (exists e :: WalkEnd(server, cursor, e) != CutShort) <==>
            AllDifferent(Cursors(server, cursor, |known| + 1))
  {
    hide Cursors, WalkEnd, Closed, AllDifferent;
    var n := |known|;
    if AllDifferent(Cursors(server, cursor, n + 1)) {
      WalkStaysInside(server, cursor, n + 1, known);
      Pigeonhole(Cursors(server, cursor, n + 1), known);
      EndedWalkIsLongest(server, cursor, n, n + 1);
      EndsInItsLength(server, cursor, n + 1, n);
    } else {
      forall e: nat ensures WalkEnd(server, cursor, e) == CutShort {
        RepeatMeansEndless(server, cursor, n + 1, e);
      }
    }
  }

  /** A walk that ends by itself ends within as many requests as it makes. */
  lemma {:induction false} EndsInItsLength<T>(server: Server<T>, cursor: string, e: nat, b: nat)
    requires WalkEnd(server, cursor, e) != CutShort && |Cursors(server, cursor, e)| <= b
    ensures WalkEnd(server, cursor, b) != CutShort
    decreases e
  {
    if AfterPage(server, cursor).To? {
      EndsInItsLength(server, AfterPage(server, cursor).cursor, e - 1, b - 1);
    }
  }

  /** A server whose second page leads to a cycle of two: the guard compares neighbours and never fires. */
  function CyclingServer(cursor: string): Page<int>
  {
    Page([0], Some(if cursor == "a" then "b" else "a"))
  }

  lemma CycleIsNotDetected(budget: nat)
    ensures WalkEnd(CyclingServer, "", budget) == CutShort
  {
    var first := Cursors(CyclingServer, "", 4);
    assert first[1] == first[3];
    RepeatMeansEndless(CyclingServer, "", 4, budget);
  }

  // ---------------------------------------------------------------- a server that keeps its promise

  /** Each cursor of the list is smaller than the one before, by some measure. */
  ghost predicate Descends(cursors: seq<string>, rank: string -> nat)
  {
    forall i :: 0 < i < |cursors| ==> rank(cursors[i]) < rank(cursors[i - 1])
  }

  lemma DescendsOn(cursor: string, rest: seq<string>, rank: string -> nat)
    requires Descends([cursor] + rest, rank) && rest != []
    ensures Descends(rest, rank) && rank(rest[0]) < rank(cursor)
  {
    var all := [cursor] + rest;
    assert all[1] == rest[0] && all[0] == cursor;
    forall i | 0 < i < |rest| ensures rank(rest[i]) < rank(rest[i - 1]) {
      assert all[i + 1] == rest[i] && all[i + 1 - 1] == rest[i - 1];
    }
  }

  /** If the cursors given out descend a rank, the walk ends by itself within rank(start) + 1 requests. */
  lemma {:induction false} DescendingWalkEnds<T>(server: Server<T>, rank: string -> nat, cursor: string, budget: nat)
    requires budget > rank(cursor) && Descends(Cursors(server, cursor, budget + 1), rank)
    ensures WalkEnd(server, cursor, budget) != CutShort
    ensures |Cursors(server, cursor, budget)| <= rank(cursor) + 1
    decreases budget
  {
    hide Cursors, WalkEnd, Items, ItemsAfter, Descends, AfterPage;
    ChainStep(server, cursor, budget);
    ChainStep(server, cursor, budget + 1);
    if AfterPage(server, cursor).To? {
      var next := AfterPage(server, cursor).cursor;
      ChainStep(server, next, budget);
      DescendsOn(cursor, Cursors(server, next, budget), rank);
      DescendingWalkEnds(server, rank, next, budget - 1);
    }
  }

  /** Only such walks end: the number of pages still to come is a rank. */
  lemma EndingWalkDescends<T>(server: Server<T>, cursor: string, e: nat) returns (rank: string -> nat, budget: nat)
    requires WalkEnd(server, cursor, e) != CutShort
    ensures budget > rank(cursor) && Descends(Cursors(server, cursor, budget + 1), rank)
  {
    rank := c => |Cursors(server, c, e)|;
    var all := Cursors(server, cursor, e);
    budget := |all| + 1 + e;
    EndedWalkIsLongest(server, cursor, budget + 1, e);
    EndedWalkIsLongest(server, cursor, e, budget + 1);
    hide Cursors, WalkEnd;
    assert Cursors(server, cursor, budget + 1) == all;
    forall i | 0 <= i < |all| ensures |Cursors(server, all[i], e)| == |all| - i {
      PagesToCome(server, cursor, e, i);
    }
  }

  lemma PagesToCome<T>(server: Server<T>, cursor: string, e: nat, i: nat)
    requires WalkEnd(server, cursor, e) != CutShort && i < |Cursors(server, cursor, e)|
    ensures |Cursors(server, Cursors(server, cursor, e)[i], e)| == |Cursors(server, cursor, e)| - i
  {
    WalkFrom(server, cursor, e, i);
    hide Cursors, WalkEnd;
    var at := Cursors(server, cursor, e)[i];
    EndedWalkIsLongest(server, at, e, e - i);
    EndedLengthIsFixed(server, at, e, e - i);
  }

  /** The whole chain of pages: a chain whose last page names no other. */
  ghost predicate IsWholeChain<T>(server: Server<T>, start: string, cursors: seq<string>)
  {
    && IsChain(server, start, cursors)
    && var last := cursors[|cursors| - 1];
    server(last).next in {None, Some(""), Some(last)}
  }

  lemma {:induction false} EndedWalkIsWholeChain<T>(server: Server<T>, cursor: string, budget: nat)
    requires WalkEnd(server, cursor, budget) != CutShort
    ensures IsWholeChain(server, cursor, Cursors(server, cursor, budget))
  {
    hide Cursors, WalkEnd;
    CursorsAreChain(server, cursor, budget);
    EndFromCursors(server, cursor, budget);
    EndedWalkIsLongest(server, cursor, budget, budget + 1);
    EndedWalkIsLongest(server, cursor, budget + 1, budget);
    assert Cursors(server, cursor, budget) == Cursors(server, cursor, budget + 1);
  }

  /** The callback never refuses while it is handed these items. */
  ghost predicate Tireless<T>(callback: seq<T> -> Reply, items: seq<T>)
  {
    forall n :: 0 < n <= |items| ==> callback(items[..n]) == Continue
  }

  lemma TirelessSeesAll<T>(callback: seq<T> -> Reply, items: seq<T>)
    requires Tireless(callback, items)
    ensures Deliver(callback, items) == Delivery(items, Continue)
  {
    hide Deliver;
    DeliverStopsAtFirstRefusal(callback, items);
    var d := Deliver(callback, items);
    assert d.items == items[..|d.items|];
  }

  /**
    The walk as the SDK promises it. From a server whose cursors descend a rank, with time enough for that many
    requests and a callback that takes every item it is given: the walk follows the whole chain of pages,
    delivers every item of every page in order, asks for no cursor twice, and succeeds unless the last page
    names itself.
   */
  lemma CompleteWalk<T>(server: Server<T>, start: string, budget: nat, failure: string,
                        callback: seq<T> -> Reply, rank: string -> nat,
                        outcome: Outcome, delivered: seq<T>, requested: seq<string>)
    requires IsWalk(server, start, budget, failure, callback, outcome, delivered, requested)
    requires budget > rank(start) && Descends(Cursors(server, start, budget + 1), rank)
    requires Tireless(callback, Items(server, start, budget))
    ensures IsWholeChain(server, start, requested) && AllDifferent(requested)
    ensures delivered == PageItems(server, requested)
    ensures outcome == if server(requested[|requested| - 1]).next in {None, Some("")} then Walked else NotAdvancing
  {
    hide Deliver, Tireless, Items, Cursors, WalkEnd, Descends, AllDifferent, PageItems, IsChain;
    EndFromCursors(server, start, budget);
    TirelessSeesAll(callback, Items(server, start, budget));
    DescendingWalkEnds(server, rank, start, budget);
    EndedWalkIsLongest(server, start, budget, budget + 1);
    EndedWalkIsLongest(server, start, budget + 1, budget);
    assert requested == Cursors(server, start, budget);
    EndedWalkNeverRepeats(server, start, budget);
    EndedWalkIsWholeChain(server, start, budget);
  }
}
