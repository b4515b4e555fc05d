/**
  Callbacks that may stop the caller or fail. A callback's answer to an item is a function of every item it
  has been given so far, that one last, so it may keep any state it likes.
 */
module Callbacks {

  datatype Reply = Continue | Stop | Fail(cause: string)

  /** The items handed over, and the answer to the last one. */
  datatype Delivery<+T> = Delivery(items: seq<T>, reply: Reply)

  /** Hand over items in order for as long as the callback continues. */
  function Deliver<T>(callback: seq<T> -> Reply, items: seq<T>): Delivery<T>
  {
    if items == [] then Delivery([], Continue)
    else
      var before := Deliver(callback, items[..|items| - 1]);
      if !before.reply.Continue? then before
      else
        var given := before.items + [items[|items| - 1]];
        Delivery(given, callback(given))
  }

  /** Whether `d` is `items` up to and including the first one the callback does not continue after. */
  ghost predicate UpToFirstRefusal<T>(callback: seq<T> -> Reply, items: seq<T>, d: Delivery<T>)
  {
    && d.items <= items
    && (forall n :: 0 < n < |d.items| ==> callback(items[..n]) == Continue)
    && (d.items != [] ==> d.reply == callback(d.items))
    && (d.reply == Continue ==> d.items == items)
    && (d.items == [] ==> d.reply == Continue)
  }

  /** The callback gets exactly the items up to its first refusal, each once and in order. */
  lemma {:induction false} DeliverStopsAtFirstRefusal<T>(callback: seq<T> -> Reply, items: seq<T>)
    ensures UpToFirstRefusal(callback, items, Deliver(callback, items))
  {
    if items != [] {
      var front := items[..|items| - 1];
      DeliverStopsAtFirstRefusal(callback, front);
      assert front + [items[|items| - 1]] == items;
      assert forall n :: 0 < n <= |front| ==> items[..n] == front[..n];
    }
  }

  /** Nothing else satisfies that description. */
  lemma FirstRefusalIsUnique<T>(callback: seq<T> -> Reply, items: seq<T>, d: Delivery<T>, e: Delivery<T>)
    requires UpToFirstRefusal(callback, items, d) && UpToFirstRefusal(callback, items, e)
    ensures d == e
  {
    assert d.items == items[..|d.items|] && e.items == items[..|e.items|];
  }

  lemma {:induction false} RefusalSticks<T>(callback: seq<T> -> Reply, x: seq<T>, y: seq<T>)
    requires !Deliver(callback, x).reply.Continue?
    ensures Deliver(callback, x + y) == Deliver(callback, x)
  {
    if y == [] {
      assert x + y == x;
    } else {
      RefusalSticks(callback, x, y[..|y| - 1]);
      assert (x + y)[..|x + y| - 1] == x + y[..|y| - 1];
    }
  }

  /** Handing over one more item. */
  lemma DeliverOneMore<T>(callback: seq<T> -> Reply, items: seq<T>, item: T)
    requires Deliver(callback, items).reply.Continue?
    ensures Deliver(callback, items + [item]) == Delivery(items + [item], callback(items + [item]))
  {
    assert (items + [item])[..|items|] == items;
    DeliverStopsAtFirstRefusal(callback, items);
  }
}
