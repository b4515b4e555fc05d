/**
  The order in which credit lots are spent (packages/api-types/src/ai-credits.ts). Instants are time values
  in milliseconds; ids are sequences of UTF-16 code units, compared as JavaScript compares strings.
 */
module SpendOrder {

  type Id = seq<nat>

  datatype Kind = Monthly | Proration | Adjustment | TopUp

  datatype Lot = Lot(kind: Kind, expiresAt: int, createdAt: int, id: Id)

  /** Included credits, then goodwill, then bought credits. */
  function Rank(k: Kind): int
  {
    match k
    case Monthly => 0
    case Proration => 0
    case Adjustment => 1
    case TopUp => 2
  }

  /** JavaScript's `<` on strings. */
  predicate IdLess(a: Id, b: Id)
  {
    b != [] && (a == [] || a[0] < b[0] || (a[0] == b[0] && IdLess(a[1..], b[1..])))
  }

  function Compare(a: Lot, b: Lot): int
  {
    var rank := Rank(a.kind) - Rank(b.kind);
    if rank != 0 then rank
    else
      var expiry := a.expiresAt - b.expiresAt;
      if expiry != 0 then expiry
      else
        var created := a.createdAt - b.createdAt;
        if created != 0 then created
        else if IdLess(a.id, b.id) then -1 else if IdLess(b.id, a.id) then 1 else 0
  }

  lemma {:induction false} IdTrichotomy(a: Id, b: Id)
    ensures IdLess(a, b) ==> !IdLess(b, a) && a != b
    ensures !IdLess(a, b) && !IdLess(b, a) ==> a == b
  {
    if a != [] && b != [] && a[0] == b[0] {
      IdTrichotomy(a[1..], b[1..]);
      assert a == [a[0]] + a[1..] && b == [b[0]] + b[1..];
    }
  }

  lemma {:induction false} IdTransitive(a: Id, b: Id, c: Id)
    requires IdLess(a, b) && IdLess(b, c)
    ensures IdLess(a, c)
  {
    if a != [] && a[0] == b[0] == c[0] {
      IdTransitive(a[1..], b[1..], c[1..]);
    }
  }

  /** A proper prefix is less, and otherwise the first difference decides. */
  lemma {:induction false} IdLessIs(a: Id, b: Id)
    ensures IdLess(a, b) <==>
            exists n :: 0 <= n <= |a| && n < |b| && a[..n] == b[..n] && (n == |a| || a[n] < b[n])
  {
    if a != [] && b != [] && a[0] == b[0] {
      var x, y := a[1..], b[1..];
      IdLessIs(x, y);
      if IdLess(x, y) {
        var n :| 0 <= n <= |x| && n < |y| && x[..n] == y[..n] && (n == |x| || x[n] < y[n]);
        assert a[..n + 1] == [a[0]] + x[..n] && b[..n + 1] == [b[0]] + y[..n];
      }
      if n :| 0 <= n <= |a| && n < |b| && a[..n] == b[..n] && (n == |a| || a[n] < b[n]) {
        assert n > 0;
        assert x[..n - 1] == a[..n][1..] && y[..n - 1] == b[..n][1..];
      }
    } else if IdLess(a, b) {
      assert a[..0] == b[..0];
    } else if n :| 0 <= n <= |a| && n < |b| && a[..n] == b[..n] && (n == |a| || a[n] < b[n]) {
      if n > 0 {
        assert a[..n][0] == b[..n][0];
      }
    }
  }

  predicate Included(k: Kind)
  {
    k in {Monthly, Proration}
  }

  /** Included credits before all others, goodwill before bought ones. */
  predicate GroupBefore(j: Kind, k: Kind)
  {
    (Included(j) && !Included(k)) || (j == Adjustment && k == TopUp)
  }

  predicate SameGroup(j: Kind, k: Kind)
  {
    j == k || (Included(j) && Included(k))
  }

  /** The comparator exactly: by group, then the sooner expiry, then the older lot, then the smaller id. */
  lemma CompareExactly(a: Lot, b: Lot)
    ensures Compare(a, b) < 0 <==>
            || GroupBefore(a.kind, b.kind)
            || (SameGroup(a.kind, b.kind) &&
                (|| a.expiresAt < b.expiresAt
                 || (a.expiresAt == b.expiresAt && a.createdAt < b.createdAt)
                 || (a.expiresAt == b.expiresAt && a.createdAt == b.createdAt && IdLess(a.id, b.id))))
  {
  }

  /** The comparator is a strict order that ties only lots with one id. */
  lemma CompareIsTotalOrder(a: Lot, b: Lot, c: Lot)
    ensures (Compare(a, b) < 0) <==> (Compare(b, a) > 0)
    ensures Compare(a, b) == 0 ==> a.id == b.id
    ensures Compare(a, b) < 0 && Compare(b, c) < 0 ==> Compare(a, c) < 0
    ensures Compare(a, a) == 0
  {
    IdTrichotomy(a.id, b.id);
    IdTrichotomy(b.id, a.id);
    IdTrichotomy(a.id, a.id);
    if IdLess(a.id, b.id) && IdLess(b.id, c.id) {
      IdTransitive(a.id, b.id, c.id);
    }
  }

  ghost predicate DistinctIds(lots: seq<Lot>)
  {
    forall i, j :: 0 <= i < j < |lots| ==> lots[i].id != lots[j].id
  }

  /** What a sort by `Compare` produces: no lot is followed by one that should precede it. */
  ghost predicate InSpendOrder(lots: seq<Lot>)
  {
    forall i :: 0 < i < |lots| ==> Compare(lots[i - 1], lots[i]) <= 0
  }

  /** With distinct ids, neighbours in order put every earlier lot strictly before every later one. */
  lemma {:induction false} StrictlyOrdered(lots: seq<Lot>, i: nat, j: nat)
    requires DistinctIds(lots) && InSpendOrder(lots) && i < j < |lots|
    ensures Compare(lots[i], lots[j]) < 0
    decreases j
  {
    CompareIsTotalOrder(lots[j - 1], lots[j], lots[j]);
    if i < j - 1 {
      StrictlyOrdered(lots, i, j - 1);
      CompareIsTotalOrder(lots[i], lots[j - 1], lots[j]);
    }
  }

  /** No bought credit is spent before an included or goodwill one. */
  lemma BoughtCreditsLast(lots: seq<Lot>, i: nat, j: nat)
    requires DistinctIds(lots) && InSpendOrder(lots) && i < j < |lots|
    ensures lots[i].kind == TopUp ==> lots[j].kind == TopUp
    ensures lots[i].kind == Adjustment ==> lots[j].kind in {Adjustment, TopUp}
    ensures SameGroup(lots[i].kind, lots[j].kind) || GroupBefore(lots[i].kind, lots[j].kind)
    ensures SameGroup(lots[i].kind, lots[j].kind) ==>
              || lots[i].expiresAt < lots[j].expiresAt
              || (lots[i].expiresAt == lots[j].expiresAt && lots[i].createdAt < lots[j].createdAt)
              || (lots[i].expiresAt == lots[j].expiresAt && lots[i].createdAt == lots[j].createdAt
                  && IdLess(lots[i].id, lots[j].id))
  {
    StrictlyOrdered(lots, i, j);
    CompareExactly(lots[i], lots[j]);
  }

  /** The same lots have one spend order: two sorted arrangements of them are equal. */
  lemma {:induction false} SpendOrderIsUnique(x: seq<Lot>, y: seq<Lot>)
    requires multiset(x) == multiset(y)
    requires DistinctIds(x) && InSpendOrder(x) && DistinctIds(y) && InSpendOrder(y)
    ensures x == y
  {
    hide InSpendOrder, DistinctIds;
    assert |multiset(x)| == |x| && |multiset(y)| == |y|;
    if x != [] {
      SameFirst(x, y);
      RestInOrder(x);
      RestInOrder(y);
      SpendOrderIsUnique(x[1..], y[1..]);
      assert x == [x[0]] + x[1..] && y == [y[0]] + y[1..];
    }
  }

  lemma RestInOrder(x: seq<Lot>)
    requires x != [] && DistinctIds(x) && InSpendOrder(x)
    ensures DistinctIds(x[1..]) && InSpendOrder(x[1..])
    ensures multiset(x[1..]) == multiset(x) - multiset{x[0]}
  {
    hide Compare;
    assert x == [x[0]] + x[1..];
  }

  lemma SameFirst(x: seq<Lot>, y: seq<Lot>)
    requires x != [] && y != [] && multiset(x) == multiset(y)
    requires DistinctIds(x) && InSpendOrder(x) && DistinctIds(y) && InSpendOrder(y)
    ensures x[0] == y[0]
  {
    assert x[0] in multiset(y) && y[0] in multiset(x);
    var i :| 0 <= i < |y| && y[i] == x[0];
    var j :| 0 <= j < |x| && x[j] == y[0];
    if i > 0 {
      StrictlyOrdered(y, 0, i);
    }
    if j > 0 {
      StrictlyOrdered(x, 0, j);
    }
    CompareIsTotalOrder(x[0], y[0], y[0]);
  }
}
