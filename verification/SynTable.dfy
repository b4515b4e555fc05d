/**
  The observer's bounded table of SYN signatures (infra/os-observer/observer.py): an ordered dictionary from
  (address, port) to the latest signature, least recently observed first, and the lookup rule over it.
 */
module SynTable {
  import opened Wrappers
  import opened SynPacket

  const MAX_ENTRIES: nat := 4096
  const TTL_SECONDS: real := 900.0

  datatype Key = Key(address: string, port: int)

  /** One observed SYN. */
  datatype Sighting = Sighting(key: Key, sig: Signature)

  // ---------------------------------------------------------------- what the table should hold

  function Without(keys: seq<Key>, key: Key): seq<Key>
  {
    if keys == [] then []
    else if keys[0] == key then Without(keys[1..], key)
    else [keys[0]] + Without(keys[1..], key)
  }

  /** Every key ever observed, once, in the order of its last observation. */
  function ByLastSeen(history: seq<Sighting>): seq<Key>
  {
    if history == [] then []
    else
      var last := history[|history| - 1].key;
      Without(ByLastSeen(history[..|history| - 1]), last) + [last]
  }

  function Newest(keys: seq<Key>, n: nat): seq<Key>
  {
    if |keys| <= n then keys else keys[|keys| - n..]
  }

  /** The latest signature observed for `key`. */
  function Latest(history: seq<Sighting>, key: Key): (s: Option<Signature>)
    ensures s.Some? <==> exists i :: 0 <= i < |history| && history[i].key == key
  {
    if history == [] then None
    else if history[|history| - 1].key == key then Some(history[|history| - 1].sig)
    else Latest(history[..|history| - 1], key)
  }

  /** It is the signature of the last sighting of the key. */
  lemma {:induction false} LatestIsLast(history: seq<Sighting>, key: Key, i: nat)
    requires i < |history| && history[i].key == key && forall j :: i < j < |history| ==> history[j].key != key
    ensures Latest(history, key) == Some(history[i].sig)
  {
    if i < |history| - 1 {
      LatestIsLast(history[..|history| - 1], key, i);
    }
  }

  ghost predicate Distinct(keys: seq<Key>)
  {
    forall i, j :: 0 <= i < j < |keys| ==> keys[i] != keys[j]
  }

  // ---------------------------------------------------------------- facts about the order

  lemma {:induction false} WithoutMembers(keys: seq<Key>, key: Key)
    ensures forall k :: k in Without(keys, key) <==> k in keys && k != key
  {
    if keys != [] {
      WithoutMembers(keys[1..], key);
      assert forall k :: k in keys <==> k == keys[0] || k in keys[1..];
    }
  }

  lemma DistinctCons(first: Key, rest: seq<Key>)
    ensures Distinct([first] + rest) <==> first !in rest && Distinct(rest)
  {
    var all := [first] + rest;
    assert forall j :: 0 <= j < |rest| ==> all[j + 1] == rest[j];
    if Distinct(all) {
      forall j | 0 <= j < |rest| ensures rest[j] != first {
        assert all[j + 1] != all[0];
      }
      forall i, j | 0 <= i < j < |rest| ensures rest[i] != rest[j] {
        assert all[i + 1] != all[j + 1];
      }
    }
  }

  lemma {:induction false} WithoutDistinct(keys: seq<Key>, key: Key)
    requires Distinct(keys)
    ensures Distinct(Without(keys, key))
    ensures |Without(keys, key)| == |keys| - (if key in keys then 1 else 0)
  {
    if keys != [] {
      var rest := keys[1..];
      hide Distinct;
      assert keys == [keys[0]] + rest;
      DistinctCons(keys[0], rest);
      DistinctCons(keys[0], Without(rest, key));
      WithoutDistinct(rest, key);
      WithoutMembers(rest, key);
    }
  }

  lemma {:induction false} WithoutAppend(x: seq<Key>, y: seq<Key>, key: Key)
    ensures Without(x + y, key) == Without(x, key) + Without(y, key)
  {
    hide Without, FirstUnless;
    if x == [] {
      WithoutNothing(key);
      assert x + y == y;
    } else {
      WithoutAppend(x[1..], y, key);
      WithoutFirst(x, key);
      WithoutFirst(x + y, key);
      assert (x + y)[1..] == x[1..] + y && (x + y)[0] == x[0];
      var first := FirstUnless(x[0], key);
      assert first + (Without(x[1..], key) + Without(y, key)) == first + Without(x[1..], key) + Without(y, key);
    }
  }

  function FirstUnless(first: Key, key: Key): seq<Key>
  {
    if first == key then [] else [first]
  }

  lemma WithoutNothing(key: Key)
    ensures Without([], key) == []
  {
  }

  lemma WithoutFirst(keys: seq<Key>, key: Key)
    requires keys != []
    ensures Without(keys, key) == FirstUnless(keys[0], key) + Without(keys[1..], key)
  {
  }

  lemma {:induction false} WithoutAbsent(keys: seq<Key>, key: Key)
    requires key !in keys
    ensures Without(keys, key) == keys
  {
    if keys != [] {
      WithoutAbsent(keys[1..], key);
    }
  }

  lemma {:induction false} ByLastSeenDistinct(history: seq<Sighting>)
    ensures Distinct(ByLastSeen(history))
    ensures forall k :: k in ByLastSeen(history) <==> Latest(history, k).Some?
  {
    if history != [] {
      var front, last := history[..|history| - 1], history[|history| - 1].key;
      var before := ByLastSeen(front);
      ByLastSeenDistinct(front);
      WithoutDistinct(before, last);
      WithoutMembers(before, last);
      hide Without;
      var left := Without(before, last);
      assert ByLastSeen(history) == left + [last];
      assert forall j :: 0 <= j < |left| ==> left[j] in left;
    }
  }

  lemma NewestSuffix(x: seq<Key>, y: seq<Key>, n: nat)
    requires |y| >= n
    ensures Newest(x + y, n) == Newest(y, n)
  {
  }

  /** Updating only the newest entries keeps the newest entries. */
  lemma NewestStep(keys: seq<Key>, key: Key, n: nat)
    requires Distinct(keys) && n > 0
    ensures Newest(Without(keys, key) + [key], n) == Newest(Without(Newest(keys, n), key) + [key], n)
  {
    if |keys| > n {
      var cut := |keys| - n;
      NewestStepCut(keys[..cut], keys[cut..], key, n);
      assert keys == keys[..cut] + keys[cut..];
    }
  }

  lemma NewestStepCut(oldest: seq<Key>, kept: seq<Key>, key: Key, n: nat)
    requires Distinct(oldest + kept) && n == |kept| > 0
    ensures Newest(Without(oldest + kept, key) + [key], n) == Newest(Without(kept, key) + [key], n)
  {
    WithoutAppend(oldest, kept, key);
    DistinctPart(oldest, kept);
    WithoutDistinct(kept, key);
    hide Without, Newest;
    var rest := Without(kept, key) + [key];
    assert Without(oldest, key) + Without(kept, key) + [key] == Without(oldest, key) + rest;
    NewestSuffix(Without(oldest, key), rest, n);
  }

  /** Assigning a key and moving it to the end, as one step on the order of keys. */
  lemma MovedToEnd(before: seq<Key>, key: Key)
    ensures Without(before + [key], key) == Without(before, key)
  {
    WithoutAppend(before, [key], key);
    assert Without([key], key) == [];
  }

  lemma LatestStep(history: seq<Sighting>, s: Sighting)
    ensures forall k :: Latest(history + [s], k) == if k == s.key then Some(s.sig) else Latest(history, k)
  {
    assert (history + [s])[..|history|] == history;
  }

  lemma ByLastSeenStep(history: seq<Sighting>, s: Sighting)
    ensures ByLastSeen(history + [s]) == Without(ByLastSeen(history), s.key) + [s.key]
  {
    assert (history + [s])[..|history|] == history;
  }

  /** What one observation makes of the order, before and after eviction. */
  lemma ObservedOrder(history: seq<Sighting>, s: Sighting)
    ensures var before := Newest(ByLastSeen(history), MAX_ENTRIES);
      var moved := Without(before, s.key) + [s.key];
      && Newest(moved, MAX_ENTRIES) == Newest(ByLastSeen(history + [s]), MAX_ENTRIES)
      && |moved| == |before| + (if s.key in before then 0 else 1)
      && |before| <= MAX_ENTRIES
      && Distinct(moved)
      && forall k :: k in moved <==> k in before || k == s.key
  {
    hide Without, ByLastSeen;
    var all, before := ByLastSeen(history), Newest(ByLastSeen(history), MAX_ENTRIES);
    ByLastSeenStep(history, s);
    ByLastSeenDistinct(history);
    NewestStep(all, s.key, MAX_ENTRIES);
    assert all == all[..|all| - |before|] + before;
    DistinctPart(all[..|all| - |before|], before);
    WithoutDistinct(before, s.key);
    WithoutMembers(before, s.key);
    var kept := Without(before, s.key);
    assert forall i :: 0 <= i < |kept| ==> kept[i] in kept;
  }

  lemma FirstIsGone(moved: seq<Key>, order: seq<Key>)
    requires order != [] && order == moved && Distinct(moved)
    ensures forall k :: k in order[1..] <==> k in order && k != order[0]
  {
    forall k ensures k in order[1..] <==> k in order && k != order[0] {
      if k in order && k != order[0] {
        var i :| 0 <= i < |order| && order[i] == k;
        assert order[1..][i - 1] == k;
      }
    }
  }

  lemma NewestOf(moved: seq<Key>, order: seq<Key>, evicted: nat)
    requires evicted <= 1 && evicted <= |moved| && order == moved[evicted..] && |order| <= MAX_ENTRIES
    requires evicted == 1 ==> |moved| == MAX_ENTRIES + 1
    ensures order == Newest(moved, MAX_ENTRIES)
  {
  }

  // ---------------------------------------------------------------- which keys are held

  /** The keys observed since the last observation of `key`, `key` itself left out. */
  function SeenSince(history: seq<Sighting>, key: Key): set<Key>
  {
    if history == [] || history[|history| - 1].key == key then {}
    else SeenSince(history[..|history| - 1], key) + {history[|history| - 1].key}
  }

  /** `key` was observed, and fewer than 4,096 other keys since. */
  ghost predicate Held(history: seq<Sighting>, key: Key)
  {
    Latest(history, key).Some? && |SeenSince(history, key)| < 4_096
  }

  /** The keys that come after `key` in the order are exactly those observed since. */
  lemma {:induction false} OrderAroundKey(history: seq<Sighting>, key: Key) returns (x: seq<Key>, y: seq<Key>)
    requires Latest(history, key).Some?
    ensures ByLastSeen(history) == x + [key] + y
    ensures forall k :: k in y <==> k in SeenSince(history, key)
    ensures |SeenSince(history, key)| == |y|
  {
    var front, last := history[..|history| - 1], history[|history| - 1].key;
    if last == key {
      x, y := Without(ByLastSeen(front), key), [];
    } else {
      var u, v := OrderAroundKey(front, key);
      ByLastSeenDistinct(front);
      AroundStep(u, key, v, last);
      x, y := Without(u, last), Without(v, last) + [last];
      hide Without, Latest;
      assert SeenSince(history, key) == SeenSince(front, key) + {last};
    }
  }

  /** Moving another key to the end, around `key`. */
  lemma AroundStep(u: seq<Key>, key: Key, v: seq<Key>, last: Key)
    requires Distinct(u + [key] + v) && last != key
    ensures Without(u + [key] + v, last) + [last] == Without(u, last) + [key] + (Without(v, last) + [last])
    ensures forall k :: k in Without(v, last) + [last] <==> k in v || k == last
    ensures |Without(v, last) + [last]| == |v| + if last in v then 0 else 1
  {
    WithoutAppend(u + [key], v, last);
    WithoutAppend(u, [key], last);
    WithoutAbsent([key], last);
    WithoutMembers(v, last);
    DistinctPart(u + [key], v);
    WithoutDistinct(v, last);
  }

  lemma DistinctPart(x: seq<Key>, y: seq<Key>)
    requires Distinct(x + y)
    ensures Distinct(y)
  {
    forall i, j | 0 <= i < j < |y| ensures y[i] != y[j] {
      assert (x + y)[|x| + i] == y[i] && (x + y)[|x| + j] == y[j];
    }
  }

  /** An entry is kept exactly while fewer than 4,096 other keys have been observed since. */
  lemma HeldIffKept(history: seq<Sighting>, key: Key)
    ensures Held(history, key) <==> key in Newest(ByLastSeen(history), MAX_ENTRIES)
  {
    var all := ByLastSeen(history);
    ByLastSeenDistinct(history);
    hide ByLastSeen, Latest, SeenSince;
    if Latest(history, key).Some? {
      var x, y := OrderAroundKey(history, key);
      var kept := Newest(all, MAX_ENTRIES);
      if |y| < MAX_ENTRIES {
        assert kept[|kept| - |y| - 1] == key;
      } else {
        assert all[|x|] == key;
        assert forall j :: 0 <= j < |kept| ==> kept[j] == all[|all| - |kept| + j];
      }
    } else {
      assert forall k :: k in Newest(all, MAX_ENTRIES) ==> k in all;
    }
  }

  // ---------------------------------------------------------------- the table

  /** The SYNs among the packets, as the table keys them. */
  function SightingsIn(packets: seq<(seq<Byte>, int)>, ports: set<int>): seq<Sighting>
  {
    if packets == [] then []
    else
      var (packet, now) := packets[|packets| - 1];
      SightingsIn(packets[..|packets| - 1], ports) +
      match SynIn(packet, ports, now)
      case None => []
      case Some(syn) => [Sighting(Key(syn.source, syn.dstPort), syn.sig)]
  }

  datatype Query = Plain(address: string) | Vantage(address: string, port: Option<int>)

  datatype Answer = Found(sig: Signature) | NotObserved | PortNotAnInteger | PortNotSniffed

  class Table {
    /** The dictionary's keys in order, and its values. */
    var order: seq<Key>
    var sigs: map<Key, Signature>

    const observerPort: int
    const ports: set<int>

    /** Every SYN recorded so far. */
    ghost var history: seq<Sighting>

    ghost predicate Valid()
      reads this
    {
      && observerPort in ports
      && order == Newest(ByLastSeen(history), MAX_ENTRIES)
      && (forall k :: k in sigs <==> k in order)
      && (forall k :: k in sigs ==> Latest(history, k) == Some(sigs[k]))
    }

    constructor (observerPort: int, webPort: int)
      ensures Valid() && history == []
      ensures this.observerPort == observerPort && ports == {observerPort, webPort}
    {
      this.observerPort := observerPort;
      ports := {observerPort, webPort};
      order, sigs, history := [], map[], [];
    }

    /** `popitem(last=False)` while there are too many entries; it runs once for the one entry too many. */
    method EvictOldest() returns (evicted: nat)
      requires Distinct(order) && |order| <= MAX_ENTRIES + 1
      requires forall k :: k in sigs <==> k in order
      modifies this`order, this`sigs
      ensures order == Newest(old(order), MAX_ENTRIES)
      ensures forall k :: k in sigs <==> k in order
      ensures forall k :: k in sigs ==> k in old(sigs) && sigs[k] == old(sigs)[k]
      ensures evicted == if |old(order)| > MAX_ENTRIES then 1 else 0
    {
      ghost var moved, values := order, sigs;
      evicted := 0;
      while |order| > MAX_ENTRIES
        invariant evicted <= 1 && evicted <= |moved| && order == moved[evicted..]
        invariant evicted == 1 ==> |moved| == MAX_ENTRIES + 1
        invariant forall k :: k in sigs <==> k in order
        invariant forall k :: k in sigs ==> k in values && sigs[k] == values[k]
      {
        assert order == moved;
        FirstIsGone(moved, order);
        sigs := sigs - {order[0]};
        order := order[1..];
        evicted := evicted + 1;
      }
      NewestOf(moved, order, evicted);
    }

    /**
      Records one SYN: assign, move to the end, evict from the front while too many. At most one entry is
      evicted.
     */
    method Observe(key: Key, sig: Signature) returns (evicted: nat)
      requires Valid()
      modifies this
      ensures Valid() && history == old(history) + [Sighting(key, sig)]
      ensures evicted == if key !in old(sigs) && |old(order)| == 4_096 then 1 else 0
    {
      hide ByLastSeen, Newest, Without, Latest;
      ghost var before := order;
      ObservedOrder(history, Sighting(key, sig));
      LatestStep(history, Sighting(key, sig));
      if key !in sigs {
        order := order + [key];
      }
      sigs := sigs[key := sig];
      MovedToEnd(before, key);
      order := Without(order, key) + [key];
      evicted := EvictOldest();
      history := history + [Sighting(key, sig)];
    }

    /** The sniffing loop over the packets that arrive, each with its time of arrival. */
    method Sniff(packets: seq<(seq<Byte>, int)>)
      requires Valid()
      modifies this
      ensures Valid() && history == old(history) + SightingsIn(packets, ports)
    {
      hide ByLastSeen, Newest, Latest, SynIn;
      ghost var before := history;
      for i := 0 to |packets|
        invariant Valid() && history == before + SightingsIn(packets[..i], ports)
      {
        assert packets[..i + 1][..i] == packets[..i];
        var parsed := ParseSyn(packets[i].0, ports, packets[i].1);
        if parsed.Some? {
          var _ := Observe(Key(parsed.value.source, parsed.value.dstPort), parsed.value.sig);
        }
      }
      assert packets[..|packets|] == packets;
    }

    /** The rule of `GET /sig/<address>[/<port>]`. */
    method Lookup(query: Query, now: real) returns (answer: Answer)
      requires Valid()
      ensures query.Vantage? && query.port.None? ==> answer == PortNotAnInteger
      ensures query.Vantage? && query.port.Some? && query.port.value !in ports ==> answer == PortNotSniffed
      ensures forall sig :: answer == Found(sig) ==>
                query.Plain? || (query.port.Some? && query.port.value in ports)
      ensures query.Plain? || (query.port.Some? && query.port.value in ports) ==>
                var key := Key(query.address, if query.Plain? then observerPort else query.port.value);
                match answer
                case Found(sig) => Held(history, key) && Latest(history, key) == Some(sig)
                                   && now - sig.seenAt as real <= 900.0
                case NotObserved => !Held(history, key)
                                    || now - Latest(history, key).value.seenAt as real > 900.0
                case _ => false
    {
      var port := observerPort;
      if query.Vantage? {
        if query.port.None? {
          return PortNotAnInteger;
        }
        port := query.port.value;
        if port !in ports {
          return PortNotSniffed;
        }
      }
      var key := Key(query.address, port);
      HeldIffKept(history, key);
      if key !in sigs || now - sigs[key].seenAt as real > TTL_SECONDS {
        return NotObserved;
      }
      answer := Found(sigs[key]);
    }
  }
}
