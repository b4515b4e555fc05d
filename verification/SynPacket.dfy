/**
  Reading one raw packet (infra/os-observer/observer.py): the fields of an initial TCP SYN that identify the
  sender's network stack, above all the order of its TCP options.
 */
module SynPacket {
  import opened Wrappers
  import opened GoText
  import opened GoNumbers

  type Byte = b: int | 0 <= b < 256

  datatype Signature = Signature(ttl: int, df: bool, window: int, mss: Option<int>, wscale: Option<int>,
                                 options: seq<Byte>, seenAt: int, dstPort: int)

  /** A SYN to an observed port; `source` is the sender's address in dotted-quad form. */
  datatype Syn = Syn(source: string, dstPort: int, sig: Signature)

  /** A Python slice `s[lo:hi]` for `lo`, `hi` >= 0. */
  function Slice(s: seq<Byte>, lo: nat, hi: nat): (r: seq<Byte>)
    ensures |r| <= |s|
  {
    var end := if hi <= |s| then hi else |s|;
    if lo <= end then s[lo..end] else []
  }

  function Word(hi: Byte, lo: Byte): int
  {
    hi * 256 + lo
  }

  // ---------------------------------------------------------------- options

  /** One entry of an option list: its kind and what its length byte says is its body, as far as present. */
  datatype Entry = Entry(kind: Byte, body: seq<Byte>)

  /** The entries read from the bytes of an option list, up to its end, an EOL or a malformed length. */
  function Entries(opts: seq<Byte>): seq<Entry>
    decreases |opts|
  {
    if opts == [] then []
    else if opts[0] == 0 then [Entry(0, [])]
    else if opts[0] == 1 then [Entry(1, [])] + Entries(opts[1..])
    else if |opts| < 2 || opts[1] < 2 then [Entry(opts[0], [])]
    else [Entry(opts[0], Slice(opts, 2, opts[1]))] + Entries(Slice(opts, opts[1], |opts|))
  }

  function Kinds(entries: seq<Entry>): (kinds: seq<Byte>)
    ensures |kinds| == |entries|
    ensures forall i :: 0 <= i < |kinds| ==> kinds[i] == entries[i].kind
  {
    seq(|entries|, i requires 0 <= i < |entries| => entries[i].kind)
  }

  predicate GivesMss(e: Entry) { e.kind == 2 && |e.body| == 2 }

  predicate GivesScale(e: Entry) { e.kind == 3 && |e.body| == 1 }

  function NextMss(e: Entry, before: Option<int>): Option<int>
  {
    if GivesMss(e) then Some(Word(e.body[0], e.body[1])) else before
  }

  function NextScale(e: Entry, before: Option<int>): Option<int>
  {
    if GivesScale(e) then Some(e.body[0]) else before
  }

  /** The last maximum segment size given, or `before`. */
  function LastMss(entries: seq<Entry>, before: Option<int>): Option<int>
  {
    if entries == [] then before else LastMss(entries[1..], NextMss(entries[0], before))
  }

  /** The last window scale given, or `before`. */
  function LastScale(entries: seq<Entry>, before: Option<int>): Option<int>
  {
    if entries == [] then before else LastScale(entries[1..], NextScale(entries[0], before))
  }

  /** `mss` and `wscale` are what the entries before `rest` gave. */
  ghost predicate Reads(all: seq<Entry>, order: seq<Byte>, mss: Option<int>, wscale: Option<int>, rest: seq<Entry>)
  {
    && order + Kinds(rest) == Kinds(all)
    && LastMss(rest, mss) == LastMss(all, None)
    && LastScale(rest, wscale) == LastScale(all, None)
  }

  lemma KindsStep(rest: seq<Entry>)
    requires rest != []
    ensures Kinds(rest) == [rest[0].kind] + Kinds(rest[1..])
  {
  }

  lemma LastStep(rest: seq<Entry>, mss: Option<int>, wscale: Option<int>)
    requires rest != []
    ensures LastMss(rest, mss) == LastMss(rest[1..], NextMss(rest[0], mss))
    ensures LastScale(rest, wscale) == LastScale(rest[1..], NextScale(rest[0], wscale))
  {
    hide NextMss, NextScale;
  }

  lemma ReadsOne(all: seq<Entry>, order: seq<Byte>, mss: Option<int>, wscale: Option<int>, rest: seq<Entry>)
    requires Reads(all, order, mss, wscale, rest) && rest != []
    ensures Reads(all, order + [rest[0].kind], NextMss(rest[0], mss), NextScale(rest[0], wscale), rest[1..])
  {
    KindsStep(rest);
    LastStep(rest, mss, wscale);
    hide NextMss, NextScale, Kinds, LastMss, LastScale;
    assert order + ([rest[0].kind] + Kinds(rest[1..])) == order + [rest[0].kind] + Kinds(rest[1..]);
  }

  lemma ReadsAll(all: seq<Entry>, order: seq<Byte>, mss: Option<int>, wscale: Option<int>)
    ensures Reads(all, order, mss, wscale, []) <==>
            order == Kinds(all) && mss == LastMss(all, None) && wscale == LastScale(all, None)
    ensures Reads(all, [], None, None, all)
  {
    assert order + Kinds([]) == order;
    assert [] + Kinds(all) == Kinds(all);
  }

  /** The first entry of a non-empty list, and what is left to read after it. */
  lemma EntriesShape(opts: seq<Byte>)
    requires opts != []
    ensures Entries(opts) != []
    ensures Entries(opts)[0] ==
            Entry(opts[0], if opts[0] > 1 && |opts| >= 2 && opts[1] >= 2 then Slice(opts, 2, opts[1]) else [])
    ensures Entries(opts)[1..] ==
            if opts[0] == 1 then Entries(opts[1..])
            else if opts[0] > 1 && |opts| >= 2 && opts[1] >= 2 then Entries(Slice(opts, opts[1], |opts|))
            else []
  {
  }

  lemma SliceOfRest(opts: seq<Byte>, i: nat, lo: nat, hi: nat)
    requires i <= |opts|
    ensures Slice(opts[i..], lo, hi) == Slice(opts, i + lo, i + hi)
  {
  }

  lemma SliceToEnd(opts: seq<Byte>, i: nat)
    ensures Slice(opts, i, |opts|) == if i <= |opts| then opts[i..] else []
  {
  }

  lemma NoEntries()
    ensures Entries([]) == []
  {
  }

  method ReadOptions(opts: seq<Byte>) returns (order: seq<Byte>, mss: Option<int>, wscale: Option<int>)
    ensures order == Kinds(Entries(opts))
    ensures mss == LastMss(Entries(opts), None)
    ensures wscale == LastScale(Entries(opts), None)
  {
    hide Entries, Kinds, LastMss, LastScale, Slice, Reads;
    order, mss, wscale := [], None, None;
    ghost var all := Entries(opts);
    var i := 0;
    SliceToEnd(opts, 0);
    assert opts[0..] == opts;
    ReadsAll(all, order, mss, wscale);
    while i < |opts|
      invariant 0 <= i
      invariant Reads(all, order, mss, wscale, Entries(Slice(opts, i, |opts|)))
      decreases |opts| - i
    {
      var kind := opts[i];
      ghost var here := opts[i..];
      SliceToEnd(opts, i);
      EntriesShape(here);
      ReadsOne(all, order, mss, wscale, Entries(here));
      order := order + [kind];
      ReadsAll(all, order, mss, wscale);
      if kind == 0 {
        return;
      }
      if kind == 1 {
        SliceToEnd(opts, i + 1);
        assert here[1..] == opts[i + 1..];
        i := i + 1;
        continue;
      }
      if i + 1 >= |opts| {
        return;
      }
      var length := opts[i + 1];
      if length < 2 {
        return;
      }
      SliceOfRest(opts, i, 2, length);
      SliceOfRest(opts, i, length, |here|);
      var body := Slice(opts, i + 2, i + length);
      if kind == 2 && |body| == 2 {
        mss := Some(Word(body[0], body[1]));
      } else if kind == 3 && |body| == 1 {
        wscale := Some(body[0]);
      }
      i := i + length;
    }
    SliceToEnd(opts, i);
    NoEntries();
    ReadsAll(all, order, mss, wscale);
  }

  // ---------------------------------------------------------------- the packet

  /** `socket.inet_ntoa`. */
  function DottedQuad(address: seq<Byte>): string
    requires |address| == 4
  {
    Join(QuadParts(address), ".")
  }

  function QuadParts(address: seq<Byte>): seq<string>
    requires |address| == 4
  {
    [FormatNat(address[0]), FormatNat(address[1]), FormatNat(address[2]), FormatNat(address[3])]
  }

  /** Different addresses have different texts, so keying by the text is keying by the address. */
  lemma DottedQuadInjective(a: seq<Byte>, b: seq<Byte>)
    requires |a| == 4 && |b| == 4 && DottedQuad(a) == DottedQuad(b)
    ensures a == b
  {
    var x, y := QuadParts(a), QuadParts(b);
    forall i | 0 <= i < 4 ensures x[i] == FormatNat(a[i]) && y[i] == FormatNat(b[i]) && '.' !in x[i] && '.' !in y[i] {
      NoDot(a[i]);
      NoDot(b[i]);
    }
    SplitJoin(x, '.');
    SplitJoin(y, '.');
    hide FormatNat;
    forall i | 0 <= i < 4 ensures a[i] == b[i] {
      FormatNatValue(a[i]);
      FormatNatValue(b[i]);
      assert x[i] == y[i];
    }
  }

  /** The text is the four numbers in order, most significant first, with dots between them. */
  lemma DottedQuadReads(a: seq<Byte>)
    requires |a| == 4
    ensures var parts := Split(DottedQuad(a), ".");
      |parts| == 4 && forall i :: 0 <= i < 4 ==> ParseInt(parts[i]) == Some(a[i])
  {
    var x := QuadParts(a);
    forall i | 0 <= i < 4 ensures '.' !in x[i] && ParseInt(x[i]) == Some(a[i]) {
      NoDot(a[i]);
      ParseFormatted(a[i]);
      assert x[i] == FormatInt(a[i]);
    }
    hide ParseInt, FormatNat;
    SplitJoin(x, '.');
  }

  lemma NoDot(n: nat)
    ensures '.' !in FormatNat(n)
  {
    FormatNatValue(n);
  }

  predicate Bit(n: int, mask: int)
    requires mask > 0
  {
    n / mask % 2 == 1
  }

  /** What the packet holds if it is an initial SYN to one of `ports`. */
  function SynIn(pkt: seq<Byte>, ports: set<int>, now: int): Option<Syn>
  {
    if |pkt| < 40 || pkt[0] / 16 != 4 || pkt[9] != 6 then None
    else
      var tcp := Slice(pkt, pkt[0] % 16 * 4, |pkt|);
      if |tcp| < 20 then None
      else
        var port := Word(tcp[2], tcp[3]);
        if port !in ports || !Bit(tcp[13], 0x02) || Bit(tcp[13], 0x10) then None
        else
          var entries := Entries(Slice(tcp, 20, tcp[12] / 16 * 4));
          Some(Syn(DottedQuad(pkt[12..16]), port,
                   Signature(pkt[8], Bit(Word(pkt[6], pkt[7]), 0x4000), Word(tcp[14], tcp[15]),
                             LastMss(entries, None), LastScale(entries, None), Kinds(entries), now, port)))
  }

  /** Total on every byte string: every read is in bounds and the option loop ends. */
  method ParseSyn(pkt: seq<Byte>, ports: set<int>, now: int) returns (r: Option<Syn>)
    ensures r == SynIn(pkt, ports, now)
  {
    hide Entries;
    if |pkt| < 40 {
      return None;
    }
    var verIhl := pkt[0];
    if verIhl / 16 != 4 {
      return None;
    }
    var ihl := verIhl % 16 * 4;
    var ttl, proto := pkt[8], pkt[9];
    if proto != 6 {
      return None;
    }
    var df := Bit(Word(pkt[6], pkt[7]), 0x4000);
    var tcp := Slice(pkt, ihl, |pkt|);
    if |tcp| < 20 {
      return None;
    }
    var dstPort := Word(tcp[2], tcp[3]);
    if dstPort !in ports {
      return None;
    }
    var dataOff := tcp[12] / 16 * 4;
    var tcpFlags := tcp[13];
    if !Bit(tcpFlags, 0x02) || Bit(tcpFlags, 0x10) {
      return None;
    }
    var window := Word(tcp[14], tcp[15]);
    var order, mss, wscale := ReadOptions(Slice(tcp, 20, dataOff));
    r := Some(Syn(DottedQuad(pkt[12..16]), dstPort, Signature(ttl, df, window, mss, wscale, order, now, dstPort)));
  }

  // ---------------------------------------------------------------- round trips

  /** An option list as section 3.1 of RFC 9293 writes it: NOPs, and options of a kind, a length and a body. */
  datatype TcpOption = Nop | Opt(kind: Byte, body: seq<Byte>)

  predicate WellFormed(o: TcpOption)
  {
    o.Opt? ==> o.kind > 1 && |o.body| <= 253
  }

  function Bytes(o: TcpOption): seq<Byte>
    requires WellFormed(o)
  {
    match o
    case Nop => [1]
    case Opt(kind, body) => [kind, |body| + 2] + body
  }

  ghost predicate AllWellFormed(list: seq<TcpOption>)
  {
    forall i :: 0 <= i < |list| ==> WellFormed(list[i])
  }

  /** How a list can end: at its end, with an EOL and any padding, or with an option cut short or of no valid length. */
  predicate IsTail(tail: seq<Byte>)
  {
    tail == [] || tail[0] == 0 || (tail[0] > 1 && (|tail| < 2 || tail[1] < 2 || |tail| < tail[1]))
  }

  /** What is read of an ending: an EOL, or the kind of the broken option and as much of a body as there is. */
  function TailEntries(tail: seq<Byte>): seq<Entry>
  {
    if tail == [] then []
    else if tail[0] == 0 then [Entry(0, [])]
    else [Entry(tail[0], if |tail| >= 2 && tail[1] >= 2 then tail[2..] else [])]
  }

  /** The list on the wire. */
  function Wire(list: seq<TcpOption>, tail: seq<Byte>): seq<Byte>
    requires AllWellFormed(list)
  {
    if list == [] then tail else Bytes(list[0]) + Wire(list[1..], tail)
  }

  function EntryOf(o: TcpOption): Entry
  {
    match o case Nop => Entry(1, []) case Opt(kind, body) => Entry(kind, body)
  }

  function EntriesOf(list: seq<TcpOption>): (entries: seq<Entry>)
    ensures |entries| == |list|
    ensures forall i :: 0 <= i < |list| ==> entries[i] == EntryOf(list[i])
  {
    seq(|list|, i requires 0 <= i < |list| => EntryOf(list[i]))
  }

  /** Reading a list gives back its options in order, followed by what its ending holds. */
  lemma {:induction false} OptionRoundTrip(list: seq<TcpOption>, tail: seq<Byte>)
    requires AllWellFormed(list) && IsTail(tail)
    ensures Entries(Wire(list, tail)) == EntriesOf(list) + TailEntries(tail)
  {
    hide Entries;
    if list == [] {
      ReadTail(tail);
      assert EntriesOf(list) == [];
    } else {
      var rest := Wire(list[1..], tail);
      OptionRoundTrip(list[1..], tail);
      FirstOption(list[0], rest);
      assert EntriesOf(list) == [EntryOf(list[0])] + EntriesOf(list[1..]);
    }
  }

  lemma ReadTail(tail: seq<Byte>)
    requires IsTail(tail)
    ensures Entries(tail) == TailEntries(tail)
  {
    if |tail| >= 2 && tail[0] > 1 && tail[1] >= 2 {
      assert Slice(tail, 2, tail[1]) == tail[2..] && Slice(tail, tail[1], |tail|) == [];
    }
  }

  /** Every byte string is such a list, so this says what is read of all of them. */
  lemma {:induction false} EveryListIsWritten(opts: seq<Byte>) returns (list: seq<TcpOption>, tail: seq<Byte>)
    ensures AllWellFormed(list) && IsTail(tail) && Wire(list, tail) == opts
    decreases |opts|
  {
    if IsTail(opts) {
      list, tail := [], opts;
    } else {
      var first := if opts[0] == 1 then Nop else Opt(opts[0], opts[2..opts[1]]);
      var n := if opts[0] == 1 then 1 else opts[1];
      var rest;
      rest, tail := EveryListIsWritten(opts[n..]);
      list := [first] + rest;
      assert list[1..] == rest && Bytes(first) == opts[..n] && opts == opts[..n] + opts[n..];
    }
  }

  lemma FirstOption(o: TcpOption, rest: seq<Byte>)
    requires WellFormed(o)
    ensures Entries(Bytes(o) + rest) == [EntryOf(o)] + Entries(rest)
  {
    var opts := Bytes(o) + rest;
    EntriesShape(opts);
    hide Entries;
    match o
    case Nop =>
      assert opts[1..] == rest;
      assert Entries(opts) == [Entries(opts)[0]] + Entries(opts)[1..];
    case Opt(kind, body) =>
      assert Slice(opts, 2, opts[1]) == body && Slice(opts, opts[1], |opts|) == rest;
      assert Entries(opts) == [Entries(opts)[0]] + Entries(opts)[1..];
  }

  /**
    The value reported is the one of the last entry that gives one: a maximum segment size is kind 2 with a body
    of two bytes, the high one first, a window scale kind 3 with one byte.
   */
  lemma LastOneWins(entries: seq<Entry>, i: nat)
    requires i < |entries|
    ensures entries[i].kind == 2 && |entries[i].body| == 2
            && (forall j :: i < j < |entries| ==> !(entries[j].kind == 2 && |entries[j].body| == 2))
            ==> LastMss(entries, None) == Some(Word(entries[i].body[0], entries[i].body[1]))
    ensures entries[i].kind == 3 && |entries[i].body| == 1
            && (forall j :: i < j < |entries| ==> !(entries[j].kind == 3 && |entries[j].body| == 1))
            ==> LastScale(entries, None) == Some(entries[i].body[0])
  {
    hide LastMss, LastScale, Word;
    LastGives(entries, i, None);
  }

  lemma NothingGiven(entries: seq<Entry>)
    ensures (forall j :: 0 <= j < |entries| ==> !(entries[j].kind == 2 && |entries[j].body| == 2))
            ==> LastMss(entries, None) == None
    ensures (forall j :: 0 <= j < |entries| ==> !(entries[j].kind == 3 && |entries[j].body| == 1))
            ==> LastScale(entries, None) == None
  {
    hide LastMss, LastScale;
    NoneGiven(entries, None);
  }

  lemma {:induction false} LastGives(entries: seq<Entry>, i: nat, before: Option<int>)
    requires i < |entries|
    ensures GivesMss(entries[i]) && (forall j :: i < j < |entries| ==> !GivesMss(entries[j])) ==>
              LastMss(entries, before) == Some(Word(entries[i].body[0], entries[i].body[1]))
    ensures GivesScale(entries[i]) && (forall j :: i < j < |entries| ==> !GivesScale(entries[j])) ==>
              LastScale(entries, before) == Some(entries[i].body[0])
  {
    var rest := entries[1..];
    assert forall j :: 0 <= j < |rest| ==> rest[j] == entries[j + 1];
    if i > 0 {
      LastGives(rest, i - 1, NextMss(entries[0], before));
      LastGives(rest, i - 1, NextScale(entries[0], before));
    } else {
      NoneGiven(rest, NextMss(entries[0], before));
      NoneGiven(rest, NextScale(entries[0], before));
    }
  }

  lemma {:induction false} NoneGiven(entries: seq<Entry>, before: Option<int>)
    ensures (forall j :: 0 <= j < |entries| ==> !GivesMss(entries[j])) ==> LastMss(entries, before) == before
    ensures (forall j :: 0 <= j < |entries| ==> !GivesScale(entries[j])) ==> LastScale(entries, before) == before
  {
    if entries != [] {
      var rest := entries[1..];
      NoneGiven(rest, before);
      assert forall j :: 0 <= j < |rest| ==> rest[j] == entries[j + 1];
    }
  }

  /** An IPv4 header; `fragment` is the more-fragments bit and the fragment offset. */
  datatype Ip = Ip(service: Byte, lengthAndId: seq<Byte>, reservedBit: bool, df: bool, fragment: int, ttl: Byte,
                   protocol: Byte, checksum: seq<Byte>, source: seq<Byte>, destination: seq<Byte>,
                   options: seq<Byte>)

  predicate ValidIp(h: Ip)
  {
    && |h.lengthAndId| == 4 && 0 <= h.fragment < 0x4000
    && |h.checksum| == 2 && |h.source| == 4 && |h.destination| == 4
    && |h.options| % 4 == 0 && |h.options| <= 40
  }

  /** The fixed part of a TCP header; `numbers` are the sequence and acknowledgement numbers. */
  datatype Tcp = Tcp(srcPort: seq<Byte>, dstPort: int, numbers: seq<Byte>, offset: int, reserved: int, flags: Byte,
                     window: int, checksumAndUrgent: seq<Byte>)

  predicate ValidTcp(h: Tcp)
  {
    && |h.srcPort| == 2 && 0 <= h.dstPort < 0x1_0000 && |h.numbers| == 8 && 0 <= h.offset < 16
    && 0 <= h.reserved < 16 && 0 <= h.window < 0x1_0000 && |h.checksumAndUrgent| == 4
  }

  function FragmentWord(h: Ip): (w: int)
    requires ValidIp(h)
    ensures 0 <= w < 0x1_0000
  {
    (if h.reservedBit then 0x8000 else 0) + (if h.df then 0x4000 else 0) + h.fragment
  }

  function IpBytes(h: Ip): (b: seq<Byte>)
    requires ValidIp(h)
    ensures |b| == 20 + |h.options|
  {
    [64 + 5 + |h.options| / 4, h.service] + h.lengthAndId
    + [FragmentWord(h) / 256, FragmentWord(h) % 256, h.ttl, h.protocol]
    + h.checksum + h.source + h.destination + h.options
  }

  function TcpBytes(h: Tcp): (b: seq<Byte>)
    requires ValidTcp(h)
    ensures |b| == 20
  {
    h.srcPort + [h.dstPort / 256, h.dstPort % 256] + h.numbers
    + [h.offset * 16 + h.reserved, h.flags, h.window / 256, h.window % 256] + h.checksumAndUrgent
  }

  /** The option bytes after the fixed header: up to the data offset in words of four bytes, as far as present. */
  function OptionBytes(offset: int, rest: seq<Byte>): seq<Byte>
  {
    var n := 4 * offset - 20;
    if n <= 0 then [] else if n <= |rest| then rest[..n] else rest
  }

  /**
    A segment is read back field by field, whatever else its headers hold, whatever its data offset claims and
    whatever follows, if it is an initial SYN to an observed port; every other segment is passed over.
   */
  lemma PacketRoundTrip(ip: Ip, tcp: Tcp, rest: seq<Byte>, ports: set<int>, now: int)
    requires ValidIp(ip) && ValidTcp(tcp)
    ensures var entries := Entries(OptionBytes(tcp.offset, rest));
      SynIn(IpBytes(ip) + (TcpBytes(tcp) + rest), ports, now) ==
      if ip.protocol == 6 && tcp.dstPort in ports && Bit(tcp.flags, 0x02) && !Bit(tcp.flags, 0x10) then
        Some(Syn(DottedQuad(ip.source), tcp.dstPort,
                 Signature(ip.ttl, ip.df, tcp.window, LastMss(entries, None), LastScale(entries, None),
                           Kinds(entries), now, tcp.dstPort)))
      else None
  {
    hide Entries, Kinds, LastMss, LastScale, IpBytes, TcpBytes, Slice, DottedQuad, OptionBytes, SynIn;
    IpFields(ip, TcpBytes(tcp) + rest);
    SegmentIsRead(IpBytes(ip) + (TcpBytes(tcp) + rest), tcp, rest, ports, now);
  }

  /**
    The same wherever the length field says the segment starts, inside the fixed IP header too: the IP fields
    are the bytes at their places, the TCP fields those of the segment.
   */
  lemma SegmentIsRead(pkt: seq<Byte>, tcp: Tcp, rest: seq<Byte>, ports: set<int>, now: int)
    requires |pkt| >= 40 && pkt[0] / 16 == 4 && ValidTcp(tcp)
    requires Slice(pkt, pkt[0] % 16 * 4, |pkt|) == TcpBytes(tcp) + rest
    ensures var entries := Entries(OptionBytes(tcp.offset, rest));
      SynIn(pkt, ports, now) ==
      if pkt[9] == 6 && tcp.dstPort in ports && Bit(tcp.flags, 0x02) && !Bit(tcp.flags, 0x10) then
        Some(Syn(DottedQuad(pkt[12..16]), tcp.dstPort,
                 Signature(pkt[8], Bit(Word(pkt[6], pkt[7]), 0x4000), tcp.window, LastMss(entries, None),
                           LastScale(entries, None), Kinds(entries), now, tcp.dstPort)))
      else None
  {
    hide Entries, Kinds, LastMss, LastScale, TcpBytes, Slice, DottedQuad, OptionBytes;
    TcpFields(tcp, rest);
  }

  /** Packets too short for both headers, or not IPv4, are passed over. */
  lemma OtherPacketsPassedOver(pkt: seq<Byte>, ports: set<int>, now: int)
    requires |pkt| < 40 || pkt[0] / 16 != 4 || |pkt| < pkt[0] % 16 * 4 + 20
    ensures SynIn(pkt, ports, now) == None
  {
    hide Entries;
  }

  lemma DfBit(h: Ip)
    requires ValidIp(h)
    ensures Bit(Word(FragmentWord(h) / 256, FragmentWord(h) % 256), 0x4000) == h.df
  {
    assert Word(FragmentWord(h) / 256, FragmentWord(h) % 256) == FragmentWord(h);
    assert FragmentWord(h) / 0x4000 == (if h.reservedBit then 2 else 0) + (if h.df then 1 else 0);
  }

  lemma IpFields(h: Ip, rest: seq<Byte>)
    requires ValidIp(h)
    ensures var pkt := IpBytes(h) + rest;
      && pkt[0] / 16 == 4 && pkt[0] % 16 * 4 == |IpBytes(h)| && pkt[8] == h.ttl && pkt[9] == h.protocol
      && Bit(Word(pkt[6], pkt[7]), 0x4000) == h.df && pkt[12..16] == h.source
      && Slice(pkt, |IpBytes(h)|, |pkt|) == rest
  {
    DfBit(h);
    hide Bit;
    var pkt := IpBytes(h) + rest;
    assert pkt[6] == FragmentWord(h) / 256 && pkt[7] == FragmentWord(h) % 256;
  }

  lemma WordParts(w: int)
    requires 0 <= w < 0x1_0000
    ensures Word(w / 256, w % 256) == w
  {
  }

  lemma OffsetNibble(offset: nat, reserved: nat)
    requires reserved < 16
    ensures (offset * 16 + reserved) / 16 == offset
  {
  }

  lemma TcpFields(h: Tcp, rest: seq<Byte>)
    requires ValidTcp(h)
    ensures var tcp := TcpBytes(h) + rest;
      && Word(tcp[2], tcp[3]) == h.dstPort && Word(tcp[14], tcp[15]) == h.window
      && tcp[13] == h.flags && Slice(tcp, 20, tcp[12] / 16 * 4) == OptionBytes(h.offset, rest)
  {
    WordParts(h.dstPort);
    WordParts(h.window);
    OffsetNibble(h.offset, h.reserved);
    hide Word;
    var tcp := TcpBytes(h) + rest;
    assert tcp[2] == h.dstPort / 256 && tcp[3] == h.dstPort % 256;
    assert tcp[14] == h.window / 256 && tcp[15] == h.window % 256;
    assert tcp[12] == h.offset * 16 + h.reserved;
    assert tcp[20..] == rest;
  }

  /** Every packet with room for both headers is a rendered one, so the round trip is about all of them. */
  lemma EveryPacketIsRendered(pkt: seq<Byte>) returns (ip: Ip, tcp: Tcp, rest: seq<Byte>)
    requires |pkt| >= 40 && pkt[0] / 16 == 4 && pkt[0] % 16 >= 5 && |pkt| >= pkt[0] % 16 * 4 + 20
    ensures ValidIp(ip) && ValidTcp(tcp) && pkt == IpBytes(ip) + (TcpBytes(tcp) + rest)
  {
    var ihl := pkt[0] % 16 * 4;
    ip := IpOf(pkt[..ihl]);
    var after := pkt[ihl..];
    tcp := TcpOf(after[..20]);
    rest := after[20..];
    hide IpBytes, TcpBytes;
    assert after == after[..20] + rest;
    assert pkt == pkt[..ihl] + after;
  }

  lemma IpOf(b: seq<Byte>) returns (h: Ip)
    requires 20 <= |b| <= 60 && |b| == b[0] % 16 * 4 && b[0] / 16 == 4
    ensures ValidIp(h) && IpBytes(h) == b
  {
    var w := Word(b[6], b[7]);
    h := Ip(b[1], b[2..6], w / 0x8000 == 1, w / 0x4000 % 2 == 1, w % 0x4000, b[8], b[9], b[10..12], b[12..16],
            b[16..20], b[20..]);
    SplitWord(w);
    assert FragmentWord(h) == w;
  }

  lemma SplitWord(w: int)
    requires 0 <= w < 0x1_0000
    ensures w == (if w / 0x8000 == 1 then 0x8000 else 0) + (if w / 0x4000 % 2 == 1 then 0x4000 else 0) + w % 0x4000
  {
  }

  lemma TcpOf(b: seq<Byte>) returns (h: Tcp)
    requires |b| == 20
    ensures ValidTcp(h) && TcpBytes(h) == b
  {
    h := Tcp(b[..2], Word(b[2], b[3]), b[4..12], b[12] / 16, b[12] % 16, b[13], Word(b[14], b[15]), b[16..20]);
    WordOf(b[2], b[3]);
    WordOf(b[14], b[15]);
    hide Word;
    var offset: Byte := b[12] / 16 * 16 + b[12] % 16;
    assert offset == b[12];
    assert b == b[..2] + [b[2], b[3]] + b[4..12] + [b[12], b[13], b[14], b[15]] + b[16..20];
  }

  lemma WordOf(hi: Byte, lo: Byte)
    ensures 0 <= Word(hi, lo) < 0x1_0000 && Word(hi, lo) / 256 == hi && Word(hi, lo) % 256 == lo
  {
  }
}
