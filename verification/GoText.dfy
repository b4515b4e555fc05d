/**
  The pieces of Go's `strings` package that the SDK's readers are built from.
  A Go string is a sequence of bytes; here it is a `string` with one `char` per byte.
 */
module GoText {

  /** `strings.Index`: the leftmost place where `sep` occurs, or -1. */
  function Index(s: string, sep: string): (i: int)
    requires sep != ""
    ensures i == -1 || (0 <= i && i + |sep| <= |s| && s[i..i + |sep|] == sep)
  {
    if sep <= s then 0
    else if s == "" then -1
    else
      var rest := Index(s[1..], sep);
      if rest < 0 then -1 else rest + 1
  }

  /** Whether `sep` occurs in `s` at `j`. */
  predicate OccursAt(s: string, sep: string, j: int)
  {
    0 <= j && j + |sep| <= |s| && s[j..j + |sep|] == sep
  }

  lemma OccursChars(s: string, sep: string, j: int)
    requires OccursAt(s, sep, j)
    ensures forall k :: 0 <= k < |sep| ==> s[j + k] == sep[k]
  {
    forall k | 0 <= k < |sep| ensures s[j + k] == sep[k] {
      assert s[j..j + |sep|][k] == sep[k];
    }
  }

  lemma IndexChars(s: string, sep: string)
    requires sep != ""
    ensures Index(s, sep) >= 0 ==> s[Index(s, sep)] == sep[0]
    ensures Index(s, sep) >= 0 && |sep| > 1 ==> s[Index(s, sep) + 1] == sep[1]
  {
    if Index(s, sep) >= 0 {
      OccursChars(s, sep, Index(s, sep));
    }
  }

  /** `Index` is the least occurrence, and is negative exactly when there is none. */
  lemma {:induction false} IndexLeast(s: string, sep: string)
    requires sep != ""
    ensures forall j :: OccursAt(s, sep, j) ==> 0 <= Index(s, sep) <= j
  {
    if !(sep <= s) && s != "" {
      IndexLeast(s[1..], sep);
      forall j | OccursAt(s, sep, j) ensures 0 <= Index(s, sep) <= j {
        assert j > 0;
        assert s[1..][j - 1..j - 1 + |sep|] == s[j..j + |sep|];
        assert OccursAt(s[1..], sep, j - 1);
      }
    }
  }

  /** `strings.Split`: the text between consecutive, leftmost, non-overlapping separators. */
  function Split(s: string, sep: string): (parts: seq<string>)
    requires sep != ""
    ensures |parts| >= 1
    decreases |s|
  {
    var i := Index(s, sep);
    if i < 0 then [s] else [s[..i]] + Split(s[i + |sep|..], sep)
  }

  /** `strings.Join`. */
  function Join(parts: seq<string>, sep: string): string
  {
    if parts == [] then ""
    else if |parts| == 1 then parts[0]
    else parts[0] + sep + Join(parts[1..], sep)
  }

  lemma JoinCons(head: string, parts: seq<string>, sep: string)
    requires parts != []
    ensures Join([head] + parts, sep) == head + sep + Join(parts, sep)
  {
    assert ([head] + parts)[1..] == parts;
  }

  /** Joining the parts of a split restores the text. */
  lemma {:induction false} JoinSplit(s: string, sep: string)
    requires sep != ""
    ensures Join(Split(s, sep), sep) == s
    decreases |s|
  {
    var i := Index(s, sep);
    if i >= 0 {
      var rest := s[i + |sep|..];
      var parts := Split(rest, sep);
      assert Join(parts, sep) == rest by { JoinSplit(rest, sep); }
      JoinCons(s[..i], parts, sep);
      assert s == s[..i] + sep + rest;
    }
  }

  function Last<T>(parts: seq<T>): T
    requires parts != []
  {
    parts[|parts| - 1]
  }

  /** The last part of a split holds no separator. */
  lemma {:induction false} LastPartHasNoSeparator(s: string, sep: string, last: string)
    requires sep != ""
    requires last == Last(Split(s, sep))
    ensures Index(last, sep) < 0
    decreases |s|
  {
    var i := Index(s, sep);
    if i >= 0 {
      var parts := Split(s[i + |sep|..], sep);
      assert Split(s, sep) == [s[..i]] + parts;
      LastPartHasNoSeparator(s[i + |sep|..], sep, last);
    }
  }

  /** A text whose first separator comes right after `head` splits after `head`. */
  lemma SplitAtFirst(head: string, sep: string, rest: string)
    requires sep != ""
    requires forall j :: OccursAt(head + sep, sep, j) ==> j == |head|
    ensures Split(head + sep + rest, sep) == [head] + Split(rest, sep)
  {
    var s := head + sep + rest;
    IndexLeast(s, sep);
    assert OccursAt(s, sep, |head|);
    var i := Index(s, sep);
    assert (head + sep)[i..i + |sep|] == s[i..i + |sep|];
    assert OccursAt(head + sep, sep, i);
    assert s[..|head|] == head;
    assert s[|head| + |sep|..] == rest;
  }

  /** A part without the one-byte separator `c`, and the parts after it. */
  lemma SplitHead(head: string, c: char, rest: string)
    requires c !in head
    ensures Split(head + [c] + rest, [c]) == [head] + Split(rest, [c])
  {
    forall j | OccursAt(head + [c], [c], j) ensures j == |head| {
      OccursChars(head + [c], [c], j);
      assert (head + [c])[j + 0] == c;
    }
    SplitAtFirst(head, [c], rest);
  }

  lemma SplitLast(s: string, c: char)
    requires c !in s
    ensures Split(s, [c]) == [s]
  {
    IndexChars(s, [c]);
  }

  /** Splitting undoes joining when no part holds the separator. */
  lemma {:induction false} SplitJoin(parts: seq<string>, c: char)
    requires parts != [] && forall i :: 0 <= i < |parts| ==> c !in parts[i]
    ensures Split(Join(parts, [c]), [c]) == parts
  {
    if |parts| == 1 {
      SplitLast(parts[0], c);
    } else {
      SplitJoin(parts[1..], c);
      SplitHead(parts[0], c, Join(parts[1..], [c]));
      hide Split;
      assert parts == [parts[0]] + parts[1..];
    }
  }

  /** `strings.ReplaceAll(s, "\r\n", "\n")`. */
  function Normalize(s: string): (t: string)
    ensures |t| <= |s|
  {
    if s == "" then ""
    else if "\r\n" <= s then "\n" + Normalize(s[2..])
    else [s[0]] + Normalize(s[1..])
  }

  /** `strings.TrimLeft(s, " \t")`. */
  function TrimBlanksLeft(s: string): (t: string)
    ensures |t| <= |s|
  {
    if s != "" && (s[0] == ' ' || s[0] == '\t') then TrimBlanksLeft(s[1..]) else s
  }

  predicate IsAsciiSpace(c: char)
  {
    c in " \t\n\r" || c == '\U{0B}' || c == '\U{0C}'
  }

  /** Length of the UTF-8 encoded white-space character (`unicode.IsSpace`) `s` starts with; 0 if none. */
  function SpacePrefix(s: string): (n: nat)
    ensures n <= |s|
  {
    if |s| >= 1 && IsAsciiSpace(s[0]) then 1
    else if |s| >= 2 && IsSpacePair(s[0], s[1]) then 2
    else if |s| >= 3 && IsSpaceTriple(s[0], s[1], s[2]) then 3
    else 0
  }

  /** Length of the UTF-8 encoded white-space character `s` ends with; 0 if none. */
  function SpaceSuffix(s: string): (n: nat)
    ensures n <= |s|
  {
    var e := |s|;
    if e >= 1 && IsAsciiSpace(s[e - 1]) then 1
    else if e >= 2 && IsSpacePair(s[e - 2], s[e - 1]) then 2
    else if e >= 3 && IsSpaceTriple(s[e - 3], s[e - 2], s[e - 1]) then 3
    else 0
  }

  /** U+0085 and U+00A0. */
  predicate IsSpacePair(a: char, b: char)
  {
    a == '\U{C2}' && (b == '\U{85}' || b == '\U{A0}')
  }

  /** U+1680, U+2000 to U+200A, U+2028, U+2029, U+202F, U+205F and U+3000. */
  predicate IsSpaceTriple(a: char, b: char, c: char)
  {
    || (a == '\U{E1}' && b == '\U{9A}' && c == '\U{80}')
    || (a == '\U{E2}' && b == '\U{80}'
        && ('\U{80}' <= c <= '\U{8A}' || c == '\U{A8}' || c == '\U{A9}' || c == '\U{AF}'))
    || (a == '\U{E2}' && b == '\U{81}' && c == '\U{9F}')
    || (a == '\U{E3}' && b == '\U{80}' && c == '\U{80}')
  }

  function TrimSpaceLeft(s: string): (t: string)
    ensures |t| <= |s|
  {
    var n := SpacePrefix(s);
    if n == 0 then s else TrimSpaceLeft(s[n..])
  }

  function TrimSpaceRight(s: string): (t: string)
    ensures |t| <= |s|
  {
    var n := SpaceSuffix(s);
    if n == 0 then s else TrimSpaceRight(s[..|s| - n])
  }

  /** `strings.TrimSpace`. */
  function TrimSpace(s: string): string
  {
    TrimSpaceRight(TrimSpaceLeft(s))
  }

  /** Text that begins and ends with something other than white space. */
  predicate Trimmed(s: string)
  {
    SpacePrefix(s) == 0 && SpaceSuffix(s) == 0
  }

  lemma TrimTrimmed(s: string)
    requires Trimmed(s)
    ensures TrimSpace(s) == s
  {
  }

  /** One white-space character as bytes. */
  predicate IsSpaceUnit(u: string)
  {
    || (|u| == 1 && IsAsciiSpace(u[0]))
    || (|u| == 2 && IsSpacePair(u[0], u[1]))
    || (|u| == 3 && IsSpaceTriple(u[0], u[1], u[2]))
  }

  predicate AllSpaces(units: seq<string>)
  {
    forall i :: 0 <= i < |units| ==> IsSpaceUnit(units[i])
  }

  function Concat(units: seq<string>): string
  {
    if units == [] then "" else units[0] + Concat(units[1..])
  }

  lemma ConcatNothing()
    ensures Concat([]) == ""
  {
  }

  lemma ConcatFirst(units: seq<string>)
    requires units != []
    ensures Concat(units) == units[0] + Concat(units[1..])
  {
  }

  lemma {:induction false} ConcatLast(units: seq<string>, u: string)
    ensures Concat(units + [u]) == Concat(units) + u
  {
    if units == [] {
      assert units + [u] == [u] && [u][1..] == [];
    } else {
      ConcatLast(units[1..], u);
      assert (units + [u])[1..] == units[1..] + [u];
      assert units[0] + (Concat(units[1..]) + u) == units[0] + Concat(units[1..]) + u;
    }
  }

  lemma SpaceFirst(u: string, rest: string)
    requires IsSpaceUnit(u)
    ensures SpacePrefix(u + rest) == |u| && SpaceSuffix(rest + u) == |u|
  {
    var s, e := rest + u, |rest + u|;
    assert s[e - |u|..] == u;
    assert forall j :: 0 <= j < |u| ==> s[e - |u| + j] == u[j];
  }

  lemma TrimLeftUnit(u: string, rest: string)
    requires IsSpaceUnit(u)
    ensures TrimSpaceLeft(u + rest) == TrimSpaceLeft(rest)
  {
    SpaceFirst(u, rest);
    assert |u| > 0;
    hide SpacePrefix, IsSpaceUnit;
    assert (u + rest)[|u|..] == rest;
  }

  lemma TrimRightUnit(rest: string, u: string)
    requires IsSpaceUnit(u)
    ensures TrimSpaceRight(rest + u) == TrimSpaceRight(rest)
  {
    SpaceFirst(u, rest);
    assert |u| > 0;
    hide SpaceSuffix, IsSpaceUnit;
    assert (rest + u)[..|rest|] == rest;
  }

  lemma PrefixIsUnit(s: string)
    requires SpacePrefix(s) > 0
    ensures IsSpaceUnit(s[..SpacePrefix(s)])
  {
  }

  lemma SuffixIsUnit(s: string)
    requires SpaceSuffix(s) > 0
    ensures IsSpaceUnit(s[|s| - SpaceSuffix(s)..])
  {
  }

  lemma {:induction false} TrimLeftSpaces(units: seq<string>, s: string)
    requires AllSpaces(units)
    ensures TrimSpaceLeft(Concat(units) + s) == TrimSpaceLeft(s)
  {
    hide TrimSpaceLeft, IsSpaceUnit, Concat;
    if units == [] {
      ConcatNothing();
      assert "" + s == s;
    } else {
      var u, rest := units[0], Concat(units[1..]) + s;
      TrimLeftSpaces(units[1..], s);
      TrimLeftUnit(u, rest);
      ConcatFirst(units);
      assert u + Concat(units[1..]) + s == u + rest;
    }
  }

  lemma {:induction false} TrimRightSpaces(s: string, units: seq<string>)
    requires AllSpaces(units)
    ensures TrimSpaceRight(s + Concat(units)) == TrimSpaceRight(s)
  {
    hide TrimSpaceRight, IsSpaceUnit, Concat;
    if units == [] {
      ConcatNothing();
      assert s + "" == s;
    } else {
      var front, u := units[..|units| - 1], Last(units);
      var rest := s + Concat(front);
      TrimRightSpaces(s, front);
      ConcatLast(front, u);
      assert front + [u] == units;
      TrimRightUnit(rest, u);
      assert s + (Concat(front) + u) == rest + u;
    }
  }

  /** White space after a trimmed text does not make its beginning white space. */
  lemma SpacesAfterTrimmed(s: string, units: seq<string>)
    requires s != "" && SpacePrefix(s) == 0 && AllSpaces(units)
    ensures SpacePrefix(s + Concat(units)) == 0
  {
    if units != [] {
      assert Concat(units)[0] == units[0][0];
    }
  }

  /** Trimming removes white space around a trimmed text, whatever it is. */
  lemma TrimSurrounded(before: seq<string>, s: string, after: seq<string>)
    requires AllSpaces(before) && Trimmed(s) && AllSpaces(after)
    ensures TrimSpace(Concat(before) + s + Concat(after)) == s
  {
    var rest := s + Concat(after);
    assert Concat(before) + s + Concat(after) == Concat(before) + rest;
    TrimLeftSpaces(before, rest);
    if s == "" {
      assert rest == Concat(after) + "";
      TrimLeftSpaces(after, "");
    } else {
      SpacesAfterTrimmed(s, after);
      TrimRightSpaces(s, after);
    }
  }

  lemma TrimLeftStep(s: string)
    ensures TrimSpaceLeft(s) == if SpacePrefix(s) == 0 then s else TrimSpaceLeft(s[SpacePrefix(s)..])
  {
    hide SpacePrefix;
  }

  lemma TrimRightStep(s: string)
    ensures TrimSpaceRight(s) == if SpaceSuffix(s) == 0 then s else TrimSpaceRight(s[..|s| - SpaceSuffix(s)])
  {
    hide SpaceSuffix;
  }

  lemma {:induction false} TrimLeftIs(s: string) returns (before: seq<string>)
    ensures AllSpaces(before) && s == Concat(before) + TrimSpaceLeft(s) && SpacePrefix(TrimSpaceLeft(s)) == 0
    decreases |s|
  {
    TrimLeftStep(s);
    hide SpacePrefix, IsSpaceUnit, Concat, TrimSpaceLeft;
    var n := SpacePrefix(s);
    if n == 0 {
      before := [];
      ConcatNothing();
      assert "" + s == s;
    } else {
      PrefixIsUnit(s);
      var rest := TrimLeftIs(s[n..]);
      before := [s[..n]] + rest;
      ConcatFirst(before);
      assert before[1..] == rest && s == s[..n] + s[n..];
    }
  }

  lemma {:induction false} TrimRightIs(s: string) returns (after: seq<string>)
    ensures AllSpaces(after) && s == TrimSpaceRight(s) + Concat(after) && SpaceSuffix(TrimSpaceRight(s)) == 0
    decreases |s|
  {
    TrimRightStep(s);
    hide SpaceSuffix, IsSpaceUnit, Concat, TrimSpaceRight;
    var n := SpaceSuffix(s);
    if n == 0 {
      after := [];
      ConcatNothing();
      assert s + "" == s;
    } else {
      var front, u := s[..|s| - n], s[|s| - n..];
      SuffixIsUnit(s);
      var rest := TrimRightIs(front);
      after := rest + [u];
      ConcatLast(rest, u);
      assert s == front + u;
    }
  }

  /** What trimming leaves is trimmed, and what it takes away is white space. */
  lemma TrimSpaceIs(s: string) returns (before: seq<string>, after: seq<string>)
    ensures AllSpaces(before) && AllSpaces(after) && Trimmed(TrimSpace(s))
    ensures s == Concat(before) + TrimSpace(s) + Concat(after)
  {
    hide AllSpaces, Concat, SpacePrefix, SpaceSuffix, TrimSpaceLeft, TrimSpaceRight;
    before := TrimLeftIs(s);
    var middle := TrimSpaceLeft(s);
    after := TrimRightIs(middle);
    var t := TrimSpaceRight(middle);
    assert middle == t + Concat(after);
    PrefixOfUnspaced(t, Concat(after));
  }

  lemma PrefixOfUnspaced(t: string, rest: string)
    requires SpacePrefix(t + rest) == 0
    ensures SpacePrefix(t) == 0
  {
  }

  lemma {:induction false} TrimBlanksIs(s: string) returns (blanks: string)
    ensures (forall c :: c in blanks ==> c in " \t") && s == blanks + TrimBlanksLeft(s)
    ensures TrimBlanksLeft(s) == "" || TrimBlanksLeft(s)[0] !in " \t"
  {
    if s != "" && (s[0] == ' ' || s[0] == '\t') {
      var rest := TrimBlanksIs(s[1..]);
      blanks := [s[0]] + rest;
    } else {
      blanks := "";
    }
  }

  lemma {:induction false} TrimBlanksBefore(blanks: string, s: string)
    requires (forall c :: c in blanks ==> c in " \t") && (s == "" || s[0] !in " \t")
    ensures TrimBlanksLeft(blanks + s) == s
  {
    if blanks == "" {
      assert blanks + s == s;
    } else {
      assert blanks[0] in blanks;
      TrimBlanksBefore(blanks[1..], s);
      assert (blanks + s)[1..] == blanks[1..] + s;
    }
  }

  /** Text between two visible ASCII characters is trimmed. */
  lemma VisibleEndsAreTrimmed(s: string)
    requires s != ""
    requires s[0] < '\U{80}' && !IsAsciiSpace(s[0])
    requires s[|s| - 1] < '\U{80}' && !IsAsciiSpace(s[|s| - 1])
    ensures Trimmed(s)
  {
  }
}
