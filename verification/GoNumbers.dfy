/** The pieces of Go's `strconv`, `encoding/hex` and 64-bit arithmetic the SDK uses. */
module GoNumbers {
  import opened Wrappers
  import opened GoText

  /** `time.Second`, in nanoseconds. */
  const SECOND: int := 1_000_000_000

  const TWO_63: int := 0x8000_0000_0000_0000
  const TWO_64: int := 0x1_0000_0000_0000_0000

  predicate Int64(n: int)
  {
    -TWO_63 <= n < TWO_63
  }

  /** Two's-complement wrap-around. */
  function Wrap64(n: int): (r: int)
    ensures Int64(r)
    ensures Int64(n) ==> r == n
    ensures (n - r) % 0x1_0000_0000_0000_0000 == 0
  {
    (n + TWO_63) % TWO_64 - TWO_63
  }

  // ---------------------------------------------------------------- decimal

  predicate IsDigit(c: char)
  {
    '0' <= c <= '9'
  }

  function DigitChar(d: nat): (c: char)
    requires d < 10
    ensures IsDigit(c) && c as int - '0' as int == d
  {
    (48 + d) as char
  }

  predicate AllDigits(s: string)
  {
    forall i :: 0 <= i < |s| ==> IsDigit(s[i])
  }

  function DigitsValue(s: string): nat
    requires AllDigits(s)
  {
    if s == "" then 0
    else DigitsValue(s[..|s| - 1]) * 10 + (s[|s| - 1] as int - '0' as int)
  }

  /** `strconv.ParseInt(s, 10, 64)`; `None` for its syntax and range errors. */
  function ParseInt(s: string): Option<int>
  {
    var signed := s != "" && (s[0] == '+' || s[0] == '-');
    var digits := if signed then s[1..] else s;
    if digits == "" || !AllDigits(digits) then None
    else
      var size: int := DigitsValue(digits);
      var n := if signed && s[0] == '-' then -size else size;
      if Int64(n) then Some(n) else None
  }

  function FormatNat(n: nat): string
  {
    if n < 10 then [DigitChar(n)] else FormatNat(n / 10) + [DigitChar(n % 10)]
  }

  /** `strconv.FormatInt(n, 10)`. */
  function FormatInt(n: int): string
  {
    if n < 0 then "-" + FormatNat(-n) else FormatNat(n)
  }

  lemma {:induction false} FormatNatValue(n: nat)
    ensures FormatNat(n) != "" && AllDigits(FormatNat(n)) && DigitsValue(FormatNat(n)) == n
  {
    if n >= 10 {
      FormatNatValue(n / 10);
      var s := FormatNat(n);
      assert s[..|s| - 1] == FormatNat(n / 10);
    } else {
      assert [DigitChar(n)][..0] == "";
    }
  }

  lemma {:induction false} NoLeadingZero(n: nat)
    ensures FormatNat(n) != "" && (FormatNat(n)[0] == '0' ==> n == 0)
  {
    if n >= 10 {
      NoLeadingZero(n / 10);
    }
  }

  function Zeros(k: nat): string
  {
    if k == 0 then "" else "0" + Zeros(k - 1)
  }

  lemma {:induction false} LeadingZeros(k: nat, s: string)
    requires AllDigits(s)
    ensures AllDigits(Zeros(k) + s) && DigitsValue(Zeros(k) + s) == DigitsValue(s)
  {
    hide DigitsValue, AllDigits;
    if k == 0 {
      assert Zeros(k) + s == s;
    } else {
      LeadingZeros(k - 1, s);
      LeadingZero(Zeros(k - 1) + s);
      assert Zeros(k) + s == "0" + (Zeros(k - 1) + s);
    }
  }

  lemma {:induction false} LeadingZero(s: string)
    requires AllDigits(s)
    ensures AllDigits("0" + s) && DigitsValue("0" + s) == DigitsValue(s)
  {
    if s == "" {
      assert ("0" + s)[..0] == "";
    } else {
      LeadingZero(s[..|s| - 1]);
      assert ("0" + s)[..|s|] == "0" + s[..|s| - 1];
    }
  }

  lemma {:induction false} DigitsAreFormatted(s: string) returns (k: nat)
    requires s != "" && AllDigits(s)
    ensures s == Zeros(k) + FormatNat(DigitsValue(s))
  {
    var front, d := s[..|s| - 1], s[|s| - 1] as int - '0' as int;
    var v := DigitsValue(front);
    assert s == front + [DigitChar(d)] && DigitsValue(s) == v * 10 + d;
    OneMoreDigit(v, d);
    if front == "" {
      k := 0;
      assert v == 0 && Zeros(0) == "";
    } else {
      k := DigitsAreFormatted(front);
      hide FormatNat, DigitsValue, Zeros, AllDigits;
      if v == 0 {
        ZeroAfterZeros(k);
        k := k + 1;
      } else {
        assert Zeros(k) + FormatNat(v) + [DigitChar(d)] == Zeros(k) + (FormatNat(v) + [DigitChar(d)]);
      }
    }
  }

  lemma OneMoreDigit(v: nat, d: nat)
    requires d < 10
    ensures FormatNat(v * 10 + d) == (if v == 0 then "" else FormatNat(v)) + [DigitChar(d)]
  {
  }

  lemma {:induction false} ZeroAfterZeros(k: nat)
    ensures Zeros(k) + FormatNat(0) == Zeros(k + 1)
  {
    assert FormatNat(0) == "0";
    if k > 0 {
      ZeroAfterZeros(k - 1);
      assert "0" + Zeros(k - 1) + "0" == "0" + (Zeros(k - 1) + "0");
    }
  }

  function Signed(sign: string, size: int): int
  {
    if sign == "-" then -size else size
  }

  /** Parsing reads an optional sign, any leading zeros and the digits, and refuses what 64 bits do not hold. */
  lemma ParseIntReads(sign: string, k: nat, n: nat)
    requires sign in {"", "+", "-"}
    ensures var value := Signed(sign, n);
      ParseInt(sign + Zeros(k) + FormatNat(n)) ==
      if -9_223_372_036_854_775_808 <= value <= 9_223_372_036_854_775_807 then Some(value) else None
  {
    hide FormatNat, DigitsValue, Zeros, AllDigits, ParseInt;
    FormatNatValue(n);
    LeadingZeros(k, FormatNat(n));
    assert sign + (Zeros(k) + FormatNat(n)) == sign + Zeros(k) + FormatNat(n);
    ParseSigned(sign, Zeros(k) + FormatNat(n));
  }

  lemma ParseSigned(sign: string, digits: string)
    requires sign in {"", "+", "-"} && digits != "" && AllDigits(digits)
    ensures var value := Signed(sign, DigitsValue(digits));
      ParseInt(sign + digits) == if Int64(value) then Some(value) else None
  {
    hide DigitsValue;
    var s := sign + digits;
    if sign == "" {
      assert s == digits && IsDigit(digits[0]);
    } else {
      assert s[1..] == digits && s[0] == sign[0];
    }
  }

  lemma SignAndDigits(s: string) returns (sign: string, digits: string)
    requires ParseInt(s).Some?
    ensures sign in {"", "+", "-"} && s == sign + digits && digits != "" && AllDigits(digits)
  {
    hide DigitsValue;
    var signed := s[0] == '+' || s[0] == '-';
    sign := if signed then [s[0]] else "";
    digits := if signed then s[1..] else s;
  }

  /** And it reads nothing else. */
  lemma ParseIntReadsOnly(s: string) returns (sign: string, k: nat, n: nat)
    requires ParseInt(s).Some?
    ensures sign in {"", "+", "-"} && s == sign + Zeros(k) + FormatNat(n)
  {
    hide ParseInt, FormatNat, Zeros;
    var digits;
    sign, digits := SignAndDigits(s);
    k := DigitsAreFormatted(digits);
    n := DigitsValue(digits);
    hide DigitsValue, AllDigits;
    assert sign + (Zeros(k) + FormatNat(n)) == sign + Zeros(k) + FormatNat(n);
  }

  /** Parsing undoes formatting, for every 64-bit integer. */
  lemma ParseFormatted(n: int)
    requires Int64(n)
    ensures ParseInt(FormatInt(n)) == Some(n)
    ensures Trimmed(FormatInt(n)) && ',' !in FormatInt(n) && FormatInt(n) != ""
    ensures n >= 0 ==> AllDigits(FormatInt(n)) && (FormatInt(n)[0] == '0' ==> n == 0)
    ensures n < 0 ==> FormatInt(n) == "-" + FormatInt(-n)
  {
    hide FormatNat, DigitsValue, Trimmed;
    var size := if n < 0 then -n else n;
    FormatNatValue(size);
    NoLeadingZero(size);
    var s, digits := FormatInt(n), FormatNat(size);
    assert n < 0 ==> s[1..] == digits;
    assert s[|s| - 1] == digits[|digits| - 1] && IsDigit(digits[0]) && IsDigit(digits[|digits| - 1]);
    VisibleEndsAreTrimmed(s);
    assert forall i :: 0 <= i < |digits| ==> digits[i] != ',';
  }

  // ---------------------------------------------------------------- hexadecimal

  function HexValue(c: char): (v: Option<int>)
    ensures v.Some? ==> 0 <= v.value < 16
  {
    if IsDigit(c) then Some(c as int - '0' as int)
    else if 'a' <= c <= 'f' then Some(c as int - 'a' as int + 10)
    else if 'A' <= c <= 'F' then Some(c as int - 'A' as int + 10)
    else None
  }

  /** `hex.DecodeString`: either case, `None` for an odd length or another character. */
  function HexDecode(s: string): Option<string>
  {
    if s == "" then Some("")
    else if |s| < 2 || HexValue(s[0]).None? || HexValue(s[1]).None? then None
    else
      match HexDecode(s[2..])
      case None => None
      case Some(rest) => Some([(HexValue(s[0]).value * 16 + HexValue(s[1]).value) as char] + rest)
  }

  predicate IsBytes(s: string)
  {
    forall i :: 0 <= i < |s| ==> s[i] as int < 256
  }

  function HexDigit(d: int): (c: char)
    requires 0 <= d < 16
    ensures HexValue(c) == Some(d)
    ensures c < '\U{80}' && !IsAsciiSpace(c) && c != ','
  {
    if d < 10 then (48 + d) as char else (87 + d) as char
  }

  function HexEncode(s: string): string
    requires IsBytes(s)
  {
    if s == "" then ""
    else [HexDigit(s[0] as int / 16), HexDigit(s[0] as int % 16)] + HexEncode(s[1..])
  }

  lemma {:induction false} HexRoundTrip(s: string)
    requires IsBytes(s)
    ensures HexDecode(HexEncode(s)) == Some(s)
    ensures ',' !in HexEncode(s)
    ensures s != "" ==> Trimmed(HexEncode(s)) && HexEncode(s) != ""
  {
    if s != "" {
      HexRoundTrip(s[1..]);
      HexEnds(s);
      HexStep(s);
      hide HexEncode, HexDecode;
      VisibleEndsAreTrimmed(HexEncode(s));
      assert s == [s[0]] + s[1..];
    }
  }

  /** The hexadecimal digit of `d`, in either case. */
  predicate IsHexOf(c: char, d: int)
  {
    0 <= d < 16 && (c == "0123456789abcdef"[d] || c == "0123456789ABCDEF"[d])
  }

  lemma HexValueIs(c: char, d: int)
    ensures HexValue(c) == Some(d) <==> IsHexOf(c, d)
  {
  }

  /** Two digits for each byte, the high one first. */
  predicate HexPairs(s: string, b: string)
  {
    |s| == 2 * |b|
    && forall i :: 0 <= i < |b| ==> IsHexOf(s[2 * i], b[i] as int / 16) && IsHexOf(s[2 * i + 1], b[i] as int % 16)
  }

  /** Decoding accepts pairs of digits in either case, and nothing else. */
  lemma {:induction false} HexDecodesIff(s: string, b: string)
    requires IsBytes(b)
    ensures HexDecode(s) == Some(b) <==> HexPairs(s, b)
    decreases |s|
  {
    hide HexValue, IsHexOf;
    if |s| >= 2 && b != "" {
      HexDecodesIff(s[2..], b[1..]);
      HexFirst(s, b);
      HexPairsFirst(s, b);
      hide HexPairs, HexDecode;
    }
  }

  lemma ByteOfDigits(h: int, l: int, c: char)
    requires 0 <= h < 16 && 0 <= l < 16 && c as int < 256
    ensures (h * 16 + l) as char == c <==> h == c as int / 16 && l == c as int % 16
  {
    var n := h * 16 + l;
    assert n / 16 == h && n % 16 == l;
  }

  lemma HexDecodeIs(a: char, b: char, rest: string)
    ensures HexDecode([a, b] + rest) ==
            if HexValue(a).Some? && HexValue(b).Some? && HexDecode(rest).Some?
            then Some([(HexValue(a).value * 16 + HexValue(b).value) as char] + HexDecode(rest).value)
            else None
  {
    hide HexValue;
    assert ([a, b] + rest)[2..] == rest;
  }

  lemma HexFirst(s: string, b: string)
    requires |s| >= 2 && b != "" && IsBytes(b)
    ensures HexDecode(s) == Some(b) <==>
            && IsHexOf(s[0], b[0] as int / 16) && IsHexOf(s[1], b[0] as int % 16)
            && HexDecode(s[2..]) == Some(b[1..])
  {
    hide HexValue, IsHexOf, HexDecode;
    HexValueIs(s[0], b[0] as int / 16);
    HexValueIs(s[1], b[0] as int % 16);
    assert s == [s[0], s[1]] + s[2..] && b == [b[0]] + b[1..];
    HexDecodeIs(s[0], s[1], s[2..]);
    if HexValue(s[0]).Some? && HexValue(s[1]).Some? {
      var h, l := HexValue(s[0]).value, HexValue(s[1]).value;
      ByteOfDigits(h, l, b[0]);
      if HexDecode(s[2..]).Some? {
        SameHead((h * 16 + l) as char, HexDecode(s[2..]).value, b);
      }
    }
  }

  lemma SameHead(c: char, rest: string, b: string)
    requires b != ""
    ensures [c] + rest == b <==> c == b[0] && rest == b[1..]
  {
    if [c] + rest == b {
      assert ([c] + rest)[0] == c && ([c] + rest)[1..] == rest;
    }
    assert b == [b[0]] + b[1..];
  }

  lemma HexPairsFirst(s: string, b: string)
    requires |s| >= 2 && b != ""
    ensures HexPairs(s, b) <==>
            && IsHexOf(s[0], b[0] as int / 16) && IsHexOf(s[1], b[0] as int % 16) && HexPairs(s[2..], b[1..])
  {
    hide IsHexOf;
    var x, y := s[2..], b[1..];
    assert forall i :: 0 <= i < |y| && |s| == 2 * |b| ==>
             y[i] == b[i + 1] && x[2 * i] == s[2 * (i + 1)] && x[2 * i + 1] == s[2 * (i + 1) + 1];
    if HexPairs(x, y) && IsHexOf(s[0], b[0] as int / 16) && IsHexOf(s[1], b[0] as int % 16) {
      forall i | 0 <= i < |b| ensures IsHexOf(s[2 * i], b[i] as int / 16) && IsHexOf(s[2 * i + 1], b[i] as int % 16) {
        if i > 0 {
          assert y[i - 1] == b[i] && x[2 * (i - 1)] == s[2 * i] && x[2 * (i - 1) + 1] == s[2 * i + 1];
        }
      }
    }
  }

  lemma HexStep(s: string)
    requires IsBytes(s) && s != "" && HexDecode(HexEncode(s[1..])).Some?
    ensures HexEncode(s) == [HexDigit(s[0] as int / 16), HexDigit(s[0] as int % 16)] + HexEncode(s[1..])
    ensures HexDecode(HexEncode(s)) == Some([s[0]] + HexDecode(HexEncode(s[1..])).value)
  {
    hide HexDecode, HexValue, HexDigit;
    var rest := HexEncode(s[1..]);
    assert HexEncode(s) == [HexDigit(s[0] as int / 16), HexDigit(s[0] as int % 16)] + rest;
    hide HexEncode;
    ByteInHex(s[0]);
    HexDecodeStep(HexDigit(s[0] as int / 16), HexDigit(s[0] as int % 16), rest);
  }

  lemma ByteInHex(c: char)
    requires c as int < 256
    ensures HexValue(HexDigit(c as int / 16)).Some? && HexValue(HexDigit(c as int % 16)).Some?
    ensures (HexValue(HexDigit(c as int / 16)).value * 16 + HexValue(HexDigit(c as int % 16)).value) as char == c
  {
    hide HexValue, HexDigit;
    assert c as int / 16 * 16 + c as int % 16 == c as int;
  }

  lemma HexDecodeStep(a: char, b: char, rest: string)
    requires HexValue(a).Some? && HexValue(b).Some? && HexDecode(rest).Some?
    ensures HexDecode([a, b] + rest) ==
            Some([(HexValue(a).value * 16 + HexValue(b).value) as char] + HexDecode(rest).value)
  {
    hide HexValue;
    assert ([a, b] + rest)[2..] == rest;
  }

  lemma {:induction false} HexEnds(s: string)
    requires IsBytes(s) && s != ""
    ensures var hex := HexEncode(s);
      && hex != ""
      && hex[0] < '\U{80}' && !IsAsciiSpace(hex[0])
      && hex[|hex| - 1] < '\U{80}' && !IsAsciiSpace(hex[|hex| - 1])
  {
    if s[1..] != "" {
      HexEnds(s[1..]);
    }
  }
}
