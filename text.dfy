/** String helpers that the editors rely on, written as JavaScript defines them:
    `String.prototype.trim`, decimal and hexadecimal digits, `padStart(2, '0')`,
    `split` on one separator character and the global `parseInt` without a radix. */
module Text {
  import opened Wrappers

  // ---------------------------------------------------------------------------
  // Whitespace and trimming
  // ---------------------------------------------------------------------------

  /** The characters JavaScript's `trim` (and `parseInt`'s leading skip) treat as
      white space: WhiteSpace and LineTerminator of ECMA-262. */
  predicate IsWhitespace(c: char) {
    || c == '\t' || c == '\n' || c == '\U{000B}' || c == '\U{000C}' || c == '\r'
    || c == ' ' || c == '\U{00A0}' || c == '\U{1680}'
    || ('\U{2000}' <= c <= '\U{200A}')
    || c == '\U{2028}' || c == '\U{2029}' || c == '\U{202F}' || c == '\U{205F}'
    || c == '\U{3000}' || c == '\U{FEFF}'
  }

  /** `s` without its leading white space. */
  function TrimStart(s: string): (r: string)
    ensures |r| <= |s|
    ensures r == [] || !IsWhitespace(r[0])
  {
    if |s| > 0 && IsWhitespace(s[0]) then TrimStart(s[1..]) else s
  }

  /** What `TrimStart` drops is white space and what it keeps is the rest of `s`. */
  lemma {:induction false} TrimStartSuffix(s: string)
    ensures TrimStart(s) == s[|s| - |TrimStart(s)|..]
    ensures forall k :: 0 <= k < |s| - |TrimStart(s)| ==> IsWhitespace(s[k])
  {
    if |s| > 0 && IsWhitespace(s[0]) {
      TrimStartSuffix(s[1..]);
      assert s[1..][|s| - 1 - |TrimStart(s)|..] == s[|s| - |TrimStart(s)|..];
      forall k | 1 <= k < |s| - |TrimStart(s)|
        ensures IsWhitespace(s[k])
      {
        assert s[k] == s[1..][k - 1];
      }
    }
  }

  /** `s` without its trailing white space. */
  function TrimEnd(s: string): (r: string)
    ensures |r| <= |s| && r == s[..|r|]
    ensures r == [] || !IsWhitespace(r[|r| - 1])
    ensures forall k :: |r| <= k < |s| ==> IsWhitespace(s[k])
  {
    if |s| > 0 && IsWhitespace(s[|s| - 1]) then TrimEnd(s[..|s| - 1]) else s
  }

  /** `s.trim()`: white space dropped at both ends (`TrimSlice`). */
  function Trim(s: string): string
  {
    TrimEnd(TrimStart(s))
  }

  /** `r` is the slice of `s` that starts at `i`, only white space lies outside it,
      and it neither starts nor ends with white space. */
  predicate IsTrimmedSlice(s: string, r: string, i: nat) {
    && i + |r| <= |s| && r == s[i..i + |r|]
    && (forall k :: 0 <= k < i ==> IsWhitespace(s[k]))
    && (forall k :: i + |r| <= k < |s| ==> IsWhitespace(s[k]))
    && (r == [] || (!IsWhitespace(r[0]) && !IsWhitespace(r[|r| - 1])))
  }

  /** `s.trim()` is the slice of `s` between its leading and trailing white space. */
  lemma TrimSlice(s: string)
    ensures IsTrimmedSlice(s, Trim(s), |s| - |TrimStart(s)|)
  {
    var t := TrimStart(s);
    TrimStartSuffix(s);
    SliceBetween(s, t, TrimEnd(t), |s| - |t|);
  }

  /** The facts `TrimStart` and `TrimEnd` give, put together over the whole string. */
  lemma SliceBetween(s: string, t: string, r: string, i: nat)
    requires i <= |s| && t == s[i..] && (t == [] || !IsWhitespace(t[0]))
    requires forall k :: 0 <= k < i ==> IsWhitespace(s[k])
    requires |r| <= |t| && r == t[..|r|] && (r == [] || !IsWhitespace(r[|r| - 1]))
    requires forall k :: |r| <= k < |t| ==> IsWhitespace(t[k])
    ensures IsTrimmedSlice(s, r, i)
  {
    TrimEndInside(s, t, r, i);
    TrimBothEnds(t, r);
  }

  /** A prefix of a string that does not start with white space does not start
      with it either. */
  lemma TrimBothEnds(t: string, r: string)
    requires t == [] || !IsWhitespace(t[0])
    requires |r| <= |t| && r == t[..|r|] && (r == [] || !IsWhitespace(r[|r| - 1]))
    ensures r == [] || (!IsWhitespace(r[0]) && !IsWhitespace(r[|r| - 1]))
  {
    if r != [] {
      assert r[0] == t[0];
    }
  }

  /** Trailing white space of a suffix is trailing white space of the whole. */
  lemma TrimEndInside(s: string, t: string, r: string, i: nat)
    requires i <= |s| && t == s[i..] && |r| <= |t| && r == t[..|r|]
    requires forall k :: |r| <= k < |t| ==> IsWhitespace(t[k])
    ensures i + |r| <= |s| && r == s[i..i + |r|]
    ensures forall k :: i + |r| <= k < |s| ==> IsWhitespace(s[k])
  {
    forall k | i + |r| <= k < |s|
      ensures IsWhitespace(s[k])
    {
      assert s[k] == t[k - i];
    }
  }

  // ---------------------------------------------------------------------------
  // Decimal digits
  // ---------------------------------------------------------------------------

  predicate IsDigit(c: char) {
    '0' <= c <= '9'
  }

  function DigitValue(c: char): nat
    requires IsDigit(c)
  {
    (c - '0') as nat
  }

  function DigitChar(d: nat): (c: char)
    requires d < 10
    ensures IsDigit(c) && DigitValue(c) == d
  {
    ('0' as int + d) as char
  }

  predicate AllDigits(s: string) {
    forall k :: 0 <= k < |s| ==> IsDigit(s[k])
  }

  /** The number a string of decimal digits denotes (most significant first). */
  function DecimalValue(s: string): nat
    requires AllDigits(s)
  {
    if s == [] then 0 else DecimalValue(s[..|s| - 1]) * 10 + DigitValue(s[|s| - 1])
  }

  /** `String(n)` for a non-negative integer: its decimal digits, no leading zeros. */
  function NatToString(n: nat): (s: string)
    ensures 1 <= |s| && AllDigits(s)
    ensures |s| == 1 <==> n < 10
    ensures n >= 10 ==> s[0] != '0'
  {
    if n < 10 then [DigitChar(n)] else NatToString(n / 10) + [DigitChar(n % 10)]
  }

  /** `String(i)` for any integer. */
  function IntToString(i: int): string {
    if i < 0 then "-" + NatToString(-i) else NatToString(i)
  }

  lemma {:induction false} DecimalOfNatToString(n: nat)
    ensures DecimalValue(NatToString(n)) == n
  {
    if n >= 10 {
      var s := NatToString(n);
      assert s[..|s| - 1] == NatToString(n / 10);
      DecimalOfNatToString(n / 10);
    }
  }

  /** A leading zero does not change the value of a digit string. */
  lemma {:induction false} DecimalLeadingZero(s: string)
    requires AllDigits(s)
    ensures AllDigits("0" + s) && DecimalValue("0" + s) == DecimalValue(s)
  {
    if s != [] {
      assert ("0" + s)[..|"0" + s| - 1] == "0" + s[..|s| - 1];
      DecimalLeadingZero(s[..|s| - 1]);
    }
  }

  /** `String(n).padStart(2, '0')`. */
  function Pad2(n: nat): (s: string)
    ensures AllDigits(s) && |s| >= 2
    ensures n < 100 ==> |s| == 2
  {
    if n < 10 then "0" + NatToString(n) else NatToString(n)
  }

  // ---------------------------------------------------------------------------
  // Hexadecimal digits
  // ---------------------------------------------------------------------------

  predicate IsHexDigit(c: char) {
    IsDigit(c) || 'a' <= c <= 'f' || 'A' <= c <= 'F'
  }

  function HexDigitValue(c: char): (v: nat)
    requires IsHexDigit(c)
    ensures v < 16
  {
    if IsDigit(c) then DigitValue(c)
    else if 'a' <= c <= 'f' then (c - 'a') as nat + 10
    else (c - 'A') as nat + 10
  }

  /** The lower-case hexadecimal digit `Number.prototype.toString(16)` writes. */
  function LowerHexChar(v: nat): (c: char)
    requires v < 16
    ensures IsHexDigit(c) && HexDigitValue(c) == v
    ensures !('A' <= c <= 'F')
  {
    if v < 10 then DigitChar(v) else ('a' as int + (v - 10)) as char
  }

  predicate AllHexDigits(s: string) {
    forall k :: 0 <= k < |s| ==> IsHexDigit(s[k])
  }

  function HexValue(s: string): nat
    requires AllHexDigits(s)
  {
    if s == [] then 0 else HexValue(s[..|s| - 1]) * 16 + HexDigitValue(s[|s| - 1])
  }

  // ---------------------------------------------------------------------------
  // parseInt
  // ---------------------------------------------------------------------------

  /** The longest prefix of `s` made of decimal digits. */
  function DigitPrefix(s: string): (p: string)
    ensures AllDigits(p) && p <= s
    ensures |p| < |s| ==> !IsDigit(s[|p|])
  {
    if s != [] && IsDigit(s[0]) then [s[0]] + DigitPrefix(s[1..]) else []
  }

  /** The longest prefix of `s` made of hexadecimal digits. */
  function HexPrefix(s: string): (p: string)
    ensures AllHexDigits(p) && p <= s
    ensures |p| < |s| ==> !IsHexDigit(s[|p|])
  {
    if s != [] && IsHexDigit(s[0]) then [s[0]] + HexPrefix(s[1..]) else []
  }

  /** The global `parseInt(s)` without a radix, `None` standing for `NaN`: leading
      white space is skipped, one sign is read, a `0x`/`0X` prefix selects base 16,
      and the longest run of digits that follows is the value. */
  function ParseInt(s: string): (r: Option<int>)
    ensures r.Some? && r.value < 0 ==> '-' in s
  {
    var t := TrimStart(s);
    var r := ReadSigned(t);
    TrimStartSuffix(s);
    assert r.Some? && r.value < 0 ==> t[0] == s[|s| - |t|];
    r
  }

  /** One optional sign, then the magnitude. */
  function ReadSigned(t: string): (r: Option<int>)
    ensures r.Some? && r.value < 0 ==> |t| > 0 && t[0] == '-'
  {
    var negative := |t| > 0 && t[0] == '-';
    var u := if |t| > 0 && (t[0] == '-' || t[0] == '+') then t[1..] else t;
    var m := Magnitude(u);
    if m.None? then None else Some(if negative then -(m.value as int) else m.value as int)
  }

  /** The digits after the sign: hexadecimal after `0x` or `0X`, decimal
      otherwise, `None` when there are none. */
  function Magnitude(u: string): Option<nat> {
    if |u| >= 2 && u[0] == '0' && (u[1] == 'x' || u[1] == 'X') then
      var h := HexPrefix(u[2..]);
      if h == [] then None else Some(HexValue(h))
    else
      var d := DigitPrefix(u);
      if d == [] then None else Some(DecimalValue(d))
  }

  /** `parseInt(s, 16)`, `None` standing for `NaN`: leading white space is
      skipped, one sign is read, a `0x`/`0X` prefix is dropped, and the longest run
      of hexadecimal digits that follows is the value. */
  function ParseHex(s: string): (r: Option<int>)
    ensures r.Some? && r.value < 0 ==> '-' in s
  {
    var t := TrimStart(s);
    var r := ReadHexSigned(t);
    TrimStartSuffix(s);
    assert r.Some? && r.value < 0 ==> t[0] == s[|s| - |t|];
    r
  }

  /** One optional sign, then the hexadecimal magnitude. */
  function ReadHexSigned(t: string): (r: Option<int>)
    ensures r.Some? && r.value < 0 ==> |t| > 0 && t[0] == '-'
  {
    var negative := |t| > 0 && t[0] == '-';
    var u := if |t| > 0 && (t[0] == '-' || t[0] == '+') then t[1..] else t;
    var m := HexMagnitude(u);
    if m.None? then None else Some(if negative then -(m.value as int) else m.value as int)
  }

  /** The hexadecimal digits after an optional `0x`/`0X`, `None` when there are none. */
  function HexMagnitude(u: string): Option<nat> {
    var v := if |u| >= 2 && u[0] == '0' && (u[1] == 'x' || u[1] == 'X') then u[2..] else u;
    var h := HexPrefix(v);
    if h == [] then None else Some(HexValue(h))
  }

  lemma HexMagnitudeOfHex(s: string)
    requires |s| >= 1 && AllHexDigits(s)
    ensures HexMagnitude(s) == Some(HexValue(s))
  {
    assert !(|s| >= 2 && (s[1] == 'x' || s[1] == 'X')) by {
      if |s| >= 2 { assert IsHexDigit(s[1]); }
    }
    assert HexPrefix(s) == s by { HexPrefixOfHex(s); }
  }

  lemma HexPrefixOfHex(s: string)
    requires AllHexDigits(s)
    ensures HexPrefix(s) == s
  {
  }

  /** Text that starts with a non-space character is not trimmed at the front. */
  lemma TrimStartKeeps(t: string)
    requires |t| > 0 && !IsWhitespace(t[0])
    ensures TrimStart(t) == t
  {
  }

  /** A non-empty run of hexadecimal digits parses to its value. */
  lemma ParseHexOfHexDigits(s: string)
    requires |s| >= 1 && AllHexDigits(s)
    ensures ParseHex(s) == Some(HexValue(s) as int)
  {
    assert IsHexDigit(s[0]);
    TrimStartKeeps(s);
    HexMagnitudeOfHex(s);
  }

  /** `"-"` followed by a non-empty run of hexadecimal digits parses to the
      negated value. */
  lemma ParseHexOfNegative(s: string)
    requires |s| >= 1 && AllHexDigits(s)
    ensures ParseHex("-" + s) == Some(-(HexValue(s) as int))
  {
    TrimStartKeeps("-" + s);
    ReadHexSignedNegative(s);
  }

  lemma ReadHexSignedNegative(s: string)
    requires |s| >= 1 && AllHexDigits(s)
    ensures ReadHexSigned("-" + s) == Some(-(HexValue(s) as int))
  {
    assert ("-" + s)[1..] == s;
    HexMagnitudeOfHex(s);
  }

  /** At most two hexadecimal digits denote a value below 256. */
  lemma HexValueOfShort(s: string)
    requires |s| <= 2 && AllHexDigits(s)
    ensures HexValue(s) < 256
  {
    if |s| == 2 {
      assert HexValue(s[..1]) == HexDigitValue(s[0]) by {
        assert s[..1][..0] == [];
      }
    } else if |s| == 1 {
      assert s[..0] == [];
    }
  }

  /** A leading `0` does not change the value of a hexadecimal number. */
  lemma {:induction false} HexLeadingZero(s: string)
    requires AllHexDigits(s)
    ensures AllHexDigits("0" + s) && HexValue("0" + s) == HexValue(s)
    decreases |s|
  {
    if s != [] {
      assert ("0" + s)[..|"0" + s| - 1] == "0" + s[..|s| - 1];
      HexLeadingZero(s[..|s| - 1]);
    } else {
      assert ("0" + s)[..0] == [];
    }
  }

  predicate NoUpperHex(s: string) {
    forall k :: 0 <= k < |s| ==> !('A' <= s[k] <= 'F')
  }

  /** `n.toString(16)` for a natural number: the shortest lower-case hexadecimal
      rendering, `"0"` for zero. */
  function HexDigits(n: nat): (s: string)
    ensures |s| >= 1 && AllHexDigits(s) && NoUpperHex(s) && HexValue(s) == n
    ensures n < 16 <==> |s| == 1
    ensures 16 <= n < 256 ==> |s| == 2
    ensures 'N' !in s && '-' !in s
  {
    if n < 16 then
      var s := [LowerHexChar(n)];
      assert s[..0] == [];
      s
    else
      var p := HexDigits(n / 16);
      var s := p + [LowerHexChar(n % 16)];
      assert s[..|s| - 1] == p;
      assert n / 16 < 16 ==> n < 256;
      s
  }

  /** `v.toString(16)` for an integer: a minus sign before the digits of `-v`. */
  function NumberToHex(v: int): string {
    if v < 0 then "-" + HexDigits(-v) else HexDigits(v)
  }

  /** `s.padStart(2, '0')`. */
  function PadStart2(s: string): (r: string)
    ensures |r| >= 2 && (|s| >= 2 ==> r == s)
  {
    if |s| == 0 then "00" else if |s| == 1 then "0" + s else s
  }

  /** `v.toString(16).padStart(2, '0')`: a byte becomes exactly two lower-case
      digits; every integer is read back by `parseInt(…, 16)`. */
  function PaddedHex(v: int): (s: string)
    ensures ParseHex(s) == Some(v)
    ensures 'N' !in s
    ensures 0 <= v < 256 ==> |s| == 2 && AllHexDigits(s) && NoUpperHex(s) && HexValue(s) == v
  {
    var d := NumberToHex(v);
    var s := PadStart2(d);
    if v < 0 then
      ParseHexOfNegative(HexDigits(-v));
      s
    else if v < 16 then
      HexLeadingZero(d);
      ParseHexOfHexDigits(s);
      s
    else
      ParseHexOfHexDigits(s);
      s
  }

  lemma DigitPrefixOfDigits(s: string)
    requires AllDigits(s)
    ensures DigitPrefix(s) == s
  {
  }

  /** `parseInt` reads back every decimal rendering of a natural number. */
  lemma ParseIntNatToString(n: nat)
    ensures ParseInt(NatToString(n)) == Some(n)
  {
    ParseIntOfDigits(NatToString(n));
    DecimalOfNatToString(n);
  }

  /** A non-empty digit string that is not a `0x` prefix parses to its decimal value. */
  lemma ParseIntOfDigits(s: string)
    requires |s| >= 1 && AllDigits(s)
    ensures ParseInt(s) == Some(DecimalValue(s) as int)
  {
    assert IsDigit(s[0]) && !IsWhitespace(s[0]);
    assert TrimStart(s) == s;
    assert Magnitude(s) == Some(DecimalValue(s)) by {
      assert !(|s| >= 2 && (s[1] == 'x' || s[1] == 'X')) by {
        if |s| >= 2 { assert IsDigit(s[1]); }
      }
      DigitPrefixOfDigits(s);
    }
  }

  /** `parseInt` reads back the zero-padded two-digit rendering. */
  lemma ParseIntPad2(n: nat)
    ensures ParseInt(Pad2(n)) == Some(n)
  {
    if n < 10 {
      ParseIntOfDigits(Pad2(n));
      DecimalOfNatToString(n);
      DecimalLeadingZero(NatToString(n));
    } else {
      ParseIntNatToString(n);
    }
  }

  // ---------------------------------------------------------------------------
  // split / join on one separator character
  // ---------------------------------------------------------------------------

  /** `s.split(sep)`: the pieces between occurrences of `sep`, empty ones included. */
  function Split(s: string, sep: char): (parts: seq<string>)
    ensures |parts| >= 1
    ensures forall k :: 0 <= k < |parts| ==> sep !in parts[k]
    ensures |parts| == 1 <==> sep !in s
  {
    if |s| == 0 then [""]
    else if s[0] == sep then [""] + Split(s[1..], sep)
    else
      var rest := Split(s[1..], sep);
      [[s[0]] + rest[0]] + rest[1..]
  }

  /** `parts.join(sep)`. */
  function Join(parts: seq<string>, sep: char): string
    requires |parts| >= 1
  {
    if |parts| == 1 then parts[0] else parts[0] + [sep] + Join(parts[1..], sep)
  }

  /** Splitting loses nothing: joining the pieces gives the string back. */
  lemma {:induction false} JoinSplit(s: string, sep: char)
    ensures Join(Split(s, sep), sep) == s
  {
    if |s| > 0 {
      JoinSplit(s[1..], sep);
      var rest := Split(s[1..], sep);
      if s[0] == sep {
        assert Split(s, sep)[1..] == rest;
      } else if |rest| == 1 {
        assert Join(Split(s, sep), sep) == [s[0]] + rest[0];
      } else {
        assert Split(s, sep)[1..] == rest[1..];
        assert Join(Split(s, sep), sep) == [s[0]] + rest[0] + [sep] + Join(rest[1..], sep);
      }
    }
  }
  /** A string without the separator is a single piece. */
  lemma SplitSingle(a: string, sep: char)
    requires sep !in a
    ensures Split(a, sep) == [a]
  {
    JoinSplit(a, sep);
  }

  /** The piece before the first separator comes off first. */
  lemma {:induction false} SplitConcat(a: string, sep: char, rest: string)
    requires sep !in a
    ensures Split(a + [sep] + rest, sep) == [a] + Split(rest, sep)
  {
    var s := a + [sep] + rest;
    if a == [] {
      assert s[0] == sep && s[1..] == rest;
    } else {
      assert s[0] == a[0] && s[1..] == a[1..] + [sep] + rest;
      SplitConcat(a[1..], sep, rest);
      assert [a[0]] + a[1..] == a;
    }
  }

  /** Joining pieces free of the separator and splitting again gives the
      pieces back. */
  lemma {:induction false} SplitJoin(parts: seq<string>, sep: char)
    requires |parts| >= 1 && forall k :: 0 <= k < |parts| ==> sep !in parts[k]
    ensures Split(Join(parts, sep), sep) == parts
  {
    if |parts| == 1 {
      SplitSingle(parts[0], sep);
    } else {
      SplitConcat(parts[0], sep, Join(parts[1..], sep));
      SplitJoin(parts[1..], sep);
      assert [parts[0]] + parts[1..] == parts;
    }
  }

  /** Digit strings contain no separator of `split('-')` or `split('.')`. */
  lemma DigitsHaveNoSeparator(s: string)
    requires AllDigits(s)
    ensures '-' !in s && '.' !in s
  {
  }

  /** A four-digit year is written with four characters. */
  lemma NatToStringFourDigits(n: nat)
    requires 1000 <= n <= 9999
    ensures |NatToString(n)| == 4
  {
    assert |NatToString(n / 10 / 10)| == 2;
  }
}
