/** `darkenColor(hex, percent)` (admin/js/layout-editor.js): the border colour of
    a category button is its background colour with every channel scaled down. */
module Colors {
  import opened Wrappers
  import opened Text

  /** `s.replace('#', '')`: a string pattern replaces only its first occurrence. */
  function RemoveFirst(s: string, c: char): (r: string)
    ensures c !in s ==> r == s
    ensures |s| > 0 && s[0] == c ==> r == s[1..]
  {
    if s == [] then []
    else if s[0] == c then s[1..]
    else [s[0]] + RemoveFirst(s[1..], c)
  }

  /** `replace` cuts out exactly the first occurrence `j` of the character. */
  lemma {:induction false} RemoveFirstAt(s: string, c: char, j: nat)
    requires j < |s| && s[j] == c && c !in s[..j]
    ensures RemoveFirst(s, c) == s[..j] + s[j + 1..]
    decreases j
  {
    if j > 0 {
      assert s[0] in s[..j];
      var t := s[1..];
      assert s[..j] == [s[0]] + t[..j - 1];
      RemoveFirstAt(t, c, j - 1);
      assert s[j + 1..] == t[j..];
    }
  }

  /** `s.substring(i, i + 2)`: those of the characters at `i` and `i + 1` that exist. */
  function Pair(s: string, i: nat): (p: string)
    ensures |p| <= 2
  {
    (if i < |s| then [s[i]] else []) + (if i + 1 < |s| then [s[i + 1]] else [])
  }

  /** `Pair` is `substring` with both ends cut back to the length of the string. */
  lemma PairIsSubstring(s: string, i: nat)
    ensures var a, b := if i < |s| then i else |s|, if i + 2 < |s| then i + 2 else |s|;
      Pair(s, i) == s[a..b]
  {
  }

  /** Characters `2k` and `2k + 1` of `h` are hexadecimal digits. */
  predicate HexPair(h: string, k: nat) {
    2 * k + 2 <= |h| && IsHexDigit(h[2 * k]) && IsHexDigit(h[2 * k + 1])
  }

  /** `parseInt(hex.substring(2k, 2k + 2), 16)`, `None` standing for `NaN`. A pair
      of hexadecimal digits gives its value; anything else is parsed as JavaScript
      does: a lone digit, a sign or leading white space before one digit, or
      nothing at all. */
  function Channel(hex: string, k: nat): (c: Option<int>)
    requires k < 3
    ensures c.Some? ==> -256 < c.value < 256
    ensures c.Some? && c.value < 0 ==> '-' in Pair(hex, 2 * k)
    ensures HexPair(hex, k) ==> c == Some(HexDigitValue(hex[2 * k]) * 16 + HexDigitValue(hex[2 * k + 1]))
  {
    var pair := Pair(hex, 2 * k);
    ParsePair(pair);
    if HexPair(hex, k) then
      PairOf(hex, 2 * k);
      ParseHex(pair)
    else
      ParseHex(pair)
  }

  /** Two characters that exist are both taken. */
  lemma PairOf(s: string, i: nat)
    requires i + 2 <= |s|
    ensures |Pair(s, i)| == 2 && Pair(s, i)[0] == s[i] && Pair(s, i)[1] == s[i + 1]
  {
  }

  /** What `parseInt(pair, 16)` gives on at most two characters. */
  lemma ParsePair(pair: string)
    requires |pair| <= 2
    ensures ParseHex(pair).Some? ==> -256 < ParseHex(pair).value < 256
    ensures |pair| == 2 && IsHexDigit(pair[0]) && IsHexDigit(pair[1]) ==>
      ParseHex(pair) == Some(HexDigitValue(pair[0]) * 16 + HexDigitValue(pair[1]))
  {
    ParseHexShort(pair);
    if |pair| == 2 && IsHexDigit(pair[0]) && IsHexDigit(pair[1]) {
      ParseHexTwo(pair);
    }
  }

  /** Two hexadecimal digits parse to their value. */
  lemma ParseHexTwo(s: string)
    requires |s| == 2 && IsHexDigit(s[0]) && IsHexDigit(s[1])
    ensures ParseHex(s) == Some(HexDigitValue(s[0]) * 16 + HexDigitValue(s[1]))
  {
    var v := HexValue(s);
    assert v == HexDigitValue(s[0]) * 16 + HexDigitValue(s[1]) by {
      HexValuePair(s);
    }
    assert ParseHex(s) == Some(v as int) by {
      ParseHexOfHexDigits(s);
    }
  }

  /** The value of a pair of hexadecimal digits. */
  lemma HexValuePair(pair: string)
    requires |pair| == 2 && AllHexDigits(pair)
    ensures HexValue(pair) == HexDigitValue(pair[0]) * 16 + HexDigitValue(pair[1])
  {
    var first := pair[..1];
    assert first[..0] == [];
    assert HexValue(first) == HexDigitValue(pair[0]);
  }

  /** At most two characters parse to a number of at most two digits. */
  lemma ParseHexShort(s: string)
    requires |s| <= 2
    ensures ParseHex(s).Some? ==> -256 < ParseHex(s).value < 256
  {
    var t := TrimStart(s);
    var u := if |t| > 0 && (t[0] == '-' || t[0] == '+') then t[1..] else t;
    HexMagnitudeShort(u);
  }

  lemma HexMagnitudeShort(u: string)
    requires |u| <= 2
    ensures HexMagnitude(u).Some? ==> HexMagnitude(u).value < 256
  {
    var v := if |u| >= 2 && u[0] == '0' && (u[1] == 'x' || u[1] == 'X') then u[2..] else u;
    HexValueOfShort(HexPrefix(v));
  }

  /** `Math.floor(c * (100 - percent) / 100)`. */
  function Darken(c: int, percent: int): int {
    (c * (100 - percent)) / 100
  }

  /** A channel after `Math.floor`: `NaN` stays `NaN`. */
  function DarkenChannel(c: Option<int>, percent: int): Option<int> {
    if c.Some? then Some(Darken(c.value, percent)) else None
  }

  /** `c.toString(16).padStart(2, '0')` of a channel: `"NaN"` for `NaN`; any number
      is written so that `parseInt(…, 16)` reads it back, a byte as exactly two
      lower-case digits. */
  function ChannelText(c: Option<int>): (t: string)
    ensures c.None? ==> t == "NaN"
    ensures c.Some? ==> 'N' !in t && ParseHex(t) == c
    ensures c.Some? && 0 <= c.value < 256 ==>
      |t| == 2 && AllHexDigits(t) && NoUpperHex(t) && HexValue(t) == c.value
  {
    if c.None? then "NaN" else PaddedHex(c.value)
  }

  predicate IsLowerHexColor(s: string) {
    |s| == 7 && s[0] == '#'
    && forall k :: 1 <= k < 7 ==> IsHexDigit(s[k]) && !('A' <= s[k] <= 'F')
  }

  /** The first six characters are hexadecimal digits: three full channels. */
  predicate SixHexDigits(h: string) {
    |h| >= 6 && forall k :: 0 <= k < 6 ==> IsHexDigit(h[k])
  }

  /** `darkenColor(hex, percent)`. The text `NaN` appears in the result exactly
      when a channel does not parse; a colour of six hexadecimal digits darkened
      by a percentage gives a lower-case `#rrggbb` colour. */
  function DarkenColor(hex: string, percent: int): (r: string)
    ensures |r| >= 7 && r[0] == '#'
    ensures var h := RemoveFirst(hex, '#');
      'N' in r <==> Channel(h, 0).None? || Channel(h, 1).None? || Channel(h, 2).None?
    ensures 0 <= percent <= 100 && SixHexDigits(RemoveFirst(hex, '#')) ==> IsLowerHexColor(r)
  {
    DarkenDigits(RemoveFirst(hex, '#'), percent)
  }

  /** The colour `darkenColor` writes for the digits `h` left by `replace`. */
  function DarkenDigits(h: string, percent: int): (r: string)
    ensures |r| >= 7 && r[0] == '#'
    ensures 'N' in r <==> Channel(h, 0).None? || Channel(h, 1).None? || Channel(h, 2).None?
    ensures 0 <= percent <= 100 && SixHexDigits(h) ==> IsLowerHexColor(r)
  {
    var x := ChannelText(DarkenChannel(Channel(h, 0), percent));
    var y := ChannelText(DarkenChannel(Channel(h, 1), percent));
    var z := ChannelText(DarkenChannel(Channel(h, 2), percent));
    ColorText(x, y, z);
    SixDigitColor(h, percent);
    "#" + x + y + z
  }

  /** The three darkened channels of a six-digit colour are written as two
      lower-case digits each. */
  lemma SixDigitColor(h: string, percent: int)
    ensures 0 <= percent <= 100 && SixHexDigits(h) ==>
      IsLowerHexColor("#" + ChannelText(DarkenChannel(Channel(h, 0), percent))
                          + ChannelText(DarkenChannel(Channel(h, 1), percent))
                          + ChannelText(DarkenChannel(Channel(h, 2), percent)))
  {
    if 0 <= percent <= 100 && SixHexDigits(h) {
      assert HexPair(h, 0) && HexPair(h, 1) && HexPair(h, 2);
      DarkenBounds(Channel(h, 0).value, percent);
      DarkenBounds(Channel(h, 1).value, percent);
      DarkenBounds(Channel(h, 2).value, percent);
      LowerHexColorOf(ChannelText(DarkenChannel(Channel(h, 0), percent)),
                      ChannelText(DarkenChannel(Channel(h, 1), percent)),
                      ChannelText(DarkenChannel(Channel(h, 2), percent)));
    }
  }

  /** `'N'` occurs in `#xyz` exactly when it occurs in a channel text. */
  lemma ColorText(x: string, y: string, z: string)
    requires |x| >= 2 && |y| >= 2 && |z| >= 2
    ensures |"#" + x + y + z| >= 7 && ("#" + x + y + z)[0] == '#'
    ensures 'N' in "#" + x + y + z <==> 'N' in x || 'N' in y || 'N' in z
  {
    assert "#" + x + y + z == "#" + (x + (y + z));
  }

  lemma LowerHexColorOf(x: string, y: string, z: string)
    requires |x| == 2 && AllHexDigits(x) && NoUpperHex(x)
    requires |y| == 2 && AllHexDigits(y) && NoUpperHex(y)
    requires |z| == 2 && AllHexDigits(z) && NoUpperHex(z)
    ensures IsLowerHexColor("#" + x + y + z)
  {
    var s := "#" + x + y + z;
    assert s == ['#', x[0], x[1], y[0], y[1], z[0], z[1]];
  }

  /** For `0 <= percent <= 100` a channel never gets brighter nor negative, and
      `percent == 0` leaves it alone. */
  lemma DarkenBounds(c: nat, percent: int)
    requires 0 <= percent <= 100
    ensures 0 <= Darken(c, percent) <= c
    ensures percent == 0 ==> Darken(c, percent) == c
  {
    var m := 100 - percent;
    assert 0 <= c * m <= c * 100 by {
      assert c * 100 - c * m == c * percent;
      assert c * percent >= 0;
    }
  }

  /** For a six-digit colour, the three channels read back from the result are the
      darkened input channels: each at most the original, and unchanged for
      `percent == 0`. */
  lemma DarkenColorChannels(hex: string, percent: int)
    requires 0 <= percent <= 100
    requires SixHexDigits(RemoveFirst(hex, '#'))
    ensures var h := RemoveFirst(hex, '#');
      var out := RemoveFirst(DarkenColor(hex, percent), '#');
      forall k :: 0 <= k < 3 ==>
        && Channel(h, k).Some? && 0 <= Channel(h, k).value < 256
        && Channel(out, k) == Some(Darken(Channel(h, k).value, percent))
        && Darken(Channel(h, k).value, percent) <= Channel(h, k).value
        && (percent == 0 ==> Channel(out, k) == Channel(h, k))
  {
    var h := RemoveFirst(hex, '#');
    var s := DarkenDigits(h, percent);
    DropHash(s);
    DigitsReadBack(h, percent);
  }

  /** The read-back of `DarkenColorChannels` on the digits behind the `#`. */
  lemma DigitsReadBack(h: string, percent: int)
    requires 0 <= percent <= 100 && SixHexDigits(h)
    ensures var out := DarkenDigits(h, percent)[1..];
      forall k :: 0 <= k < 3 ==>
        && Channel(h, k).Some? && 0 <= Channel(h, k).value < 256
        && Channel(out, k) == Some(Darken(Channel(h, k).value, percent))
        && Darken(Channel(h, k).value, percent) <= Channel(h, k).value
        && (percent == 0 ==> Channel(out, k) == Channel(h, k))
  {
    assert HexPair(h, 0) && HexPair(h, 1) && HexPair(h, 2);
    var r, g, b := Channel(h, 0).value, Channel(h, 1).value, Channel(h, 2).value;
    DarkenBounds(r, percent);
    DarkenBounds(g, percent);
    DarkenBounds(b, percent);
    var s := DarkenDigits(h, percent);
    var out := s[1..];
    assert s == "#" + ChannelText(Some(Darken(r, percent))) + ChannelText(Some(Darken(g, percent)))
                    + ChannelText(Some(Darken(b, percent)));
    FieldsReadBack(s, Darken(r, percent), Darken(g, percent), Darken(b, percent));
    forall k | 0 <= k < 3
      ensures Channel(h, k).Some? && 0 <= Channel(h, k).value < 256
      ensures Channel(out, k) == Some(Darken(Channel(h, k).value, percent))
      ensures Darken(Channel(h, k).value, percent) <= Channel(h, k).value
      ensures percent == 0 ==> Channel(out, k) == Channel(h, k)
    {
      assert k == 0 || k == 1 || k == 2;
    }
  }

  /** A leading `#` is the one `replace` removes. */
  lemma DropHash(s: string)
    requires |s| > 0 && s[0] == '#'
    ensures RemoveFirst(s, '#') == s[1..]
  {
  }

  /** Behind the `#` of `#xyz` lie the three two-character fields. */
  lemma SplitColor(x: string, y: string, z: string)
    requires |x| == 2 && |y| == 2 && |z| == 2
    ensures var out := ("#" + x + y + z)[1..];
      Pair(out, 0) == x && Pair(out, 2) == y && Pair(out, 4) == z
  {
    var w := x + y + z;
    assert ("#" + x + y + z)[1..] == w;
    assert Pair(w, 0) == x && Pair(w, 2) == y && Pair(w, 4) == z;
  }

  /** The three bytes written behind the `#` read back as channels. */
  lemma FieldsReadBack(s: string, a: nat, b: nat, c: nat)
    requires a < 256 && b < 256 && c < 256
    requires s == "#" + ChannelText(Some(a)) + ChannelText(Some(b)) + ChannelText(Some(c))
    ensures Channel(s[1..], 0) == Some(a) && Channel(s[1..], 1) == Some(b) && Channel(s[1..], 2) == Some(c)
  {
    var x, y, z := ChannelText(Some(a)), ChannelText(Some(b)), ChannelText(Some(c));
    SplitColor(x, y, z);
    ChannelOfText(s[1..], 0, a);
    ChannelOfText(s[1..], 1, b);
    ChannelOfText(s[1..], 2, c);
  }

  /** A pair written by `ChannelText` reads back as its value. */
  lemma ChannelOfText(s: string, k: nat, v: nat)
    requires k < 3 && v < 256 && Pair(s, 2 * k) == ChannelText(Some(v))
    ensures Channel(s, k) == Some(v)
  {
  }

  /** A shorthand colour is not expanded: with at most four digits behind the `#`
      (as in `#abc`) the third channel reads the empty string, so the result
      contains `NaN`. */
  lemma ShorthandColor(hex: string, percent: int)
    requires |RemoveFirst(hex, '#')| <= 4
    ensures Channel(RemoveFirst(hex, '#'), 2).None?
    ensures 'N' in DarkenColor(hex, percent)
  {
    var h := RemoveFirst(hex, '#');
    assert Pair(h, 4) == [];
    assert TrimStart([]) == [];
    assert HexMagnitude([]) == None;
  }
}
