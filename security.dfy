/** `SecurityUtils` of the table-plan editor (admin/js/table-plan-editor.js): the
    HTML-escaping sanitiser applied to table numbers, and the range check applied
    to every numeric input. */
module Security {
  import opened Wrappers
  import opened Text

  /** The characters the sanitiser replaces by an entity. */
  predicate IsSpecial(c: char) {
    c == '<' || c == '>' || c == '"' || c == '\'' || c == '&'
  }

  /** The entity of one character; any other character stands for itself. */
  function EscapeChar(c: char): (e: string)
    ensures |e| >= 1
    ensures !IsSpecial(c) ==> e == [c]
    ensures IsSpecial(c) ==> e[0] == '&' && e[|e| - 1] == ';'
  {
    match c
    case '<' => "&lt;"
    case '>' => "&gt;"
    case '"' => "&quot;"
    case '\'' => "&#x27;"
    case '&' => "&amp;"
    case _ => [c]
  }

  /** `input.replace(/[<>'"&]/g, …)`: every special character replaced by its
      entity in one left-to-right pass. */
  function Escape(s: string): (r: string)
    ensures |r| >= |s|
    ensures forall k :: 0 <= k < |r| ==> r[k] != '<' && r[k] != '>' && r[k] != '"' && r[k] != '\''
  {
    if s == [] then [] else EscapeChar(s[0]) + Escape(s[1..])
  }

  /** Decoding of the five entities the sanitiser produces, left to right. */
  function Unescape(s: string): string
  {
    if |s| >= 4 && s[..4] == "&lt;" then "<" + Unescape(s[4..])
    else if |s| >= 4 && s[..4] == "&gt;" then ">" + Unescape(s[4..])
    else if |s| >= 6 && s[..6] == "&quot;" then "\"" + Unescape(s[6..])
    else if |s| >= 6 && s[..6] == "&#x27;" then "'" + Unescape(s[6..])
    else if |s| >= 5 && s[..5] == "&amp;" then "&" + Unescape(s[5..])
    else if s == [] then []
    else [s[0]] + Unescape(s[1..])
  }

  /** `SecurityUtils.sanitizeInput` on a string: escape, then trim
      (`SanitizeInputSpec`). */
  function SanitizeInput(s: string): string
  {
    Trim(Escape(s))
  }

  /** The sanitised string contains no raw `<`, `>`, `"` or `'`, it is the
      escaped trimmed input, and decoding the entities gives back exactly the
      trimmed input. */
  lemma SanitizeInputSpec(s: string)
    ensures var r := SanitizeInput(s);
      && (forall k :: 0 <= k < |r| ==> r[k] != '<' && r[k] != '>' && r[k] != '"' && r[k] != '\'')
      && r == Escape(Trim(s))
      && Unescape(r) == Trim(s)
  {
    SanitizeIsEscapedTrim(s);
    UnescapeEscape(Trim(s));
  }

  lemma {:induction false} EscapeAppend(a: string, b: string)
    ensures Escape(a + b) == Escape(a) + Escape(b)
    decreases |a|
  {
    if a == [] {
      assert a + b == b;
    } else {
      assert (a + b)[0] == a[0] && (a + b)[1..] == a[1..] + b;
      EscapeAppend(a[1..], b);
    }
  }

  /** Decoding undoes escaping, for every string. */
  lemma {:induction false} UnescapeEscape(s: string)
    ensures Unescape(Escape(s)) == s
    decreases |s|
  {
    if s != [] {
      UnescapeEscape(s[1..]);
      UnescapeEscapeChar(s[0], Escape(s[1..]));
      assert [s[0]] + s[1..] == s;
    }
  }

  /** Decoding reads back one escaped character, whatever follows it. */
  lemma UnescapeEscapeChar(c: char, rest: string)
    ensures Unescape(EscapeChar(c) + rest) == [c] + Unescape(rest)
  {
    var e := EscapeChar(c) + rest;
    if !IsSpecial(c) {
      assert e[0] == c && e[1..] == rest;
      if |e| >= 4 { assert e[..4][0] == c; }
      if |e| >= 5 { assert e[..5][0] == c; }
      if |e| >= 6 { assert e[..6][0] == c; }
    } else if c == '<' {
      assert e[..4] == "&lt;" && e[4..] == rest;
    } else if c == '>' {
      assert e[..4] == "&gt;" && e[4..] == rest;
    } else if c == '"' {
      assert e[..4][1] == 'q' && e[..6] == "&quot;" && e[6..] == rest;
    } else if c == '\'' {
      assert e[..4][1] == '#' && e[..6] == "&#x27;" && e[6..] == rest;
    } else {
      assert e[..4][1] == 'a' && e[..5] == "&amp;" && e[5..] == rest;
      if |e| >= 6 { assert e[..6][1] == 'a'; }
    }
  }

  /** Escaping never turns white space into anything else and never produces white
      space, so it commutes with dropping leading white space ... */
  lemma {:induction false} TrimStartEscape(s: string)
    ensures TrimStart(Escape(s)) == Escape(TrimStart(s))
    decreases |s|
  {
    if s != [] {
      if IsWhitespace(s[0]) {
        assert Escape(s) == [s[0]] + Escape(s[1..]);
        assert Escape(s)[1..] == Escape(s[1..]);
        TrimStartEscape(s[1..]);
      } else {
        assert !IsWhitespace(Escape(s)[0]);
      }
    }
  }

  /** ... and with dropping trailing white space. */
  lemma {:induction false} TrimEndEscape(s: string)
    ensures TrimEnd(Escape(s)) == Escape(TrimEnd(s))
    decreases |s|
  {
    if s != [] {
      var init, last := s[..|s| - 1], s[|s| - 1];
      assert s == init + [last];
      EscapeSnoc(init, last);
      if IsWhitespace(last) {
        assert EscapeChar(last) == [last];
        TrimEndDropsLast(Escape(init), last);
        TrimEndDropsLast(init, last);
        TrimEndEscape(init);
      } else {
        var e := EscapeChar(last);
        assert !IsWhitespace(e[|e| - 1]);
        TrimEndKeeps(Escape(init) + e);
        TrimEndKeeps(s);
      }
    }
  }

  /** Escaping a string with one more character at its end. */
  lemma EscapeSnoc(init: string, last: char)
    ensures Escape(init + [last]) == Escape(init) + EscapeChar(last)
  {
    EscapeAppend(init, [last]);
    assert Escape([last]) == EscapeChar(last) + Escape([]);
  }

  /** A trailing white-space character is dropped by `TrimEnd`. */
  lemma TrimEndDropsLast(x: string, c: char)
    requires IsWhitespace(c)
    ensures TrimEnd(x + [c]) == TrimEnd(x)
  {
    assert (x + [c])[..|x|] == x;
  }

  /** `TrimEnd` leaves a string that ends in anything else unchanged. */
  lemma TrimEndKeeps(x: string)
    requires x != [] && !IsWhitespace(x[|x| - 1])
    ensures TrimEnd(x) == x
  {
  }

  /** Trimming after escaping is escaping after trimming. */
  lemma SanitizeIsEscapedTrim(s: string)
    ensures Trim(Escape(s)) == Escape(Trim(s))
  {
    TrimStartEscape(s);
    TrimEndEscape(TrimStart(s));
  }

  /** `SecurityUtils.validateNumber(value, min, max)` with the input already read
      by `parseFloat` (`None` for `NaN`): the number when it lies in `[lo, hi]`,
      otherwise `null`. */
  function ValidateNumber(v: Option<real>, lo: real, hi: real): (r: Option<real>)
    ensures r.Some? <==> v.Some? && lo <= v.value <= hi
    ensures r.Some? ==> r.value == v.value
  {
    if v.Some? && lo <= v.value && v.value <= hi then v else None
  }

  /** `value || fallback` on a number that may be `null`: `null` and `0` both
      give the fallback. */
  function OrDefault(v: Option<real>, fallback: real): (r: real)
    ensures v.Some? && v.value != 0.0 ==> r == v.value
    ensures v == None || v.value == 0.0 ==> r == fallback
  {
    if v.Some? && v.value != 0.0 then v.value else fallback
  }
}
