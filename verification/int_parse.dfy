/**
 * Python's `int()` applied to text, in base 10, as `get_section` uses it:
 * whitespace around the number is ignored, one optional sign may lead, and
 * the rest is decimal digits with single underscores allowed between two
 * digits. Any other text makes `int()` raise `ValueError`, which is `None`
 * here. The inverse direction is Python's `str()` of an integer.
 */
module IntParse {
  import opened Wrappers

  predicate IsDigit(c: char) {
    '0' <= c <= '9'
  }

  function DigitValue(c: char): (d: nat)
    requires IsDigit(c)
    ensures d < 10
  {
    (c as int) - ('0' as int)
  }

  function DigitChar(d: nat): (c: char)
    requires d < 10
    ensures IsDigit(c) && DigitValue(c) == d
  {
    ('0' as int + d) as char
  }

  /**
   * The whitespace `int()` skips around a number. An ASCII character counts
   * only when it is a space, tab, line feed, vertical tab, form feed or
   * carriage return: the separators U+001C to U+001F, which `str.isspace`
   * accepts, make `int()` raise. A character beyond ASCII counts when
   * `str.isspace` accepts it.
   */
  predicate IntSpace(c: char) {
    var n := c as int;
    || 9 <= n <= 13
    || n == 32
    || n == 0x85 || n == 0xA0 || n == 0x1680
    || 0x2000 <= n <= 0x200A
    || n == 0x2028 || n == 0x2029 || n == 0x202F || n == 0x205F || n == 0x3000
  }

  /** How many whitespace characters open `s`. */
  function LeadingSpaces(s: string): (k: nat)
    ensures k <= |s|
    ensures forall i | 0 <= i < k :: IntSpace(s[i])
    ensures k < |s| ==> !IntSpace(s[k])
    decreases |s|
  {
    if |s| > 0 && IntSpace(s[0]) then 1 + LeadingSpaces(s[1..]) else 0
  }

  /** How many whitespace characters close `s`. */
  function TrailingSpaces(s: string): (k: nat)
    ensures k <= |s|
    ensures forall i | |s| - k <= i < |s| :: IntSpace(s[i])
    ensures k < |s| ==> !IntSpace(s[|s| - 1 - k])
    decreases |s|
  {
    if |s| > 0 && IntSpace(s[|s| - 1]) then 1 + TrailingSpaces(s[..|s| - 1]) else 0
  }

  /** The text `int()` reads: the longest slice of `s` that neither starts nor ends with whitespace. */
  function Strip(s: string): (t: string)
    ensures |t| > 0 ==> !IntSpace(t[0]) && !IntSpace(t[|t| - 1])
    ensures StrippedAt(s, t, LeadingSpaces(s))
    ensures (|s| == 0 || (!IntSpace(s[0]) && !IntSpace(s[|s| - 1]))) ==> t == s
  {
    var a := LeadingSpaces(s);
    var rest := s[a..];
    var t := rest[..|rest| - TrailingSpaces(rest)];
    StripEnds(s, a, rest, t);
    StripSlice(s, a, rest, t);
    t
  }

  lemma StripEnds(s: string, a: nat, rest: string, t: string)
    requires a == LeadingSpaces(s) && rest == s[a..] && t == rest[..|rest| - TrailingSpaces(rest)]
    ensures |t| > 0 ==> !IntSpace(t[0]) && !IntSpace(t[|t| - 1])
    ensures (|s| == 0 || (!IntSpace(s[0]) && !IntSpace(s[|s| - 1]))) ==> t == s
  {
    if |t| > 0 {
      assert t[0] == s[a] && t[|t| - 1] == rest[|rest| - 1 - TrailingSpaces(rest)];
    }
    if |s| > 0 && !IntSpace(s[0]) && !IntSpace(s[|s| - 1]) {
      assert a == 0 && rest == s;
      assert TrailingSpaces(rest) == 0;
    }
  }

  lemma StripSlice(s: string, a: nat, rest: string, t: string)
    requires a == LeadingSpaces(s) && rest == s[a..] && t == rest[..|rest| - TrailingSpaces(rest)]
    ensures StrippedAt(s, t, a)
  {
    StripTrailing(s, a, rest, t);
    assert t == s[a..a + |t|];
  }

  lemma StripTrailing(s: string, a: nat, rest: string, t: string)
    requires a <= |s| && rest == s[a..] && t == rest[..|rest| - TrailingSpaces(rest)]
    ensures forall i | a + |t| <= i < |s| :: IntSpace(s[i])
  {
    var k := TrailingSpaces(rest);
    forall i | a + |t| <= i < |s|
      ensures IntSpace(s[i])
    {
      assert |rest| - k <= i - a < |rest|;
      assert s[i] == rest[i - a];
    }
  }

  /** `t` is `s[a..a + |t|]`, and everything of `s` outside it is whitespace. */
  ghost predicate StrippedAt(s: string, t: string, a: int)
  {
    && 0 <= a <= a + |t| <= |s|
    && t == s[a..a + |t|]
    && (forall i | 0 <= i < a :: IntSpace(s[i]))
    && (forall i | a + |t| <= i < |s| :: IntSpace(s[i]))
  }

  predicate DigitsOrUnderscores(s: string) {
    forall i | 0 <= i < |s| :: IsDigit(s[i]) || s[i] == '_'
  }

  /** A run of digits in which each underscore stands between two digits. */
  predicate WellFormedDigits(s: string) {
    && |s| > 0
    && IsDigit(s[0])
    && IsDigit(s[|s| - 1])
    && DigitsOrUnderscores(s)
    && forall i | 0 <= i < |s| - 1 :: s[i] == '_' ==> IsDigit(s[i + 1])
  }

  /** The number the digits of `s` spell in base 10, underscores skipped. */
  function DigitsValue(s: string): nat
    requires DigitsOrUnderscores(s)
    decreases |s|
  {
    if |s| == 0 then 0
    else
      var init := s[..|s| - 1];
      if s[|s| - 1] == '_' then DigitsValue(init) else 10 * DigitsValue(init) + DigitValue(s[|s| - 1])
  }

  /**
   * `int(s)` for a `str` argument; `None` where Python raises `ValueError`.
   * A number needs at least one digit, so empty or blank text raises, a
   * negative number needs a minus sign, and text of more than
   * `MaxStrDigits` digits raises.
   */
  function ParseInt(s: string): (r: Option<int>)
    ensures r.Some? ==> exists i | 0 <= i < |s| :: IsDigit(s[i])
    ensures r.Some? && r.value < 0 ==> exists i | 0 <= i < |s| :: s[i] == '-'
    ensures (forall i | 0 <= i < |s| :: IntSpace(s[i])) ==> r.None?
    ensures r.Some? ==> DigitCount(s) <= MaxStrDigits
  {
    var t := Strip(s);
    var r := ParseSigned(t);
    StripDigitCount(s);
    assert r.Some? ==> exists i | 0 <= i < |s| :: IsDigit(s[i]) by {
      if r.Some? {
        var j :| 0 <= j < |t| && IsDigit(t[j]);
        StripWithin(s, j);
      }
    }
    assert r.Some? && r.value < 0 ==> exists i | 0 <= i < |s| :: s[i] == '-' by {
      if r.Some? && r.value < 0 {
        StripWithin(s, 0);
      }
    }
    r
  }

  /** Every character of the stripped text comes from the original. */
  lemma StripWithin(s: string, j: int)
    requires 0 <= j < |Strip(s)|
    ensures exists i | 0 <= i < |s| :: s[i] == Strip(s)[j]
  {
    var a := LeadingSpaces(s);
    assert s[a + j] == Strip(s)[j];
  }

  /**
   * CPython's default limit on the digits of a text-to-integer conversion
   * (`sys.int_info.default_max_str_digits`, since Python 3.11 and the
   * security releases 3.10.7, 3.9.14 and 3.8.14). Leading zeros count
   * toward it; signs and underscores do not.
   */
  const MaxStrDigits: nat := 4300

  /** How many decimal digits `s` holds, wherever they stand. */
  function DigitCount(s: string): (k: nat)
    ensures k <= |s|
    decreases |s|
  {
    if |s| == 0 then 0 else DigitCount(s[..|s| - 1]) + (if IsDigit(s[|s| - 1]) then 1 else 0)
  }

  lemma {:induction false} DigitCountAppend(a: string, b: string)
    ensures DigitCount(a + b) == DigitCount(a) + DigitCount(b)
    decreases |b|
  {
    if |b| == 0 {
      assert a + b == a;
    } else {
      var ab := a + b;
      assert ab[..|ab| - 1] == a + b[..|b| - 1];
      assert ab[|ab| - 1] == b[|b| - 1];
      DigitCountAppend(a, b[..|b| - 1]);
    }
  }

  lemma {:induction false} DigitCountAllDigits(s: string)
    requires forall i | 0 <= i < |s| :: IsDigit(s[i])
    ensures DigitCount(s) == |s|
    decreases |s|
  {
    if |s| > 0 {
      DigitCountAllDigits(s[..|s| - 1]);
    }
  }

  lemma {:induction false} DigitCountSpaces(s: string)
    requires forall i | 0 <= i < |s| :: IntSpace(s[i])
    ensures DigitCount(s) == 0
    decreases |s|
  {
    if |s| > 0 {
      assert !IsDigit(s[|s| - 1]);
      DigitCountSpaces(s[..|s| - 1]);
    }
  }

  /** Stripping removes whitespace only, never a digit. */
  lemma StripDigitCount(s: string)
    ensures DigitCount(Strip(s)) == DigitCount(s)
  {
    var t := Strip(s);
    var a := LeadingSpaces(s);
    var head, tail := s[..a], s[a + |t|..];
    assert s == head + t + tail;
    DigitCountAppend(head + t, tail);
    DigitCountAppend(head, t);
    DigitCountSpaces(head);
    DigitCountSpaces(tail);
  }

  /**
   * `int()` on text already stripped: an optional sign, then well-formed
   * digits, at most `MaxStrDigits` of them.
   */
  function ParseSigned(t: string): (r: Option<int>)
    ensures r.Some? ==> exists j | 0 <= j < |t| :: IsDigit(t[j])
    ensures r.Some? && r.value < 0 ==> t[0] == '-'
    ensures r.Some? ==> DigitCount(t) <= MaxStrDigits
  {
    if |t| == 0 then None
    else
      var body := if t[0] == '+' || t[0] == '-' then t[1..] else t;
      if !WellFormedDigits(body) then None
      else if DigitCount(body) > MaxStrDigits then None
      else
        assert IsDigit(t[|t| - |body|]);
        assert DigitCount(t) == DigitCount(body) by {
          if body != t {
            assert t == [t[0]] + body;
            DigitCountAppend([t[0]], body);
          }
        }
        var v: int := DigitsValue(body);
        if t[0] == '-' then Some(-v) else Some(v)
  }

  /** Python's `str(n)` for a non-negative integer: its decimal digits, no leading zero. */
  function NatText(n: nat): (s: string)
    ensures |s| > 0 && forall i | 0 <= i < |s| :: IsDigit(s[i])
    ensures |s| > 1 ==> s[0] != '0'
    decreases n
  {
    if n < 10 then [DigitChar(n)] else NatText(n / 10) + [DigitChar(n % 10)]
  }

  /** Python's `str(n)` for any integer. */
  function IntText(n: int): string
  {
    if n < 0 then "-" + NatText(-n) else NatText(n)
  }

  lemma {:induction false} NatTextValue(n: nat)
    ensures WellFormedDigits(NatText(n)) && DigitsValue(NatText(n)) == n
    decreases n
  {
    var s := NatText(n);
    if n < 10 {
      assert s[..0] == [];
    } else {
      NatTextValue(n / 10);
      assert s[..|s| - 1] == NatText(n / 10);
    }
  }

  /**
   * `int(str(n)) == n`: parsing inverts printing for every integer of at
   * most `MaxStrDigits` digits; a longer one is refused.
   */
  lemma ParseIntText(n: int)
    ensures ParseInt(IntText(n)) == if |NatText(if n < 0 then -n else n)| <= MaxStrDigits then Some(n) else None
  {
    var s := IntText(n);
    var digits := NatText(if n < 0 then -n else n);
    assert s[0] == '-' || IsDigit(s[0]);
    assert s[|s| - 1] == digits[|digits| - 1];
    assert Strip(s) == s;
    ParseSignedText(n);
  }

  lemma ParseSignedText(n: int)
    ensures ParseSigned(IntText(n)) == if |NatText(if n < 0 then -n else n)| <= MaxStrDigits then Some(n) else None
  {
    var s := IntText(n);
    var m: nat := if n < 0 then -n else n;
    var digits := NatText(m);
    NatTextValue(m);
    DigitCountAllDigits(digits);
    if n < 0 {
      assert s[0] == '-' && s[1..] == digits;
    } else {
      assert s == digits && s[0] != '+' && s[0] != '-';
    }
  }

  /**
   * `int()` raises on any text holding a character other than a digit, a
   * sign, an underscore or whitespace: a decimal point, a letter, a slash.
   */
  lemma ParseIntCharset(s: string)
    requires ParseInt(s).Some?
    ensures forall i | 0 <= i < |s| :: IsDigit(s[i]) || IntSpace(s[i]) || s[i] == '+' || s[i] == '-' || s[i] == '_'
  {
    var t := Strip(s);
    var a := LeadingSpaces(s);
    ParseSignedCharset(t);
    forall i | 0 <= i < |s|
      ensures IsDigit(s[i]) || IntSpace(s[i]) || s[i] == '+' || s[i] == '-' || s[i] == '_'
    {
      if a <= i < a + |t| {
        assert s[i] == t[i - a];
      }
    }
  }

  lemma ParseSignedCharset(t: string)
    requires ParseSigned(t).Some?
    ensures forall i | 0 <= i < |t| :: IsDigit(t[i]) || t[i] == '+' || t[i] == '-' || t[i] == '_'
  {
    var body := if t[0] == '+' || t[0] == '-' then t[1..] else t;
    forall i | 0 <= i < |t|
      ensures IsDigit(t[i]) || t[i] == '+' || t[i] == '-' || t[i] == '_'
    {
      if i > 0 || !(t[0] == '+' || t[0] == '-') {
        assert t[i] == body[i - (|t| - |body|)];
      }
    }
  }

  /** A division of two ASCII digits parses to the number they spell, leading zero allowed. */
  lemma ParseTwoDigits(s: string)
    requires |s| == 2 && IsDigit(s[0]) && IsDigit(s[1])
    ensures ParseInt(s) == Some(10 * DigitValue(s[0]) + DigitValue(s[1]))
  {
    assert !IntSpace(s[0]) && !IntSpace(s[1]);
    assert Strip(s) == s;
    ParseSignedTwoDigits(s);
  }

  lemma ParseSignedTwoDigits(s: string)
    requires |s| == 2 && IsDigit(s[0]) && IsDigit(s[1])
    ensures ParseSigned(s) == Some(10 * DigitValue(s[0]) + DigitValue(s[1]))
  {
    var init := s[..1];
    assert WellFormedDigits(s);
    DigitCountAllDigits(s);
    assert init[..0] == [] && init[0] == s[0];
    assert DigitsValue(init) == DigitValue(s[0]);
    assert DigitsValue(s) == 10 * DigitValue(s[0]) + DigitValue(s[1]);
  }

  /**
   * The information separator U+001C is whitespace to `str.isspace` but not
   * to `int()`: no text that opens with it parses, whatever follows.
   */
  lemma ParseIntRejectsSeparator(s: string)
    requires |s| > 0 && s[0] == 28 as char
    ensures ParseInt(s).None?
  {
    assert LeadingSpaces(s) == 0;
    if |Strip(s)| > 0 {
      assert Strip(s)[0] == s[0];
    }
  }
}
