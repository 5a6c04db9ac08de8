/** The string handling the price list relies on: whitespace trimming as
    `str.strip()` and `float()` do it, and decimal digit strings. */
module Text {

  /** The characters for which Python's `str.isspace()` holds, which are the
      characters `str.strip()` with no argument removes from the ends. */
  predicate IsSpace(c: char) {
    var n := c as int;
    || 9 <= n <= 13
    || 28 <= n <= 32
    || n == 0x85
    || n == 0xA0
    || n == 0x1680
    || 0x2000 <= n <= 0x200A
    || n == 0x2028
    || n == 0x2029
    || n == 0x202F
    || n == 0x205F
    || n == 0x3000
  }

  /** The whitespace `float()` removes around a number. It maps every non-ASCII
      whitespace character to a space and then trims the ASCII characters
      tab, line feed, vertical tab, form feed, carriage return and space, so
      the separators U+001C to U+001F, which `str.isspace()` accepts, stay. */
  predicate IsNumberSpace(c: char) {
    IsSpace(c) && !(28 <= c as int <= 31)
  }

  ghost predicate AllBlank(blank: char -> bool, s: string) {
    forall k :: 0 <= k < |s| ==> blank(s[k])
  }

  /** Number of `blank` characters at the front of `s`. */
  function LeadingBlanks(blank: char -> bool, s: string): (n: nat)
    ensures n <= |s|
    ensures forall k :: 0 <= k < n ==> blank(s[k])
    ensures n < |s| ==> !blank(s[n])
  {
    if |s| > 0 && blank(s[0]) then 1 + LeadingBlanks(blank, s[1..]) else 0
  }

  /** Length of `s` once the `blank` characters at its back are removed. */
  function TrailingStart(blank: char -> bool, s: string): (n: nat)
    ensures n <= |s|
    ensures forall k :: n <= k < |s| ==> blank(s[k])
    ensures n > 0 ==> !blank(s[n - 1])
  {
    if |s| > 0 && blank(s[|s| - 1]) then TrailingStart(blank, s[..|s| - 1]) else |s|
  }

  /** `s` without the `blank` characters at its front and its back. */
  function Trim(blank: char -> bool, s: string): (r: string)
    ensures |r| <= |s|
    ensures |r| > 0 ==> !blank(r[0]) && !blank(r[|r| - 1])
  {
    var t := s[LeadingBlanks(blank, s)..];
    t[..TrailingStart(blank, t)]
  }

  /** Python's `s.strip()`: `s` without its leading and trailing whitespace. */
  function Strip(s: string): (r: string)
    ensures |r| <= |s|
    ensures |r| > 0 ==> !IsSpace(r[0]) && !IsSpace(r[|r| - 1])
  {
    Trim(IsSpace, s)
  }

  /** Trimming only cuts blanks off the ends: the result is a piece of `s`
      with nothing but blanks before and after it. */
  lemma TrimPiece(blank: char -> bool, s: string)
    ensures exists a ::
              && 0 <= a <= |s| - |Trim(blank, s)| && s[a..a + |Trim(blank, s)|] == Trim(blank, s)
              && AllBlank(blank, s[..a]) && AllBlank(blank, s[a + |Trim(blank, s)|..])
  {
    var a := LeadingBlanks(blank, s);
    var t := s[a..];
    var r := Trim(blank, s);
    assert r == t[..TrailingStart(blank, t)];
    assert s[a..a + |r|] == r;
    assert AllBlank(blank, s[..a]);
    assert s[a + |r|..] == t[|r|..];
    assert AllBlank(blank, s[a + |r|..]);
  }

  /** The blanks a trim removes, in front and behind. */
  lemma TrimSplit(blank: char -> bool, s: string) returns (pre: string, post: string)
    ensures AllBlank(blank, pre) && AllBlank(blank, post) && s == pre + Trim(blank, s) + post
  {
    var a := LeadingBlanks(blank, s);
    var b := a + TrailingStart(blank, s[a..]);
    assert s[a..b] == Trim(blank, s);
    pre, post := s[..a], s[b..];
    assert AllBlank(blank, post) by {
      forall k | 0 <= k < |post| ensures blank(post[k]) {
        assert post[k] == s[a..][b - a + k];
      }
    }
    ConcatSlices(s, a, b);
  }

  /** Cutting a string twice and joining the pieces gives it back. */
  lemma ConcatSlices(s: string, a: nat, b: nat)
    requires a <= b <= |s|
    ensures s == s[..a] + s[a..b] + s[b..]
  {
  }

  /** A string made of blanks, a core with no blank at either end, and more
      blanks trims to exactly that core, and to nothing else. */
  lemma TrimExact(blank: char -> bool, pre: string, core: string, post: string)
    requires AllBlank(blank, pre) && AllBlank(blank, post)
    requires |core| > 0 ==> !blank(core[0]) && !blank(core[|core| - 1])
    ensures Trim(blank, pre + core + post) == core
  {
    var s := pre + core + post;
    var a := LeadingBlanks(blank, s);
    if |core| == 0 {
      assert s == pre + post;
      assert AllBlank(blank, s);
      assert a == |s|;
    } else {
      assert s[|pre|] == core[0];
      assert a == |pre|;
      var t := s[a..];
      assert t == core + post;
      var b := TrailingStart(blank, t);
      assert t[|core| - 1] == core[|core| - 1];
      assert b == |core|;
      assert t[..b] == core;
    }
  }

  /** A string with no blank at its ends trims to itself. */
  lemma TrimTrimmed(blank: char -> bool, s: string)
    requires |s| > 0 && !blank(s[0]) && !blank(s[|s| - 1])
    ensures Trim(blank, s) == s
  {
    TrimExact(blank, [], s, []);
    assert [] + s + [] == s;
  }

  /** A string that does not start with a blank keeps its first character. */
  lemma TrimKeepsFirst(blank: char -> bool, s: string)
    requires |s| > 0 && !blank(s[0])
    ensures |Trim(blank, s)| > 0 && Trim(blank, s)[0] == s[0]
  {
    var t := s[LeadingBlanks(blank, s)..];
    assert t == s;
    assert TrailingStart(blank, t) > 0;
  }

  /** Stripping twice is the same as stripping once. */
  lemma StripIdempotent(s: string)
    ensures Strip(Strip(s)) == Strip(s)
  {
    var r := Strip(s);
    TrimExact(IsSpace, [], r, []);
    assert [] + r + [] == r;
  }

  /** `s` with the ASCII capitals A to Z made lower case. */
  function LowerAscii(s: string): (r: string)
    ensures |r| == |s|
    ensures forall k :: 0 <= k < |s| ==> r[k] == (if 'A' <= s[k] <= 'Z' then (s[k] as int + 32) as char else s[k])
  {
    if |s| == 0 then [] else LowerAscii(s[..|s| - 1]) + [if 'A' <= s[|s| - 1] <= 'Z' then (s[|s| - 1] as int + 32) as char else s[|s| - 1]]
  }

  predicate IsDigit(c: char) {
    '0' <= c <= '9'
  }

  predicate AllDigits(s: string) {
    forall k :: 0 <= k < |s| ==> IsDigit(s[k])
  }

  function DigitValue(c: char): (d: nat)
    requires IsDigit(c)
    ensures d < 10
  {
    c as int - '0' as int
  }

  function DigitChar(d: nat): (c: char)
    requires d < 10
    ensures IsDigit(c) && DigitValue(c) == d
  {
    ('0' as int + d) as char
  }

  /** The value of a string of decimal digits, most significant first; the
      empty string is worth 0. */
  function DigitsValue(s: string): nat
    requires AllDigits(s)
  {
    if |s| == 0 then 0 else 10 * DigitsValue(s[..|s| - 1]) + DigitValue(s[|s| - 1])
  }

  /** The shortest decimal spelling of `n`. */
  function NatToDigits(n: nat): (r: string)
    ensures |r| > 0 && AllDigits(r)
    ensures n > 0 ==> r[0] != '0'
  {
    if n < 10 then [DigitChar(n)] else NatToDigits(n / 10) + [DigitChar(n % 10)]
  }

  /** Reading back the spelling of `n` gives `n`. */
  lemma {:induction false} DigitsRoundTrip(n: nat)
    ensures DigitsValue(NatToDigits(n)) == n
  {
    var r := NatToDigits(n);
    if n >= 10 {
      DigitsRoundTrip(n / 10);
      assert r[..|r| - 1] == NatToDigits(n / 10);
    }
  }
}
