/** Unit prices in whole pence, and a decimal reading of the price column that
    stands in for Python's `float()`. */
module Prices {
  import opened Wrappers
  import opened Text

  /** A price in pence (hundredths of a pound); `float()` accepts a leading
      minus, so prices may be negative. */
  type Pence = int

  /** Index of the first occurrence of `c` in `s`, if any. */
  function FirstIndex(s: string, c: char): (r: Option<nat>)
    ensures r.Some? ==> r.value < |s| && s[r.value] == c
    ensures r.Some? ==> forall k :: 0 <= k < r.value ==> s[k] != c
    ensures r.None? ==> forall k :: 0 <= k < |s| ==> s[k] != c
  {
    if |s| == 0 then None
    else if s[0] == c then Some(0)
    else match FirstIndex(s[1..], c)
      case None => None
      case Some(i) => Some(i + 1)
  }

  /** Pence denoted by at most two digits written after the decimal point. */
  function FractionPence(frac: string): (p: nat)
    requires AllDigits(frac) && |frac| <= 2
    ensures p < 100
  {
    if |frac| == 0 then 0
    else if |frac| == 1 then 10 * DigitValue(frac[0])
    else 10 * DigitValue(frac[0]) + DigitValue(frac[1])
  }

  /** Reads an unsigned price: digits, then optionally a point and at most two
      more digits, with at least one digit in all. */
  function ParseUnsigned(body: string): (r: Option<nat>)
    ensures r.Some? ==> |body| > 0
  {
    var dot := FirstIndex(body, '.');
    var whole := if dot.Some? then body[..dot.value] else body;
    var frac := if dot.Some? then body[dot.value + 1..] else "";
    if AllDigits(whole) && AllDigits(frac) && |whole| + |frac| > 0 && |frac| <= 2 then
      Some(100 * DigitsValue(whole) + FractionPence(frac))
    else
      None
  }

  /** Reads a price written as an optional sign, decimal digits and an optional
      point followed by at most two digits, with the whitespace `float()` trims
      allowed around it ("5.00", " 6.5", "-3", ".99", "7."). Anything else is
      `None`, the counterpart of `float()` raising `ValueError`. */
  function ParseDecimal(s: string): (r: Option<Pence>)
    ensures r.Some? ==> |Trim(IsNumberSpace, s)| > 0
    ensures r.Some? && r.value < 0 ==> Trim(IsNumberSpace, s)[0] == '-'
  {
    ReadSigned(Trim(IsNumberSpace, s))
  }

  /** Reads a field with its whitespace already trimmed: an optional sign,
      then an unsigned price. */
  function ReadSigned(t: string): (r: Option<Pence>)
    ensures r.Some? ==> |t| > 0
    ensures r.Some? && r.value < 0 ==> t[0] == '-'
  {
    var (negative, body) := SplitSign(t);
    match ParseUnsigned(body)
    case None => None
    case Some(pence) => Some(if negative then -(pence as int) else pence)
  }

  /** Separates a leading `+` or `-` from the rest; `negative` holds for `-`. */
  function SplitSign(t: string): (r: (bool, string))
    ensures r.0 ==> |t| > 0 && t[0] == '-'
    ensures |r.1| <= |t|
  {
    if |t| > 0 && (t[0] == '+' || t[0] == '-') then (t[0] == '-', t[1..]) else (false, t)
  }

  /** An amount of pence as pounds, a point and two pence digits: "6.50". */
  function Spelling(m: nat): (r: string)
    ensures |r| >= 4 && r[|r| - 3] == '.'
    ensures IsDigit(r[0]) && IsDigit(r[|r| - 2]) && IsDigit(r[|r| - 1])
  {
    NatToDigits(m / 100) + "." + [DigitChar(m % 100 / 10), DigitChar(m % 10)]
  }

  /** The price as the price list and the order panel write it (`{:.2f}`):
      a minus for a negative price, then the spelling of its size. */
  function FormatPrice(p: Pence): string
  {
    (if p < 0 then "-" else "") + Spelling(if p < 0 then -p else p)
  }

  /** The first `c` in `a + [c] + b` is the one after `a` when `a` has none. */
  lemma FirstIndexAfter(a: string, c: char, b: string)
    requires forall k :: 0 <= k < |a| ==> a[k] != c
    ensures FirstIndex(a + [c] + b, c) == Some(|a|)
  {
    var s := a + [c] + b;
    assert s[|a|] == c;
    assert forall k :: 0 <= k < |a| ==> s[k] == a[k];
  }

  /** A point between two digit strings is where the pounds end and the pence
      begin; either side may be empty, but not both. */
  lemma ParseUnsignedPointed(whole: string, frac: string)
    requires AllDigits(whole) && AllDigits(frac) && |whole| + |frac| > 0 && |frac| <= 2
    ensures ParseUnsigned(whole + "." + frac) == Some(100 * DigitsValue(whole) + FractionPence(frac))
  {
    if |whole| == 0 {
      ParseUnsignedFraction(whole, frac);
    } else {
      ParseUnsignedPounds(whole, frac);
    }
  }

  /** Pounds digits, a point and at most two pence digits. */
  lemma ParseUnsignedPounds(whole: string, frac: string)
    requires AllDigits(whole) && AllDigits(frac) && |whole| > 0 && |frac| <= 2
    ensures ParseUnsigned(whole + "." + frac) == Some(100 * DigitsValue(whole) + FractionPence(frac))
  {
    var body := whole + "." + frac;
    FirstIndexAfter(whole, '.', frac);
    assert body[..|whole|] == whole;
    assert body[|whole| + 1..] == frac;
  }

  /** No pounds digits, a point and one or two pence digits. */
  lemma ParseUnsignedFraction(whole: string, frac: string)
    requires |whole| == 0 && AllDigits(frac) && 0 < |frac| <= 2
    ensures ParseUnsigned(whole + "." + frac) == Some(100 * DigitsValue(whole) + FractionPence(frac))
  {
    var body := whole + "." + frac;
    assert body[0] == '.';
    assert FirstIndex(body, '.') == Some(0);
    assert body[1..] == frac;
    assert body[..0] == whole;
  }

  /** Digits with no point read as that many pounds. */
  lemma ParseUnsignedWhole(whole: string)
    requires AllDigits(whole) && |whole| > 0
    ensures ParseUnsigned(whole) == Some(100 * DigitsValue(whole))
  {
  }

  /** `SplitSign` cuts at most a sign off the front: the rest follows what was
      cut, and the split says negative exactly when a minus was cut. */
  lemma SplitSignJoin(t: string)
    ensures var (negative, body) := SplitSign(t);
      && |body| <= |t| && IsSign(t[..|t| - |body|]) && t == t[..|t| - |body|] + body
      && (negative <==> t[..|t| - |body|] == "-")
  {
    var body := SplitSign(t).1;
    if |t| > 0 && (t[0] == '+' || t[0] == '-') {
      assert t[..|t| - |body|] == [t[0]];
    } else {
      assert t[..|t| - |body|] == "";
    }
  }

  /** A sign, or none, in front of a string that starts with neither sign is
      split off again. */
  lemma SplitSignOf(sign: string, body: string)
    requires IsSign(sign) && |body| > 0 && body[0] != '+' && body[0] != '-'
    ensures SplitSign(sign + body) == (sign == "-", body)
  {
    var r := sign + body;
    if sign == "" {
      assert r == body;
    } else {
      assert r[0] == sign[0];
      assert r[1..] == body;
    }
  }

  /** A sign, or none, before an unsigned price that starts with neither
      sign reads as that price, negated for a minus. */
  lemma ReadSignedReads(sign: string, body: string, v: nat)
    requires IsSign(sign) && |body| > 0 && body[0] != '+' && body[0] != '-'
    requires ParseUnsigned(body) == Some(v)
    ensures ReadSigned(sign + body) == Some(Signed(sign, v))
  {
    SplitSignOf(sign, body);
  }

  /** A sign followed by an unsigned price with digits at both ends reads as
      that price, negated for a minus. */
  lemma ParseSignedBody(negative: bool, body: string, v: nat)
    requires |body| > 0 && IsDigit(body[0]) && IsDigit(body[|body| - 1])
    requires ParseUnsigned(body) == Some(v)
    ensures ParseDecimal((if negative then "-" else "") + body) == Some(if negative then -(v as int) else v)
  {
    var r := (if negative then "-" else "") + body;
    assert r[|r| - 1] == body[|body| - 1];
    assert r[0] == (if negative then '-' else body[0]);
    TrimTrimmed(IsNumberSpace, r);
    ReadSignedReads(if negative then "-" else "", body, v);
  }

  // ---------------------------------------------------------------------------
  // The price fields the reader accepts, described without the reader.

  /** Digits `whole`, then, when `pointed`, a point and at most two digits
      `frac`, with at least one digit in all: "5", "6.5", "7.", ".99". */
  predicate ValidNumeral(whole: string, frac: string, pointed: bool) {
    && AllDigits(whole) && AllDigits(frac) && |frac| <= 2 && |whole| + |frac| > 0
    && (!pointed ==> |frac| == 0)
  }

  function Numeral(whole: string, frac: string, pointed: bool): string {
    if pointed then whole + "." + frac else whole
  }

  /** The pence a numeral stands for: its digits with the point dropped and
      the fraction padded with zeros to two places, read as one whole number
      ("6.5" is "650", ".99" is "099", "7" is "700"). */
  function Amount(whole: string, frac: string): nat
    requires AllDigits(whole) && AllDigits(frac) && |frac| <= 2
  {
    DigitsValue(whole + frac + Zeros(2 - |frac|))
  }

  /** `n` zero digits. */
  function Zeros(n: nat): (z: string)
    ensures |z| == n && AllDigits(z)
    ensures forall k :: 0 <= k < n ==> z[k] == '0'
  {
    if n == 0 then "" else Zeros(n - 1) + "0"
  }

  /** The amount is the pounds digits counted in hundreds plus the fraction
      read as hundredths, a single digit counting tens: the reader's
      arithmetic agrees with the padded reading. */
  lemma AmountSplit(whole: string, frac: string)
    requires AllDigits(whole) && AllDigits(frac) && |frac| <= 2
    ensures Amount(whole, frac) == 100 * DigitsValue(whole) + FractionPence(frac)
  {
    var cents := frac + Zeros(2 - |frac|);
    assert |cents| == 2;
    assert cents == [cents[0], cents[1]];
    assert whole + frac + Zeros(2 - |frac|) == whole + [cents[0], cents[1]];
    DigitsTwo(whole, cents[0], cents[1]);
  }

  /** Two more digits multiply the value by a hundred and add their own. */
  lemma DigitsTwo(s: string, a: char, b: char)
    requires AllDigits(s) && IsDigit(a) && IsDigit(b)
    ensures AllDigits(s + [a, b])
    ensures DigitsValue(s + [a, b]) == 100 * DigitsValue(s) + 10 * DigitValue(a) + DigitValue(b)
  {
    assert s + [a, b] == (s + [a]) + [b];
    DigitsSnoc(s, a);
    DigitsSnoc(s + [a], b);
  }

  lemma DigitsSnoc(s: string, c: char)
    requires AllDigits(s) && IsDigit(c)
    ensures AllDigits(s + [c])
    ensures DigitsValue(s + [c]) == 10 * DigitsValue(s) + DigitValue(c)
  {
    assert (s + [c])[..|s|] == s;
  }

  predicate IsSign(sign: string) {
    sign == "" || sign == "+" || sign == "-"
  }

  function Signed(sign: string, m: nat): Pence {
    if sign == "-" then -(m as int) else m
  }

  /** `s` is whitespace `float()` trims, an optional sign, a numeral, and more
      such whitespace. */
  ghost predicate PriceField(s: string, pre: string, sign: string, whole: string, frac: string, pointed: bool, post: string) {
    && AllBlank(IsNumberSpace, pre) && AllBlank(IsNumberSpace, post)
    && IsSign(sign) && ValidNumeral(whole, frac, pointed)
    && s == pre + sign + Numeral(whole, frac, pointed) + post
  }

  /** Every numeral reads as the amount it writes. */
  lemma ParseUnsignedReads(whole: string, frac: string, pointed: bool)
    requires ValidNumeral(whole, frac, pointed)
    ensures ParseUnsigned(Numeral(whole, frac, pointed)) == Some(Amount(whole, frac))
  {
    AmountSplit(whole, frac);
    if pointed {
      ParseUnsignedPointed(whole, frac);
    } else {
      ParseUnsignedWhole(whole);
    }
  }

  /** Whatever reads is a numeral, and reads as the amount it writes. */
  lemma ParseUnsignedSound(body: string)
    requires ParseUnsigned(body).Some?
    ensures exists whole, frac, pointed ::
              && ValidNumeral(whole, frac, pointed) && Numeral(whole, frac, pointed) == body
              && ParseUnsigned(body).value == Amount(whole, frac)
  {
    var dot := FirstIndex(body, '.');
    if dot.Some? {
      var whole, frac := body[..dot.value], body[dot.value + 1..];
      assert body == whole + "." + frac;
      assert Numeral(whole, frac, true) == body;
      AmountSplit(whole, frac);
    } else {
      assert Numeral(body, "", false) == body;
      AmountSplit(body, "");
    }
  }

  /** Every price field reads as its signed amount. */
  lemma ParseDecimalReads(pre: string, sign: string, whole: string, frac: string, pointed: bool, post: string)
    requires AllBlank(IsNumberSpace, pre) && AllBlank(IsNumberSpace, post)
    requires IsSign(sign) && ValidNumeral(whole, frac, pointed)
    ensures ParseDecimal(pre + sign + Numeral(whole, frac, pointed) + post) == Some(Signed(sign, Amount(whole, frac)))
  {
    var body := Numeral(whole, frac, pointed);
    NumeralEnds(whole, frac, pointed);
    ParseUnsignedReads(whole, frac, pointed);
    ParseDecimalAround(pre, sign, body, post, Amount(whole, frac));
  }

  /** A numeral starts with a digit or a point and ends with one. */
  lemma NumeralEnds(whole: string, frac: string, pointed: bool)
    requires ValidNumeral(whole, frac, pointed)
    ensures var body := Numeral(whole, frac, pointed);
      && |body| > 0
      && (IsDigit(body[0]) || body[0] == '.')
      && (IsDigit(body[|body| - 1]) || body[|body| - 1] == '.')
  {
    var body := Numeral(whole, frac, pointed);
    if pointed {
      assert body[|whole|] == '.';
      if |whole| > 0 {
        assert body[0] == whole[0];
      }
      if |frac| > 0 {
        assert body[|body| - 1] == frac[|frac| - 1];
      }
    }
  }

  /** Trimmable whitespace around a sign and an unsigned price that starts and
      ends with a digit or a point: the field reads as the signed price. */
  lemma ParseDecimalAround(pre: string, sign: string, body: string, post: string, v: nat)
    requires AllBlank(IsNumberSpace, pre) && AllBlank(IsNumberSpace, post) && IsSign(sign)
    requires |body| > 0 && (IsDigit(body[0]) || body[0] == '.')
    requires IsDigit(body[|body| - 1]) || body[|body| - 1] == '.'
    requires ParseUnsigned(body) == Some(v)
    ensures ParseDecimal(pre + sign + body + post) == Some(Signed(sign, v))
  {
    var core := sign + body;
    assert pre + sign + body + post == pre + core + post;
    assert core[0] == (if sign == "" then body[0] else sign[0]);
    assert core[|core| - 1] == body[|body| - 1];
    TrimExact(IsNumberSpace, pre, core, post);
    ReadSignedReads(sign, body, v);
  }

  /** Whatever reads is a price field, and reads as its signed amount. */
  lemma ParseDecimalSound(s: string)
    requires ParseDecimal(s).Some?
    ensures exists pre, sign, whole, frac, pointed, post ::
              && PriceField(s, pre, sign, whole, frac, pointed, post)
              && ParseDecimal(s).value == Signed(sign, Amount(whole, frac))
  {
    var t := Trim(IsNumberSpace, s);
    var pre, post := TrimSplit(IsNumberSpace, s);
    var sign, whole, frac, pointed := ReadSignedSound(t);
    Assemble(s, pre, t, post, sign, whole, frac, pointed);
  }

  /** A trimmed field that reads is a sign and a numeral, and reads as the
      numeral's amount with that sign. */
  lemma ReadSignedSound(t: string) returns (sign: string, whole: string, frac: string, pointed: bool)
    requires ReadSigned(t).Some?
    ensures IsSign(sign) && ValidNumeral(whole, frac, pointed) && t == sign + Numeral(whole, frac, pointed)
    ensures ReadSigned(t).value == Signed(sign, Amount(whole, frac))
  {
    var (negative, body) := SplitSign(t);
    SplitSignJoin(t);
    sign := t[..|t| - |body|];
    ParseUnsignedSound(body);
    whole, frac, pointed :| && ValidNumeral(whole, frac, pointed) && Numeral(whole, frac, pointed) == body
                            && ParseUnsigned(body).value == Amount(whole, frac);
  }

  /** A trimmed field put back between its blanks, with its sign and numeral
      named, is a price field. */
  lemma Assemble(s: string, pre: string, t: string, post: string, sign: string, whole: string, frac: string, pointed: bool)
    requires AllBlank(IsNumberSpace, pre) && AllBlank(IsNumberSpace, post) && s == pre + t + post
    requires IsSign(sign) && ValidNumeral(whole, frac, pointed) && t == sign + Numeral(whole, frac, pointed)
    ensures PriceField(s, pre, sign, whole, frac, pointed, post)
  {
    var body := Numeral(whole, frac, pointed);
    assert pre + sign + body + post == pre + (sign + body) + post;
  }

  /** The spelling of an amount reads back as that amount. */
  lemma SpellingReads(m: nat)
    ensures ParseUnsigned(Spelling(m)) == Some(m)
  {
    var digits := NatToDigits(m / 100);
    var cents := [DigitChar(m % 100 / 10), DigitChar(m % 10)];
    assert FractionPence(cents) == m % 100 by {
      assert cents[0] == DigitChar(m % 100 / 10) && cents[1] == DigitChar(m % 10);
    }
    ParseUnsignedPointed(digits, cents);
    DigitsRoundTrip(m / 100);
  }

  /** Every price survives being written out and read back. */
  lemma ParseFormatRoundTrip(p: Pence)
    ensures ParseDecimal(FormatPrice(p)) == Some(p)
  {
    var m := if p < 0 then -p else p;
    SpellingReads(m);
    ParseSignedBody(p < 0, Spelling(m), m);
  }

  /** A field whose first character is ASCII and neither a digit, a sign, a
      point nor whitespace `float()` trims, and which is not one of the words
      for infinity or not-a-number, is no price. */
  lemma NoNumberStart(s: string)
    requires |s| > 0 && s[0] as int < 128 && !IsNumberSpace(s[0]) && !IsDigit(s[0]) && s[0] !in "+-."
    requires !IsSpecialWord(Trim(IsNumberSpace, s))
    ensures ParseDecimal(s) == None
  {
    OtherStartRejected(s);
  }

  /** This reader rejects every field whose first character is neither an
      ASCII digit, a sign, a point nor whitespace `float()` trims. That
      includes "inf", "nan" and fields starting with a digit of another script
      ("５"), which `float()` reads. */
  lemma OtherStartRejected(s: string)
    requires |s| > 0 && !IsNumberSpace(s[0]) && !IsDigit(s[0]) && s[0] !in "+-."
    ensures ParseDecimal(s) == None
  {
    TrimKeepsFirst(IsNumberSpace, s);
    var t := Trim(IsNumberSpace, s);
    assert SplitSign(t) == (false, t);
    var dot := FirstIndex(t, '.');
    if dot.Some? {
      assert dot.value > 0;
      assert t[..dot.value][0] == t[0];
    }
  }

  /** The words `float()` reads as an infinity or as not-a-number, in any mix
      of upper and lower case. */
  predicate IsSpecialWord(w: string) {
    var l := LowerAscii(w);
    l == "inf" || l == "infinity" || l == "nan"
  }

  /** A price field that starts with a letter and is not one of the words for
      infinity or not-a-number ("notanumber") is rejected, as `float()`
      rejects it. */
  lemma LetterIsNoPrice(s: string)
    requires |s| > 0 && ('a' <= s[0] <= 'z' || 'A' <= s[0] <= 'Z')
    requires !IsSpecialWord(Trim(IsNumberSpace, s))
    ensures ParseDecimal(s) == None
  {
    NoNumberStart(s);
  }

  /** A price field that starts with one of the separators U+001C to U+001F is
      rejected: `float()` does not trim them, although `str.strip()` on the
      name column does. */
  lemma SeparatorIsNoPrice(s: string)
    requires |s| > 0 && 28 <= s[0] as int <= 31
    ensures ParseDecimal(s) == None
    ensures IsSpace(s[0]) && Strip(s) != s
  {
    TrimKeepsFirst(IsNumberSpace, s);
    assert LowerAscii(Trim(IsNumberSpace, s))[0] == s[0];
    NoNumberStart(s);
    assert Strip(s)[..0] == [];
  }

  /** A price written as one digit of pounds and two of pence. */
  lemma PoundsAndPence(s: string)
    requires |s| == 4 && s[1] == '.'
    requires IsDigit(s[0]) && IsDigit(s[2]) && IsDigit(s[3])
    ensures ParseDecimal(s) == Some(100 * DigitValue(s[0]) + 10 * DigitValue(s[2]) + DigitValue(s[3]))
  {
    var whole := s[..1];
    var frac := s[2..];
    assert s == whole + "." + frac;
    assert whole[..0] == [];
    ParseUnsignedPointed(whole, frac);
    ParseSignedBody(false, s, 100 * DigitValue(s[0]) + 10 * DigitValue(s[2]) + DigitValue(s[3]));
    assert (if false then "-" else "") + s == s;
  }

  /** The prices of Margherita ("5.00") and Pepperoni ("6.50") read as 500
      and 650 pence. */
  lemma ExamplePrices()
    ensures ParseDecimal("5.00") == Some(500)
    ensures ParseDecimal("6.50") == Some(650)
  {
    PoundsAndPence("5.00");
    PoundsAndPence("6.50");
  }
}
