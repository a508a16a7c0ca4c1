/**
 * PHP 8 numeric strings and the loose `==` between two strings: when both strings are
 * numeric they are compared by value, otherwise byte for byte. A numeric string is
 * optional whitespace, an optional sign, digits with an optional decimal point and an
 * optional exponent, then optional whitespace. The `(int)` cast reads the longest such
 * number at the start of a string.
 */
module PhpNumeric {
  import opened Wrappers
  import opened PhpStrings

  /** The number `(-1 if negative) * mantissa * 10^scale`. */
  datatype Decimal = Decimal(negative: bool, mantissa: nat, scale: int)

  function Pow10(n: nat): (r: nat)
    ensures r >= 1
  {
    if n == 0 then 1 else 10 * Pow10(n - 1)
  }

  function SkipTrailingWhitespace(s: string): string
    decreases |s|
  {
    if |s| > 0 && IsNumericWhitespace(s[|s| - 1]) then SkipTrailingWhitespace(s[..|s| - 1]) else s
  }

  /** `[eE][+-]?[0-9]+` filling all of `s`: the exponent's value. */
  function ParseExponent(s: string): Option<int> {
    if |s| < 2 || (s[0] != 'e' && s[0] != 'E') then None
    else
      var signed := s[1] == '+' || s[1] == '-';
      var ds := if signed then s[2..] else s[1..];
      if ds == [] || !AllDigits(ds) then None
      else Some(if s[1] == '-' then -(DigitsValue(ds) as int) else DigitsValue(ds) as int)
  }

  /** An unsigned number with optional fraction and exponent filling all of `s`. */
  function ParseUnsigned(s: string): Option<(nat, int)> {
    var whole := LeadingDigits(s);
    var afterWhole := s[|whole|..];
    var hasPoint := |afterWhole| > 0 && afterWhole[0] == '.';
    var fraction := if hasPoint then LeadingDigits(afterWhole[1..]) else "";
    var rest := if hasPoint then afterWhole[1 + |fraction|..] else afterWhole;
    if |whole| + |fraction| == 0 then None
    else
      var exponent := if rest == [] then Some(0) else ParseExponent(rest);
      match exponent
      case None => None
      case Some(e) => Some((DigitsValue(whole + fraction), e - |fraction|))
  }

  /** The value of `s` when it is a numeric string. */
  function ParseNumeric(s: string): Option<Decimal> {
    var t := SkipTrailingWhitespace(SkipWhitespace(s));
    if |t| > 0 && (t[0] == '-' || t[0] == '+') then
      match ParseUnsigned(t[1..])
      case None => None
      case Some(p) => Some(Decimal(t[0] == '-', p.0, p.1))
    else
      match ParseUnsigned(t)
      case None => None
      case Some(p) => Some(Decimal(false, p.0, p.1))
  }

  predicate IsNumeric(s: string) {
    ParseNumeric(s).Some?
  }

  /** The signed mantissa scaled to `10^scale`, for `scale` at most the number's own. */
  function Scaled(d: Decimal, scale: int): int
    requires scale <= d.scale
  {
    var m := d.mantissa * Pow10(d.scale - scale);
    if d.negative then -m else m
  }

  predicate SameValue(a: Decimal, b: Decimal) {
    var s := if a.scale <= b.scale then a.scale else b.scale;
    Scaled(a, s) == Scaled(b, s)
  }

  /** PHP 8's `$a == $b` for two strings. */
  predicate LooseEquals(a: string, b: string) {
    match (ParseNumeric(a), ParseNumeric(b))
    case (Some(x), Some(y)) => SameValue(x, y)
    case _ => a == b
  }

  /** `in_array($needle, $haystack)` without the strict flag, over strings. */
  predicate LooselyIn(needle: string, haystack: seq<string>) {
    exists i | 0 <= i < |haystack| :: LooseEquals(needle, haystack[i])
  }

  // ---------------------------------------------------------------- (int) casts

  /**
   * The least magnitude `zend_strtod` reads as infinity, 2^1024 - 2^970: halfway between
   * the largest double and 2^1024, where rounding to nearest goes up.
   */
  const DoubleOverflow: nat := 179769313486231580793728971405303415079934132710037826936173778980444968292764750946649017977587207096330286416692887910946555547851940402630657488671505820681908902000708383676273854845817711531764475730270069855571366959622842914819860834936475292719074168444365510704342711559699508093042880177904174497792

  /** `[eE][+-]?[0-9]+` at the start of `s`: the exponent's value, 0 when there is none. */
  function LeadingExponent(s: string): int {
    if |s| < 2 || (s[0] != 'e' && s[0] != 'E') then 0
    else
      var signed := s[1] == '+' || s[1] == '-';
      var ds := LeadingDigits(if signed then s[2..] else s[1..]);
      if ds == [] then 0
      else if s[1] == '-' then -(DigitsValue(ds) as int) else DigitsValue(ds) as int
  }

  /**
   * The longest prefix of `s` that is an unsigned number: digits, an optional point and
   * more digits (at least one digit in all), and an optional exponent.
   */
  function LeadingUnsigned(s: string): Option<(nat, int)> {
    var whole := LeadingDigits(s);
    var afterWhole := s[|whole|..];
    var hasPoint := |afterWhole| > 0 && afterWhole[0] == '.';
    var fraction := if hasPoint then LeadingDigits(afterWhole[1..]) else "";
    var rest := if hasPoint then afterWhole[1 + |fraction|..] else afterWhole;
    if |whole| + |fraction| == 0 then None
    else Some((DigitsValue(whole + fraction), LeadingExponent(rest) - |fraction|))
  }

  /** `m / 10^k`, dropping the last `k` digits one at a time. */
  function DropDigits(m: nat, k: nat): nat
    decreases k
  {
    if k == 0 then m else DropDigits(m / 10, k - 1)
  }

  /**
   * `zend_dval_to_lval_cap` on the number: 0 when it is too large for a double, the
   * nearest 64-bit bound when it is beyond that range, otherwise truncated toward zero.
   * The integer part is compared with the overflow bound: an integer bound is reached
   * by a number exactly when it is reached by the number's integer part.
   */
  function DecimalToInt(d: Decimal): Int64 {
    var magnitude: nat := if d.scale >= 0 then d.mantissa * Pow10(d.scale) else DropDigits(d.mantissa, -d.scale);
    if magnitude >= DoubleOverflow then 0 else Saturate(if d.negative then -(magnitude as int) else magnitude)
  }

  /**
   * `(int) $s` for a string: leading whitespace, an optional sign, then the longest
   * numeric prefix; whatever follows is ignored, and a string without one reads as 0.
   */
  function StringToInt(s: string): Int64 {
    var t := SkipWhitespace(s);
    var signed := |t| > 0 && (t[0] == '-' || t[0] == '+');
    match LeadingUnsigned(if signed then t[1..] else t)
    case None => 0
    case Some((m, e)) => DecimalToInt(Decimal(signed && t[0] == '-', m, e))
  }

  lemma AllDigitsAppend(a: string, b: string)
    requires AllDigits(a) && AllDigits(b)
    ensures AllDigits(a + b)
  {
    forall i | 0 <= i < |a + b|
      ensures IsDigit((a + b)[i])
    {
      if i >= |a| {
        assert (a + b)[i] == b[i - |a|];
      }
    }
  }

  /** One more digit: `(x * p + y) * 10 + d == x * (p * 10) + (y * 10 + d)`. */
  lemma ShiftOneDigit(x: int, p: int, y: int, d: int)
    ensures (x * p + y) * 10 + d == x * (p * 10) + (y * 10 + d)
  {
  }

  lemma {:induction false} DigitsValueAppend(a: string, b: string)
    requires AllDigits(a) && AllDigits(b)
    ensures AllDigits(a + b)
    ensures DigitsValue(a + b) == DigitsValue(a) * Pow10(|b|) + DigitsValue(b)
    decreases |b|
  {
    AllDigitsAppend(a, b);
    if b == [] {
      assert a + b == a;
    } else {
      var b' := b[..|b| - 1];
      var d := b[|b| - 1] as int - '0' as int;
      assert (a + b)[..|a + b| - 1] == a + b' && (a + b)[|a + b| - 1] == b[|b| - 1];
      assert AllDigits(b');
      DigitsValueAppend(a, b');
      assert DigitsValue(a + b) == DigitsValue(a + b') * 10 + d;
      assert DigitsValue(b) == DigitsValue(b') * 10 + d;
      assert Pow10(|b|) == Pow10(|b'|) * 10;
      ShiftOneDigit(DigitsValue(a), Pow10(|b'|), DigitsValue(b'), d);
    }
  }

  lemma {:induction false} DigitsValueBound(ds: string)
    requires AllDigits(ds)
    ensures DigitsValue(ds) < Pow10(|ds|)
    decreases |ds|
  {
    if ds != [] {
      var init := ds[..|ds| - 1];
      DigitsValueBound(init);
      assert DigitsValue(ds) <= (Pow10(|init|) - 1) * 10 + 9;
    }
  }

  /** Dropping the last `k` digits of `w * 10^k + r`, with `r` below `10^k`, leaves `w`. */
  lemma {:induction false} DropDigitsOf(w: nat, r: nat, k: nat)
    requires r < Pow10(k)
    ensures DropDigits(w * Pow10(k) + r, k) == w
    decreases k
  {
    if k > 0 {
      var p := Pow10(k - 1);
      assert w * Pow10(k) == 10 * (w * p);
      assert (w * Pow10(k) + r) / 10 == w * p + r / 10;
      DropDigitsOf(w, r / 10, k - 1);
    }
  }

  /** A text starting with a digit or a minus sign has no leading whitespace. */
  lemma DigitIsNoWhitespace(s: string)
    requires |s| > 0 && (IsDigit(s[0]) || s[0] == '-')
    ensures SkipWhitespace(s) == s
  {
  }

  /** `(int)` of a text starting with a digit, and of that text after a minus sign. */
  lemma StringToIntOfUnsigned(s: string)
    requires |s| > 0 && IsDigit(s[0])
    ensures StringToInt(s) == match LeadingUnsigned(s)
      case None => 0
      case Some((m, e)) => DecimalToInt(Decimal(false, m, e))
    ensures StringToInt("-" + s) == match LeadingUnsigned(s)
      case None => 0
      case Some((m, e)) => DecimalToInt(Decimal(true, m, e))
  {
    DigitIsNoWhitespace(s);
    DigitIsNoWhitespace("-" + s);
    assert ("-" + s)[1..] == s;
  }

  /** A whole number within a double's range converts by clamping its exact value. */
  lemma DecimalToIntWhole(negative: bool, m: nat, e: nat)
    ensures var v := m * Pow10(e);
      v < DoubleOverflow ==> DecimalToInt(Decimal(negative, m, e)) == Saturate(if negative then -v else v)
    ensures m * Pow10(e) >= DoubleOverflow ==> DecimalToInt(Decimal(negative, m, e)) == 0
  {
  }

  /** A fraction `x / 10^k`, `x = w * 10^k + r`, with `w` below the double range truncates toward zero. */
  lemma DecimalToIntFraction(negative: bool, x: nat, w: nat, r: nat, k: nat)
    requires k > 0 && r < Pow10(k) && w < DoubleOverflow && x == w * Pow10(k) + r
    ensures DecimalToInt(Decimal(negative, x, -(k as int))) == Saturate(if negative then -(w as int) else w)
  {
    DropDigitsOf(w, r, k);
  }

  /** The decimal text of an integer is its own numeric prefix, of that value. */
  lemma LeadingUnsignedOfNat(n: nat)
    ensures LeadingUnsigned(NatToString(n)) == Some((n, 0))
  {
    var ds := NatToString(n);
    LeadingDigitsAppend(ds, "");
    DigitsValueOfNatToString(n);
    assert ds + "" == ds;
    assert ds[|ds|..] == "";
  }

  /** Printing an integer and casting the text back gives the integer: `(int) (string) $i === $i`. */
  lemma StringToIntOfIntToString(i: Int64)
    ensures StringToInt(IntToString(i)) == i
  {
    var n: nat := if i < 0 then -(i as int) else i as int;
    LeadingUnsignedOfNat(n);
    StringToIntOfUnsigned(NatToString(n));
    DecimalToIntWhole(i < 0, n, 0);
    assert IntMax < DoubleOverflow;
  }

  /** `[eE]<digits>` reads as the digits' value. */
  lemma LeadingExponentOfDigits(es: string)
    requires AllDigits(es) && |es| > 0
    ensures LeadingExponent("e" + es) == DigitsValue(es)
  {
    assert ("e" + es)[1..] == es;
    LeadingDigitsOfDigits(es);
  }

  /** `LeadingUnsigned` of digits followed by an exponent marker, without a point. */
  lemma LeadingUnsignedOfWhole(s: string, whole: string)
    requires LeadingDigits(s) == whole && |whole| > 0
    requires |whole| < |s| && s[|whole|] != '.'
    ensures LeadingUnsigned(s) == Some((DigitsValue(whole), LeadingExponent(s[|whole|..])))
  {
    assert whole + "" == whole;
  }

  /** The numeric prefix of a text that is digits, `e`, digits, is all of it. */
  lemma LeadingUnsignedOfDigitsExponent(s: string, n: nat)
    requires 0 < n < |s| - 1 && s[n] == 'e' && AllDigits(s[..n]) && AllDigits(s[n + 1..])
    ensures LeadingUnsigned(s) == Some((DigitsValue(s[..n]), DigitsValue(s[n + 1..]) as int))
  {
    LeadingDigitsBeforeMark(s[..n], 'e', s[n + 1..]);
    assert s == s[..n] + ['e'] + s[n + 1..];
    assert s[n..] == "e" + s[n + 1..];
    LeadingUnsignedOfWhole(s, s[..n]);
    LeadingExponentOfDigits(s[n + 1..]);
  }

  lemma LeadingUnsignedOfExponent(m: nat, e: nat)
    ensures LeadingUnsigned(NatToString(m) + "e" + NatToString(e)) == Some((m, e))
  {
    var ms := NatToString(m);
    var s := ms + "e" + NatToString(e);
    assert s[..|ms|] == ms && s[|ms|] == 'e' && s[|ms| + 1..] == NatToString(e);
    LeadingUnsignedOfDigitsExponent(s, |ms|);
    DigitsValueOfNatToString(m);
    DigitsValueOfNatToString(e);
  }


  /** The three ranges of a whole number `m * 10^e` under `zend_dval_to_lval_cap`. */
  lemma DecimalToIntWholeCases(m: nat, e: nat)
    ensures var v := m * Pow10(e);
      var r := DecimalToInt(Decimal(false, m, e));
      && (v <= IntMax ==> r == v)
      && (IntMax < v < DoubleOverflow ==> r == IntMax)
      && (v >= DoubleOverflow ==> r == 0)
  {
    DecimalToIntWhole(false, m, e);
    assert IntMax < DoubleOverflow;
  }

  /**
   * `(int)` reads an exponent: the text `<m>e<e>` gives m * 10^e when that fits in 64
   * bits, `PHP_INT_MAX` beyond it, and 0 once the double it denotes is infinite.
   */
  lemma StringToIntOfExponent(m: nat, e: nat)
    ensures var v := m * Pow10(e);
      var r := StringToInt(NatToString(m) + "e" + NatToString(e));
      && (v <= IntMax ==> r == v)
      && (IntMax < v < DoubleOverflow ==> r == IntMax)
      && (v >= DoubleOverflow ==> r == 0)
  {
    var s := NatToString(m) + "e" + NatToString(e);
    LeadingUnsignedOfExponent(m, e);
    StringToIntOfUnsigned(s);
    assert StringToInt(s) == DecimalToInt(Decimal(false, m, e));
    DecimalToIntWholeCases(m, e);
  }

  /** A string of digits is its own leading digits. */
  lemma LeadingDigitsOfDigits(ds: string)
    requires AllDigits(ds)
    ensures LeadingDigits(ds) == ds
  {
    assert ds + "" == ds;
    LeadingDigitsAppend(ds, "");
  }

  /** The leading digits of `<ds><mark>…` are ds, for a mark that is not a digit. */
  lemma LeadingDigitsBeforeMark(ds: string, mark: char, rest: string)
    requires AllDigits(ds) && !IsDigit(mark)
    ensures LeadingDigits(ds + [mark] + rest) == ds
  {
    assert ds + [mark] + rest == ds + ([mark] + rest);
    LeadingDigitsAppend(ds, [mark] + rest);
  }

  /** `LeadingUnsigned` of a text whose digits, point and fraction digits are known. */
  lemma LeadingUnsignedOfParts(s: string, whole: string, fraction: string)
    requires LeadingDigits(s) == whole && |whole| > 0
    requires |whole| < |s| && s[|whole|] == '.'
    requires LeadingDigits(s[|whole| + 1..]) == fraction && |whole| + 1 + |fraction| == |s|
    ensures LeadingUnsigned(s) == Some((DigitsValue(whole + fraction), -|fraction|))
  {
    var afterWhole := s[|whole|..];
    assert afterWhole[1..] == s[|whole| + 1..];
    assert afterWhole[1 + |fraction|..] == "";
    assert LeadingExponent("") == 0;
  }

  /** The numeric prefix of `<ws>.<f>`, for digit strings ws and f, is all of it: ws then f, scaled down by |f|. */
  lemma LeadingUnsignedOfPointed(ws: string, f: string)
    requires AllDigits(ws) && AllDigits(f) && |ws| > 0
    ensures LeadingUnsigned(ws + "." + f) == Some((DigitsValue(ws + f), -|f|))
  {
    var body := ws + "." + f;
    LeadingDigitsBeforeMark(ws, '.', f);
    assert body[|ws| + 1..] == f;
    LeadingDigitsOfDigits(f);
    LeadingUnsignedOfParts(body, ws, f);
  }


  /** The numeric prefix of `<w>.<f>` is all of it: the digits of w then f, scaled down by |f|. */
  lemma LeadingUnsignedOfFraction(w: nat, f: string)
    requires AllDigits(f)
    ensures LeadingUnsigned(NatToString(w) + "." + f) == Some((DigitsValue(NatToString(w) + f), -|f|))
  {
    LeadingUnsignedOfPointed(NatToString(w), f);
  }

  /** The digits of `w` followed by `f` spell `w * 10^|f| + f`. */
  lemma DigitsValueOfShifted(w: nat, f: string)
    requires AllDigits(f)
    ensures DigitsValue(NatToString(w) + f) == w * Pow10(|f|) + DigitsValue(f)
  {
    DigitsValueOfNatToString(w);
    DigitsValueAppend(NatToString(w), f);
  }

  /**
   * `(int)` truncates toward zero: `<w>.<f>` reads as w and `-<w>.<f>` as -w, whatever
   * the digits f after the point.
   */
  lemma StringToIntTruncates(w: nat, f: string, negative: bool)
    requires AllDigits(f) && w <= IntMax
    ensures var body := NatToString(w) + "." + f;
      StringToInt(if negative then "-" + body else body) == if negative then -(w as int) else w as int
  {
    var body := NatToString(w) + "." + f;
    var x := DigitsValue(NatToString(w) + f);
    LeadingUnsignedOfFraction(w, f);
    StringToIntOfUnsigned(body);
    assert StringToInt(if negative then "-" + body else body) == DecimalToInt(Decimal(negative, x, -|f|));
    StringToIntOfFractionValue(negative, x, w, f);
  }

  lemma StringToIntOfFractionValue(negative: bool, x: nat, w: nat, f: string)
    requires AllDigits(f) && w <= IntMax && x == DigitsValue(NatToString(w) + f)
    ensures DecimalToInt(Decimal(negative, x, -|f|)) == if negative then -(w as int) else w as int
  {
    assert IntMax < DoubleOverflow;
    if |f| == 0 {
      assert NatToString(w) + f == NatToString(w);
      DigitsValueOfNatToString(w);
      DecimalToIntWhole(negative, w, 0);
    } else {
      DigitsValueOfShifted(w, f);
      DigitsValueBound(f);
      DecimalToIntFraction(negative, x, w, DigitsValue(f), |f|);
    }
  }
}
