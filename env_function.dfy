/**
 * The global `env($key, $default, $type)` helper: reads an environment variable, falls
 * back to a default when it is unset or empty, and optionally coerces to int or bool.
 * The process environment is a parameter: `lookup` is what `getenv($key)` returns,
 * `None` standing for `false`.
 */
module EnvFunction {
  import opened Wrappers
  import opened PhpStrings
  import opened PhpValues
  import opened PhpNumeric

  /** `env` throws `UnexpectedValueException` for an empty key. */
  datatype EnvError = UnexpectedValue(message: string)

  const EmptyKeyMessage: string := "Environment key is empty."

  /** The strings the "bool" type reads as true. */
  const TruthyWords: seq<string> := ["1", "true", "t", "yes", "y"]

  /** The value before coercion: the variable if it is set to something, otherwise the default. */
  function Defaulted(lookup: Option<string>, default: Value): (v: Value)
    ensures lookup.Some? && lookup.value != "" ==> v == Str(lookup.value)
    ensures lookup == None || lookup == Some("") ==> v == default
  {
    if lookup == None || lookup == Some("") then default else Str(lookup.value)
  }

  /** `in_array(strtolower((string) $value), [...])`: compared with PHP's loose `==`. */
  predicate LooselyTruthy(v: Value) {
    LooselyIn(Lower(ToStr(v)), TruthyWords)
  }

  /** The "bool" coercion as evidently intended: one of the listed spellings, exactly. */
  predicate Truthy(v: Value) {
    Lower(ToStr(v)) in TruthyWords
  }

  /**
   * `env($key, $default, $type)` as written. An empty key throws; the type "int" gives
   * an integer and "bool" a boolean; any other type, null included, gives the
   * (possibly defaulted) value itself.
   */
  function Env(key: string, lookup: Option<string>, default: Value, typ: Option<string>): (r: Result<Value, EnvError>)
    ensures r.Failure? <==> key == ""
    ensures r.Failure? ==> r.error == UnexpectedValue(EmptyKeyMessage)
    ensures r.Success? && typ == Some("int") ==> r.value.Int?
    ensures r.Success? && typ == Some("bool") ==> r.value.Bool?
    ensures r.Success? && typ == Some("bool") && Truthy(Defaulted(lookup, default)) ==> r.value == Bool(true)
    ensures r.Success? && typ != Some("int") && typ != Some("bool") ==>
      if lookup.Some? && lookup.value != "" then r.value == Str(lookup.value) else r.value == default
  {
    if key == "" then Failure(UnexpectedValue(EmptyKeyMessage))
    else
      var value := Defaulted(lookup, default);
      if typ == Some("int") then Success(Int(ToInt(value)))
      else if typ == Some("bool") then
        assert Truthy(value) ==> LooseEquals(Lower(ToStr(value)), Lower(ToStr(value)));
        Success(Bool(LooselyTruthy(value)))
      else Success(value)
  }

  /** `env` with the "bool" coercion comparing strictly, as evidently intended. */
  function EnvIntended(key: string, lookup: Option<string>, default: Value, typ: Option<string>): (r: Result<Value, EnvError>)
    ensures r.Failure? <==> key == ""
    ensures r.Success? && typ == Some("bool") ==>
      (r.value == Bool(true) <==> Lower(ToStr(Defaulted(lookup, default))) in TruthyWords)
    ensures typ != Some("bool") ==> r == Env(key, lookup, default, typ)
  {
    if key != "" && typ == Some("bool") then Success(Bool(Truthy(Defaulted(lookup, default))))
    else Env(key, lookup, default, typ)
  }

  /** A variable set to a non-empty text reads under "int" as the `(int)` cast of that text. */
  lemma EnvIntOfText(key: string, s: string, default: Value)
    requires key != "" && s != ""
    ensures Env(key, Some(s), default, Some("int")) == Success(Int(StringToInt(s)))
  {
  }

  /** A variable set to the decimal text of an integer reads back as that integer under "int". */
  lemma EnvIntOfDecimal(key: string, i: Int64, default: Value)
    requires key != ""
    ensures Env(key, Some(IntToString(i)), default, Some("int")) == Success(Int(i))
  {
    StringToIntOfIntToString(i);
    assert IntToString(i) != "" by {
      if i < 0 { } else { assert |NatToString(i)| > 0; }
    }
  }

  /**
   * A variable in scientific notation reads as the number it denotes under "int":
   * `APP_TTL=1e3` gives 1000, a value past 64 bits gives `PHP_INT_MAX`.
   */
  lemma EnvIntOfExponent(key: string, m: nat, e: nat, default: Value)
    requires key != ""
    ensures var v := m * Pow10(e);
      var r := Env(key, Some(NatToString(m) + "e" + NatToString(e)), default, Some("int"));
      && r.Success? && r.value.Int?
      && (v <= IntMax ==> r.value.i == v)
      && (IntMax < v < DoubleOverflow ==> r.value.i == IntMax)
  {
    EnvIntOfText(key, NatToString(m) + "e" + NatToString(e), default);
    StringToIntOfExponent(m, e);
  }

  /** A variable with a fraction reads as its integer part under "int": `2.9` gives 2, `-2.9` gives -2. */
  lemma EnvIntOfFraction(key: string, w: nat, f: string, negative: bool, default: Value)
    requires key != "" && AllDigits(f) && w <= IntMax
    ensures var body := NatToString(w) + "." + f;
      Env(key, Some(if negative then "-" + body else body), default, Some("int"))
        == Success(Int(if negative then -(w as int) else w as int))
  {
    var body := NatToString(w) + "." + f;
    EnvIntOfText(key, if negative then "-" + body else body, default);
    StringToIntTruncates(w, f, negative);
  }

  /** An unset variable with default `true` is true under "bool"; with default null it is false. */
  lemma EnvBoolDefaults(key: string)
    requires key != ""
    ensures Env(key, None, Bool(true), Some("bool")) == Success(Bool(true))
    ensures Env(key, None, Null, Some("bool")) == Success(Bool(false))
  {
    assert Lower("") == "";
    assert ParseNumeric("") == None;
    assert forall i | 0 <= i < |TruthyWords| :: !LooseEquals("", TruthyWords[i]);
    assert Truthy(Bool(true)) by {
      assert Lower("1") == "1";
    }
  }

  /**
   * As written, the loose comparison makes "01" true under "bool" although it is none of
   * the listed spellings: both "01" and "1" are numeric strings worth 1.
   */
  lemma EnvBoolLeadingZero(key: string)
    requires key != ""
    ensures Env(key, Some("01"), Null, Some("bool")) == Success(Bool(true))
    ensures EnvIntended(key, Some("01"), Null, Some("bool")) == Success(Bool(false))
  {
    var v := Defaulted(Some("01"), Null);
    assert v == Str("01") && Lower(ToStr(v)) == "01";
    LeadingZeroIsOne();
    assert SameValue(Decimal(false, 1, 0), Decimal(false, 1, 0));
    LooseEqualsOne("01");
    assert LooselyTruthy(v) by {
      assert LooseEquals("01", TruthyWords[0]);
    }
    assert !Truthy(v);
  }

  /** "01" is a numeric string worth 1. */
  lemma LeadingZeroIsOne()
    ensures ParseNumeric("01") == Some(Decimal(false, 1, 0))
  {
    assert LeadingDigits("01") == "01";
    assert DigitsValue("01") == 1;
    assert SkipWhitespace("01") == "01" && SkipTrailingWhitespace("01") == "01";
    assert "01"[2..] == "" && "01" + "" == "01";
    assert ParseUnsigned("01") == Some((1, 0));
  }

  /** A numeric string worth exactly 1, such as "1", "01", "1.0" or " 1e0". */
  predicate NumericallyOne(s: string) {
    match ParseNumeric(s)
    case Some(d) => SameValue(d, Decimal(false, 1, 0))
    case None => false
  }

  lemma WordIsNotNumeric(w: string)
    requires |w| > 0 && 'a' <= w[0] <= 'z'
    ensures ParseNumeric(w) == None
  {
    assert SkipWhitespace(w) == w;
    var t := SkipTrailingWhitespace(w);
    SkipTrailingKeepsFirst(w);
    assert LeadingDigits(t) == "";
  }

  lemma {:induction false} SkipTrailingKeepsFirst(s: string)
    requires |s| > 0 && !IsNumericWhitespace(s[0])
    ensures |SkipTrailingWhitespace(s)| > 0 && SkipTrailingWhitespace(s)[0] == s[0]
    decreases |s|
  {
    if IsNumericWhitespace(s[|s| - 1]) {
      assert |s| > 1;
      SkipTrailingKeepsFirst(s[..|s| - 1]);
    }
  }

  lemma LooseEqualsOne(x: string)
    ensures LooseEquals(x, "1") <==> NumericallyOne(x)
  {
    assert SkipWhitespace("1") == "1" && SkipTrailingWhitespace("1") == "1";
    assert LeadingDigits("1") == "1" && "1"[1..] == "" && "1" + "" == "1";
    assert ParseNumeric("1") == Some(Decimal(false, 1, 0));
  }

  lemma LooseEqualsWord(x: string, w: string)
    requires |w| > 0 && 'a' <= w[0] <= 'z'
    ensures LooseEquals(x, w) <==> x == w
  {
    WordIsNotNumeric(w);
  }

  lemma LooselyInTruthyWords(x: string)
    ensures LooselyIn(x, TruthyWords) <==>
      LooseEquals(x, "1") || x == "true" || x == "t" || x == "yes" || x == "y"
  {
    LooseEqualsWord(x, "true");
    LooseEqualsWord(x, "t");
    LooseEqualsWord(x, "yes");
    LooseEqualsWord(x, "y");
    if LooselyIn(x, TruthyWords) {
      var i :| 0 <= i < |TruthyWords| && LooseEquals(x, TruthyWords[i]);
      assert i == 0 || i == 1 || i == 2 || i == 3 || i == 4;
    }
    if LooseEquals(x, "1") {
      assert LooseEquals(x, TruthyWords[0]);
    }
    if x == "true" || x == "t" || x == "yes" || x == "y" {
      assert x in TruthyWords;
      var i :| 0 <= i < |TruthyWords| && TruthyWords[i] == x;
      assert LooseEquals(x, TruthyWords[i]);
    }
  }

  /**
   * What the loose comparison accepts: exactly the listed spellings, plus every numeric
   * string worth 1.
   */
  lemma LooselyTruthyMeaning(v: Value)
    ensures LooselyTruthy(v) <==> Truthy(v) || NumericallyOne(Lower(ToStr(v)))
  {
    var x := Lower(ToStr(v));
    LooselyInTruthyWords(x);
    LooseEqualsOne(x);
    if x == "1" {
      assert NumericallyOne(x) by {
        LooseEqualsOne("1");
        assert SameValue(Decimal(false, 1, 0), Decimal(false, 1, 0));
      }
    }
  }
}
