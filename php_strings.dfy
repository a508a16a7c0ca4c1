/**
 * The PHP string built-ins the core relies on: ASCII case folding (`strtolower`),
 * `trim` with a character list, `implode`, `stripos`, and the conversions between
 * 64-bit integers and decimal text used by `(string)` and `(int)` casts.
 * A PHP string is a string of bytes; here it is a `string` whose characters stand for bytes.
 */
module PhpStrings {

  const IntMax: int := 0x7fff_ffff_ffff_ffff
  const IntMin: int := -0x8000_0000_0000_0000

  /** PHP's `int` on a 64-bit platform. */
  type Int64 = i: int | IntMin <= i <= IntMax

  /** A string of bytes: every character is below 256. */
  predicate IsBytes(s: string) {
    forall i | 0 <= i < |s| :: s[i] as int < 256
  }

  type ByteString = s: string | IsBytes(s)

  // ---------------------------------------------------------------- case folding

  function LowerChar(c: char): char {
    if 'A' <= c <= 'Z' then (c as int + 32) as char else c
  }

  /** `strtolower`: ASCII letters only, as in PHP 8.2 and later. */
  function Lower(s: string): string {
    seq(|s|, i requires 0 <= i < |s| => LowerChar(s[i]))
  }

  function UpperChar(c: char): char {
    if 'a' <= c <= 'z' then (c as int - 32) as char else c
  }

  /** `strtoupper`: ASCII letters only. */
  function Upper(s: string): string {
    seq(|s|, i requires 0 <= i < |s| => UpperChar(s[i]))
  }

  // ---------------------------------------------------------------- searching and joining

  predicate StartsWith(s: string, prefix: string) {
    |prefix| <= |s| && s[..|prefix|] == prefix
  }

  /** `needle` occurs in `haystack` at some position. */
  predicate Contains(haystack: string, needle: string)
    decreases |haystack|
  {
    StartsWith(haystack, needle) || (|haystack| > 0 && Contains(haystack[1..], needle))
  }

  /** `stripos($haystack, $needle) !== false`: an ASCII case-insensitive occurrence. */
  predicate ContainsIgnoringCase(haystack: string, needle: string) {
    Contains(Lower(haystack), Lower(needle))
  }

  /** A needle placed anywhere in a text is contained in it. */
  lemma {:induction false} ContainsPlaced(pre: string, needle: string, post: string)
    ensures Contains(pre + needle + post, needle)
    decreases |pre|
  {
    var h := pre + needle + post;
    if pre == [] {
      assert h[..|needle|] == needle;
    } else {
      assert h[1..] == pre[1..] + needle + post;
      ContainsPlaced(pre[1..], needle, post);
    }
  }

  /** Where a contained needle occurs. */
  lemma {:induction false} ContainsAt(haystack: string, needle: string) returns (i: nat)
    requires Contains(haystack, needle)
    ensures i + |needle| <= |haystack| && haystack[i..i + |needle|] == needle
    decreases |haystack|
  {
    if StartsWith(haystack, needle) {
      i := 0;
    } else {
      var j := ContainsAt(haystack[1..], needle);
      i := j + 1;
      assert haystack[i..i + |needle|] == haystack[1..][j..j + |needle|];
    }
  }

  /** Case folding works character by character, so it commutes with slicing. */
  lemma LowerSlice(s: string, i: nat, j: nat)
    requires i <= j <= |s|
    ensures Lower(s)[i..j] == Lower(s[i..j])
  {
  }

  lemma LowerAppend(a: string, b: string)
    ensures Lower(a + b) == Lower(a) + Lower(b)
  {
  }

  /**
   * Two texts have the same upper case exactly when the first's lower case is the
   * second, for a second made of lower-case letters: `strtoupper` and `strtolower`
   * fold the same letters.
   */
  lemma SameUpperIsLower(s: string, w: string)
    requires forall i | 0 <= i < |w| :: 'a' <= w[i] <= 'z'
    ensures Upper(s) == Upper(w) <==> Lower(s) == w
  {
    if Upper(s) == Upper(w) {
      assert |s| == |Upper(s)| == |Upper(w)| == |w|;
      forall i | 0 <= i < |s|
        ensures LowerChar(s[i]) == w[i]
      {
        assert Upper(s)[i] == Upper(w)[i];
      }
    }
    if Lower(s) == w {
      forall i | 0 <= i < |s|
        ensures UpperChar(s[i]) == UpperChar(w[i])
      {
        assert LowerChar(s[i]) == w[i];
      }
    }
  }

  /** `implode($sep, $parts)`. */
  function Join(sep: string, parts: seq<string>): string
    decreases |parts|
  {
    if |parts| == 0 then ""
    else if |parts| == 1 then parts[0]
    else parts[0] + sep + Join(sep, parts[1..])
  }

  /**
   * `explode($sep, $t)` for a one-character separator: the pieces between the
   * separators, so a text ending in `sep` has an empty last piece.
   */
  function Split(t: string, sep: char): (ls: seq<string>)
    ensures |ls| >= 1 && forall i | 0 <= i < |ls| :: sep !in ls[i]
    decreases |t|
  {
    if t == [] then [""]
    else
      var rest := Split(t[1..], sep);
      if t[0] == sep then [""] + rest
      else [[t[0]] + rest[0]] + rest[1..]
  }

  /** Joining the pieces with the separator gives the text back. */
  lemma {:induction false} JoinSplit(t: string, sep: char)
    ensures Join([sep], Split(t, sep)) == t
    decreases |t|
  {
    if t != [] {
      var rest := Split(t[1..], sep);
      JoinSplit(t[1..], sep);
      if t[0] != sep && |rest| > 1 {
        assert Join([sep], rest) == rest[0] + [sep] + Join([sep], rest[1..]);
        assert t == [t[0]] + t[1..];
      }
    }
  }

  lemma {:induction false} SplitPrefixed(a: string, s: string, sep: char)
    requires sep !in a
    ensures Split(a + s, sep) == [a + Split(s, sep)[0]] + Split(s, sep)[1..]
    decreases |a|
  {
    var ls := Split(s, sep);
    if a == [] {
      assert a + s == s && a + ls[0] == ls[0];
      assert ls == [ls[0]] + ls[1..];
    } else {
      assert a[0] in a && a[0] != sep;
      assert forall c | c in a[1..] :: c in a;
      assert (a + s)[0] == a[0];
      assert (a + s)[1..] == a[1..] + s;
      SplitPrefixed(a[1..], s, sep);
      var rest := Split(a[1..] + s, sep);
      assert rest[0] == a[1..] + ls[0] && rest[1..] == ls[1..];
      assert Split(a + s, sep) == [[a[0]] + rest[0]] + rest[1..];
      assert [a[0]] + (a[1..] + ls[0]) == a + ls[0];
    }
  }

  /** Splitting pieces joined by a separator none of them contains gives them back. */
  lemma {:induction false} SplitJoin(ls: seq<string>, sep: char)
    requires |ls| >= 1 && forall i | 0 <= i < |ls| :: sep !in ls[i]
    ensures Split(Join([sep], ls), sep) == ls
    decreases |ls|
  {
    if |ls| == 1 {
      SplitPrefixed(ls[0], "", sep);
      assert ls[0] + "" == ls[0];
    } else {
      var tail := Join([sep], ls[1..]);
      SplitJoin(ls[1..], sep);
      var nl := [sep] + tail;
      assert Join([sep], ls) == ls[0] + nl;
      assert nl[0] == sep && nl[1..] == tail;
      assert Split(nl, sep) == [""] + Split(tail, sep);
      SplitPrefixed(ls[0], nl, sep);
      assert Split(nl, sep)[0] == "" && Split(nl, sep)[1..] == ls[1..];
      assert ls[0] + "" == ls[0];
      assert ls == [ls[0]] + ls[1..];
    }
  }

  /** Splitting at a separator that joins two texts splits each of them. */
  lemma {:induction false} SplitAround(a: string, b: string, sep: char)
    ensures Split(a + [sep] + b, sep) == Split(a, sep) + Split(b, sep)
    decreases |a|
  {
    if a == [] {
      assert a + [sep] + b == [sep] + b;
      assert ([sep] + b)[1..] == b;
    } else {
      assert (a + [sep] + b)[0] == a[0];
      assert (a + [sep] + b)[1..] == a[1..] + [sep] + b;
      SplitAround(a[1..], b, sep);
    }
  }

  lemma {:induction false} JoinAppend(sep: string, a: seq<string>, b: seq<string>)
    requires |a| >= 1 && |b| >= 1
    ensures Join(sep, a + b) == Join(sep, a) + sep + Join(sep, b)
    decreases |a|
  {
    if |a| == 1 {
      assert (a + b)[1..] == b;
    } else {
      assert (a + b)[1..] == a[1..] + b;
      JoinAppend(sep, a[1..], b);
    }
  }

  // ---------------------------------------------------------------- trim

  /** Strips the leading characters that are in `chars`. */
  function TrimLeft(s: string, chars: set<char>): (r: string)
    ensures |r| <= |s| && r == s[|s| - |r|..]
    ensures r == [] || r[0] !in chars
    ensures forall i | 0 <= i < |s| - |r| :: s[i] in chars
    decreases |s|
  {
    if |s| > 0 && s[0] in chars then TrimLeft(s[1..], chars) else s
  }

  /** Strips the trailing characters that are in `chars`. */
  function TrimRight(s: string, chars: set<char>): (r: string)
    ensures |r| <= |s| && r == s[..|r|]
    ensures r == [] || r[|r| - 1] !in chars
    ensures forall i | |r| <= i < |s| :: s[i] in chars
    decreases |s|
  {
    if |s| > 0 && s[|s| - 1] in chars then TrimRight(s[..|s| - 1], chars) else s
  }

  /** `trim($s, $chars)`: strips both ends. */
  function Trim(s: string, chars: set<char>): string {
    TrimRight(TrimLeft(s, chars), chars)
  }

  /** The character list `trim` uses when none is given. */
  const DefaultTrimChars: set<char> := {' ', '\t', '\n', '\r', '\0', 11 as char}

  // ---------------------------------------------------------------- decimal text

  predicate IsDigit(c: char) {
    '0' <= c <= '9'
  }

  predicate AllDigits(s: string) {
    forall i | 0 <= i < |s| :: IsDigit(s[i])
  }

  function DigitChar(d: int): char
    requires 0 <= d < 10
  {
    ('0' as int + d) as char
  }

  /** The decimal digits of `n`, without leading zeros. */
  function NatToString(n: nat): (r: string)
    ensures |r| > 0 && AllDigits(r)
    decreases n
  {
    if n < 10 then [DigitChar(n)] else NatToString(n / 10) + [DigitChar(n % 10)]
  }

  /** `(string) $i` for an integer. */
  function IntToString(i: int): string {
    if i < 0 then "-" + NatToString(-i) else NatToString(i)
  }

  /** The number a string of decimal digits denotes. */
  function DigitsValue(ds: string): nat
    requires AllDigits(ds)
    decreases |ds|
  {
    if ds == [] then 0
    else DigitsValue(ds[..|ds| - 1]) * 10 + (ds[|ds| - 1] as int - '0' as int)
  }

  /** The longest prefix of `s` made of digits. */
  function LeadingDigits(s: string): (r: string)
    ensures AllDigits(r) && StartsWith(s, r)
    ensures |r| == |s| || !IsDigit(s[|r|])
    decreases |s|
  {
    if |s| > 0 && IsDigit(s[0]) then [s[0]] + LeadingDigits(s[1..]) else ""
  }

  /** The whitespace a PHP numeric string may start with. */
  predicate IsNumericWhitespace(c: char) {
    c == ' ' || c == '\t' || c == '\n' || c == '\r' || c == 11 as char || c == 12 as char
  }

  function SkipWhitespace(s: string): string
    decreases |s|
  {
    if |s| > 0 && IsNumericWhitespace(s[0]) then SkipWhitespace(s[1..]) else s
  }

  /** Clamps to the 64-bit range, as PHP does when a numeric string overflows. */
  function Saturate(x: int): Int64 {
    if x > IntMax then IntMax else if x < IntMin then IntMin else x
  }

  /** The digits before the first non-digit are the leading run. */
  lemma {:induction false} LeadingDigitsAppend(ds: string, rest: string)
    requires AllDigits(ds) && (rest == [] || !IsDigit(rest[0]))
    ensures LeadingDigits(ds + rest) == ds
    decreases |ds|
  {
    if |ds| > 0 {
      assert (ds + rest)[0] == ds[0] && (ds + rest)[1..] == ds[1..] + rest;
      LeadingDigitsAppend(ds[1..], rest);
    } else {
      assert ds + rest == rest;
    }
  }

  lemma {:induction false} DigitsValueOfNatToString(n: nat)
    ensures DigitsValue(NatToString(n)) == n
    decreases n
  {
    if n >= 10 {
      var r := NatToString(n);
      assert r[..|r| - 1] == NatToString(n / 10);
      DigitsValueOfNatToString(n / 10);
    }
  }
}
