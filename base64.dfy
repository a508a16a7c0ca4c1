/**
 * Base64 as PHP's `base64_encode` writes it (section 4 of RFC 4648: the standard
 * alphabet, "=" padding), the `trim(..., "=\n")` the provisioning commands apply before
 * storing a key, and the decoding `base64_decode` performs on such unpadded text when
 * the signer is built from the stored value.
 */
module Base64 {
  import opened PhpStrings

  predicate IsAlphabetChar(c: char) {
    ('A' <= c <= 'Z') || ('a' <= c <= 'z') || ('0' <= c <= '9') || c == '+' || c == '/'
  }

  predicate IsAlphabetText(s: string) {
    forall i | 0 <= i < |s| :: IsAlphabetChar(s[i])
  }

  /** The character for a 6-bit value. */
  function Sextet(v: int): (c: char)
    requires 0 <= v < 64
    ensures IsAlphabetChar(c)
  {
    if v < 26 then ('A' as int + v) as char
    else if v < 52 then ('a' as int + (v - 26)) as char
    else if v < 62 then ('0' as int + (v - 52)) as char
    else if v == 62 then '+'
    else '/'
  }

  /** The 6-bit value of an alphabet character. */
  function SextetValue(c: char): (v: int)
    requires IsAlphabetChar(c)
    ensures 0 <= v < 64 && Sextet(v) == c
  {
    if 'A' <= c <= 'Z' then c as int - 'A' as int
    else if 'a' <= c <= 'z' then c as int - 'a' as int + 26
    else if '0' <= c <= '9' then c as int - '0' as int + 52
    else if c == '+' then 62
    else 63
  }

  /** One group of 1 to 3 bytes as 2 to 4 characters. */
  function EncodeGroup(g: ByteString): (r: string)
    requires 1 <= |g| <= 3
    ensures |r| == |g| + 1 && IsAlphabetText(r)
  {
    var b0 := g[0] as int;
    var b1 := if |g| > 1 then g[1] as int else 0;
    var b2 := if |g| > 2 then g[2] as int else 0;
    var cs := [Sextet(b0 / 4), Sextet((b0 % 4) * 16 + b1 / 16), Sextet((b1 % 16) * 4 + b2 / 64), Sextet(b2 % 64)];
    cs[..|g| + 1]
  }

  /** The encoding without its "=" padding: each 3 bytes become 4 characters, a final 1 or 2 bytes become 2 or 3. */
  function EncodeUnpadded(s: ByteString): (r: string)
    ensures IsAlphabetText(r)
    ensures |r| == 0 <==> |s| == 0
    ensures |r| % 4 != 1
    decreases |s|
  {
    if |s| == 0 then ""
    else if |s| <= 3 then EncodeGroup(s)
    else
      var head: ByteString := s[..3];
      var rest: ByteString := s[3..];
      var tail := EncodeUnpadded(rest);
      AlphabetConcat(EncodeGroup(head), tail);
      QuartetLength(|tail|);
      EncodeGroup(head) + tail
  }

  /** A length that is not 1 modulo 4 stays so when a full group of 4 is put in front. */
  lemma QuartetLength(n: nat)
    requires n % 4 != 1
    ensures (4 + n) % 4 != 1
  {
  }

  lemma AlphabetConcat(a: string, b: string)
    requires IsAlphabetText(a) && IsAlphabetText(b)
    ensures IsAlphabetText(a + b)
  {
    forall i | 0 <= i < |a + b|
      ensures IsAlphabetChar((a + b)[i])
    {
      if i < |a| {
        assert (a + b)[i] == a[i];
      } else {
        assert (a + b)[i] == b[i - |a|];
      }
    }
  }

  function Padding(n: nat): string {
    if n % 3 == 1 then "==" else if n % 3 == 2 then "=" else ""
  }

  /** `base64_encode($s)`: the unpadded encoding followed by "=" up to a multiple of 4 characters. */
  function Encode(s: ByteString): string {
    EncodeUnpadded(s) + Padding(|s|)
  }

  /** One group of 2 to 4 characters as 1 to 3 bytes. */
  function DecodeGroup(q: string): (r: string)
    requires 2 <= |q| <= 4 && IsAlphabetText(q)
    ensures |r| == |q| - 1 && IsBytes(r)
  {
    var c0 := SextetValue(q[0]);
    var c1 := SextetValue(q[1]);
    var c2 := if |q| > 2 then SextetValue(q[2]) else 0;
    var c3 := if |q| > 3 then SextetValue(q[3]) else 0;
    var bs := [(c0 * 4 + c1 / 16) as char, ((c1 % 16) * 16 + c2 / 4) as char, ((c2 % 4) * 64 + c3) as char];
    bs[..|q| - 1]
  }

  /** `base64_decode` of unpadded text over the alphabet whose length is a possible encoding length. */
  function DecodeUnpadded(t: string): (r: string)
    requires IsAlphabetText(t) && |t| % 4 != 1
    ensures IsBytes(r)
    decreases |t|
  {
    if |t| == 0 then ""
    else if |t| <= 4 then DecodeGroup(t)
    else DecodeGroup(t[..4]) + DecodeUnpadded(t[4..])
  }

  /** The characters the commands strip from both ends of an encoding before storing it. */
  const StoredTrim: set<char> := {'=', '\n'}

  /** The text a provisioning command writes after `KEY=`: `trim(base64_encode($s), "=\n")`. */
  function StoredForm(s: ByteString): string {
    Trim(Encode(s), StoredTrim)
  }

  lemma {:induction false} TrimRightPadding(u: string, p: string, chars: set<char>)
    requires u == [] || u[|u| - 1] !in chars
    requires forall i | 0 <= i < |p| :: p[i] in chars
    ensures TrimRight(u + p, chars) == u
    decreases |p|
  {
    if |p| > 0 {
      assert (u + p)[..|u + p| - 1] == u + p[..|p| - 1];
      TrimRightPadding(u, p[..|p| - 1], chars);
    } else {
      assert u + p == u;
    }
  }

  /** Stripping "=" and "\n" from an encoding removes exactly its padding. */
  lemma PaddingIsTrimmed(n: nat)
    ensures forall i | 0 <= i < |Padding(n)| :: Padding(n)[i] in StoredTrim
    ensures n % 3 == 0 ==> Padding(n) == ""
  {
  }

  lemma {:induction false} TrimLeftKeeps(e: string, chars: set<char>)
    requires e == [] || e[0] !in chars
    ensures TrimLeft(e, chars) == e
  {
  }

  lemma StoredFormIsUnpadded(s: ByteString)
    ensures StoredForm(s) == EncodeUnpadded(s)
  {
    var u := EncodeUnpadded(s);
    var p := Padding(|s|);
    assert Encode(s) == u + p;
    PaddingIsTrimmed(|s|);
    if u == [] {
      assert p == "";
      TrimLeftKeeps(u + p, StoredTrim);
    } else {
      assert IsAlphabetChar(u[0]) && IsAlphabetChar(u[|u| - 1]);
      assert (u + p)[0] == u[0];
      TrimLeftKeeps(u + p, StoredTrim);
    }
    TrimRightPadding(u, p, StoredTrim);
  }

  lemma SextetValueOfSextet(v: int)
    requires 0 <= v < 64
    ensures SextetValue(Sextet(v)) == v
  {
  }

  /** The bit arithmetic of one group: the four 6-bit values give back the three bytes. */
  lemma GroupArithmetic(b0: int, b1: int, b2: int, v0: int, v1: int, v2: int, v3: int)
    requires 0 <= b0 < 256 && 0 <= b1 < 256 && 0 <= b2 < 256
    requires v0 == b0 / 4 && v1 == (b0 % 4) * 16 + b1 / 16 && v2 == (b1 % 16) * 4 + b2 / 64 && v3 == b2 % 64
    ensures v0 * 4 + v1 / 16 == b0
    ensures (v1 % 16) * 16 + v2 / 4 == b1
    ensures (v2 % 4) * 64 + v3 == b2
  {
  }

  lemma GroupRoundTrip(g: ByteString)
    requires 1 <= |g| <= 3
    ensures DecodeGroup(EncodeGroup(g)) == g
  {
    var b0 := g[0] as int;
    var b1 := if |g| > 1 then g[1] as int else 0;
    var b2 := if |g| > 2 then g[2] as int else 0;
    var q := [Sextet(b0 / 4), Sextet((b0 % 4) * 16 + b1 / 16), Sextet((b1 % 16) * 4 + b2 / 64), Sextet(b2 % 64)];
    assert EncodeGroup(g) == q[..|g| + 1];
    PackedBytes(b0, b1, b2, |g|);
    BytesOfGroup(g, b0, b1, b2);
  }

  /** The bytes of a group, read back from their integer values. */
  lemma BytesOfGroup(g: ByteString, b0: int, b1: int, b2: int)
    requires 1 <= |g| <= 3
    requires b0 == g[0] as int && (|g| > 1 ==> b1 == g[1] as int) && (|g| > 2 ==> b2 == g[2] as int)
    requires 0 <= b1 < 256 && 0 <= b2 < 256
    ensures [b0 as char, b1 as char, b2 as char][..|g|] == g
  {
  }

  /** The characters of the 6-bit values of three bytes decode back to those bytes. */
  lemma PackedBytes(b0: int, b1: int, b2: int, n: int)
    requires 0 <= b0 < 256 && 0 <= b1 < 256 && 0 <= b2 < 256 && 1 <= n <= 3
    ensures var q := [Sextet(b0 / 4), Sextet((b0 % 4) * 16 + b1 / 16), Sextet((b1 % 16) * 4 + b2 / 64), Sextet(b2 % 64)];
      DecodeGroup(q[..n + 1]) == [b0 as char, b1 as char, b2 as char][..n]
  {
    var v0, v1, v2, v3 := b0 / 4, (b0 % 4) * 16 + b1 / 16, (b1 % 16) * 4 + b2 / 64, b2 % 64;
    DecodeSextets(v0, v1, v2, v3, n);
    GroupArithmetic(b0, b1, b2, v0, v1, v2, v3);
    var x0, x1, x2 := v0 * 4 + v1 / 16, (v1 % 16) * 16 + v2 / 4, (v2 % 4) * 64 + v3;
    assert [x0 as char, x1 as char, x2 as char] == [b0 as char, b1 as char, b2 as char];
  }

  /** Decoding the characters of four 6-bit values packs them back into three bytes. */
  lemma DecodeSextets(v0: int, v1: int, v2: int, v3: int, n: int)
    requires 0 <= v0 < 64 && 0 <= v1 < 64 && 0 <= v2 < 64 && 0 <= v3 < 64 && 1 <= n <= 3
    ensures DecodeGroup([Sextet(v0), Sextet(v1), Sextet(v2), Sextet(v3)][..n + 1])
         == [(v0 * 4 + v1 / 16) as char, ((v1 % 16) * 16 + v2 / 4) as char, ((v2 % 4) * 64 + v3) as char][..n]
  {
    var q := [Sextet(v0), Sextet(v1), Sextet(v2), Sextet(v3)][..n + 1];
    SextetValueOfSextet(v0);
    SextetValueOfSextet(v1);
    SextetValueOfSextet(v2);
    SextetValueOfSextet(v3);
    assert SextetValue(q[0]) == v0 && SextetValue(q[1]) == v1;
    assert n > 1 ==> SextetValue(q[2]) == v2;
    assert n > 2 ==> SextetValue(q[3]) == v3;
  }

  lemma {:induction false} DecodeEncodeUnpadded(s: ByteString)
    ensures |EncodeUnpadded(s)| % 4 != 1
    ensures DecodeUnpadded(EncodeUnpadded(s)) == s
    decreases |s|
  {
    if 1 <= |s| <= 3 {
      GroupRoundTrip(s);
    } else if |s| > 3 {
      assert s[..3] + s[3..] == s;
      var head: ByteString := s[..3];
      var rest: ByteString := s[3..];
      var t := EncodeUnpadded(s);
      GroupRoundTrip(head);
      DecodeEncodeUnpadded(rest);
      assert t[..4] == EncodeGroup(head) && t[4..] == EncodeUnpadded(rest);
      assert s == head + rest;
    }
  }

  /**
   * The stored text decodes back to the key material: what the commands write after
   * `KEY=` is what the signer is built from.
   */
  lemma StoredFormRoundTrip(s: ByteString)
    ensures IsAlphabetText(StoredForm(s)) && |StoredForm(s)| % 4 != 1
    ensures DecodeUnpadded(StoredForm(s)) == s
  {
    StoredFormIsUnpadded(s);
    DecodeEncodeUnpadded(s);
  }

  /** Different key material is always stored as different text. */
  lemma StoredFormInjective(a: ByteString, b: ByteString)
    ensures StoredForm(a) == StoredForm(b) ==> a == b
  {
    StoredFormRoundTrip(a);
    StoredFormRoundTrip(b);
  }

  /** The stored text is a single line, and has no "\\" or "$" for `preg_replace` to interpret. */
  lemma StoredFormIsPlain(s: ByteString)
    ensures '\n' !in StoredForm(s) && '\\' !in StoredForm(s) && '$' !in StoredForm(s)
  {
    StoredFormRoundTrip(s);
  }
}
