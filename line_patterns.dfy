/**
 * The regular expressions the console commands run over `.env` and config files,
 * hand-coded at the level of lines. All of them use the multiline flag, so `^` and `$`
 * match at line boundaries, and `.` matches any character but "\n".
 *
 * - `/^KEY=(.*)\n?$/m` with `preg_match`: the first line that starts with `KEY=`;
 *   the group is the rest of that line.
 * - `/^KEY=.*\n?$/m` with `preg_replace`: every line that starts with `KEY=` is
 *   replaced. The greedy `\n?` also consumes the newline after the line when what
 *   follows it is another "\n" or the end of the text, i.e. when the next line is blank;
 *   that blank line then disappears.
 * - `/^KEY=.*\n??$/m`: the same, but the lazy `\n??` never consumes the newline.
 * - `/"key" => "?.*"?,\n??$/m` (no `^`): on a line ending in ",", the text from the
 *   leftmost `"key" => ` to the end of the line.
 */
module LinePatterns {
  import opened Wrappers
  import opened PhpStrings
  import opened PhpValues

  // ---------------------------------------------------------------- lines

  predicate NoNewline(s: string) {
    '\n' !in s
  }

  predicate AllNoNewline(ls: seq<string>) {
    forall i | 0 <= i < |ls| :: NoNewline(ls[i])
  }

  /** The text split at every "\n"; a text ending in "\n" has a blank last line. */
  function Lines(t: string): (ls: seq<string>)
    ensures |ls| >= 1 && AllNoNewline(ls)
  {
    Split(t, '\n')
  }

  // ---------------------------------------------------------------- KEY= lines

  /** A line that `^KEY=` matches. */
  predicate IsKeyLine(line: string, key: string) {
    StartsWith(line, key + "=")
  }

  function FirstKeyValue(ls: seq<string>, key: string): Option<string>
    decreases |ls|
  {
    if ls == [] then None
    else if IsKeyLine(ls[0], key) then Some(ls[0][|key| + 1..])
    else FirstKeyValue(ls[1..], key)
  }

  /**
   * `preg_match("/^KEY=(.*)\n?$/m", $t, $match)`: `None` when it does not match,
   * otherwise `$match[1]`, the rest of the first line that starts with `KEY=`.
   */
  function MatchKeyValue(t: string, key: string): Option<string> {
    FirstKeyValue(Lines(t), key)
  }

  predicate HasKeyLine(t: string, key: string) {
    MatchKeyValue(t, key).Some?
  }

  /** A key whose `KEY=` line carries a value PHP's `empty()` rejects ("" or "0") counts as unset. */
  predicate HasValue(t: string, key: string) {
    match MatchKeyValue(t, key)
    case Some(v) => !IsEmpty(Str(v))
    case None => false
  }

  /** A text without a newline is a single line. */
  lemma LinesOfLine(s: string)
    requires NoNewline(s)
    ensures Lines(s) == [s]
  {
    SplitPrefixed(s, "", '\n');
    assert s + "" == s;
  }

  lemma {:induction false} FirstKeyValueAppend(a: seq<string>, b: seq<string>, key: string)
    ensures FirstKeyValue(a + b, key)
         == if FirstKeyValue(a, key).Some? then FirstKeyValue(a, key) else FirstKeyValue(b, key)
    decreases |a|
  {
    if a != [] {
      assert (a + b)[0] == a[0] && (a + b)[1..] == a[1..] + b;
      FirstKeyValueAppend(a[1..], b, key);
    } else {
      assert a + b == b;
    }
  }

  // ---------------------------------------------------------------- replacement references

  /** Text in which `preg_replace` sees no reference and no escape: no "\\" and no "$". */
  predicate NoReferences(s: string) {
    '\\' !in s && '$' !in s
  }

  /**
   * A reference at the start of `r` (which starts with "\\" or "$"): `\n`, `$n` or
   * `${n}` with one or two digits `n`. The group number and the reference's length.
   */
  function Backref(r: string): (b: Option<(nat, nat)>)
    requires |r| > 0
    ensures b.Some? ==> 2 <= b.value.1 <= |r|
  {
    var braced := r[0] == '$' && |r| > 1 && r[1] == '{';
    var start := if braced then 2 else 1;
    if |r| <= start || !IsDigit(r[start]) then None
    else
      var two := |r| > start + 1 && IsDigit(r[start + 1]);
      var end := if two then start + 2 else start + 1;
      var n := DigitsValue(r[start..end]);
      if !braced then Some((n, end))
      else if |r| > end && r[end] == '}' then Some((n, end + 1))
      else None
  }

  /**
   * The text `preg_replace` puts in place of one match `whole` of a pattern without
   * groups: reference 0 is the match, every other group number is unset and reads as
   * "", and a backslash before "\\" or "$" makes that character literal.
   */
  function Expand(r: string, whole: string): string
    decreases |r|
  {
    if r == [] then ""
    else if r[0] == '\\' || r[0] == '$' then
      match Backref(r)
      case Some((n, len)) => (if n == 0 then whole else "") + Expand(r[len..], whole)
      case None =>
        if r[0] == '\\' && |r| > 1 && (r[1] == '\\' || r[1] == '$') then [r[1]] + Expand(r[2..], whole)
        else [r[0]] + Expand(r[1..], whole)
    else [r[0]] + Expand(r[1..], whole)
  }

  /** Text before the first "\\" or "$" comes through unchanged. */
  lemma {:induction false} ExpandPrefix(a: string, b: string, whole: string)
    requires NoReferences(a)
    ensures Expand(a + b, whole) == a + Expand(b, whole)
    decreases |a|
  {
    if a != [] {
      assert (a + b)[0] == a[0] && (a + b)[1..] == a[1..] + b;
      assert a[0] in a;
      ExpandPrefix(a[1..], b, whole);
      assert [a[0]] + (a[1..] + Expand(b, whole)) == a + Expand(b, whole);
    } else {
      assert a + b == b;
    }
  }

  /** A replacement without references is inserted verbatim, whatever was matched. */
  lemma ExpandLiteral(r: string, whole: string)
    requires NoReferences(r)
    ensures Expand(r, whole) == r
  {
    ExpandPrefix(r, "", whole);
    assert r + "" == r;
  }

  /** The replacement text is made of characters of the replacement and of the match. */
  lemma {:induction false} ExpandCharacters(r: string, whole: string)
    ensures forall c | c in Expand(r, whole) :: c in r || c in whole
    decreases |r|
  {
    if r != [] {
      var rest: string;
      var head: string;
      if r[0] == '\\' || r[0] == '$' {
        match Backref(r)
        case Some((n, len)) =>
          rest := r[len..];
          head := if n == 0 then whole else "";
        case None =>
          if r[0] == '\\' && |r| > 1 && (r[1] == '\\' || r[1] == '$') {
            rest := r[2..];
            head := [r[1]];
          } else {
            rest := r[1..];
            head := [r[0]];
          }
      } else {
        rest := r[1..];
        head := [r[0]];
      }
      assert Expand(r, whole) == head + Expand(rest, whole);
      ExpandCharacters(rest, whole);
      assert forall c | c in rest :: c in r;
      assert forall c | c in head :: c in r || c in whole;
    }
  }

  /** A one-line replacement expanded against a one-line match is one line. */
  lemma ExpandOneLine(r: string, whole: string)
    requires NoNewline(r) && NoNewline(whole)
    ensures NoNewline(Expand(r, whole))
  {
    ExpandCharacters(r, whole);
  }

  /** `$0`, `\0` and `${0}` stand for the match, `$1` for nothing, and `\$0` for the text `$0`. */
  lemma ExpandReferences(whole: string)
    ensures Expand("$0", whole) == whole
    ensures Expand("\\0", whole) == whole
    ensures Expand("${0}", whole) == whole
    ensures Expand("$1", whole) == ""
    ensures Expand("\\$0", whole) == "$0"
  {
    assert Backref("$0") == Some((0, 2)) by {
      assert "$0"[1..2] == "0";
    }
    assert Backref("\\0") == Some((0, 2)) by {
      assert "\\0"[1..2] == "0";
    }
    assert Backref("${0}") == Some((0, 4)) by {
      assert "${0}"[2..3] == "0";
    }
    assert Backref("$1") == Some((1, 2)) by {
      assert "$1"[1..2] == "1";
    }
    assert Backref("\\$0") == None;
    assert "\\$0"[2..] == "0";
    assert Expand("0", whole) == "0";
    assert whole + "" == whole;
  }

  // ---------------------------------------------------------------- replacing KEY= lines

  /**
   * The lines after replacing every `KEY=` line by the lines of the replacement, its
   * references expanded against the matched text; with `swallow` (the greedy `\n?`) a
   * blank line right after a replaced line goes with it, and the match ends in "\n".
   */
  function RewriteKeyLines(ls: seq<string>, key: string, replacement: string, swallow: bool): seq<string>
    decreases |ls|
  {
    if ls == [] then []
    else if IsKeyLine(ls[0], key) then
      if swallow && |ls| > 1 && ls[1] == "" then
        Lines(Expand(replacement, ls[0] + "\n")) + RewriteKeyLines(ls[2..], key, replacement, swallow)
      else Lines(Expand(replacement, ls[0])) + RewriteKeyLines(ls[1..], key, replacement, swallow)
    else [ls[0]] + RewriteKeyLines(ls[1..], key, replacement, swallow)
  }

  /**
   * `preg_replace("/^KEY=.*\n?$/m", $replacement, $t)` when `swallow` holds, and the
   * lazy `\n??` form when it does not.
   */
  function ReplaceKeyLines(t: string, key: string, replacement: string, swallow: bool): string {
    Join("\n", RewriteKeyLines(Lines(t), key, replacement, swallow))
  }

  lemma {:induction false} RewriteWithoutKeyLines(ls: seq<string>, key: string, replacement: string, swallow: bool)
    requires FirstKeyValue(ls, key) == None
    ensures RewriteKeyLines(ls, key, replacement, swallow) == ls
    decreases |ls|
  {
    if ls != [] {
      RewriteWithoutKeyLines(ls[1..], key, replacement, swallow);
    }
  }

  /** A text without a `KEY=` line is left exactly as it was. */
  lemma ReplaceWithoutKeyLine(t: string, key: string, replacement: string, swallow: bool)
    requires !HasKeyLine(t, key)
    ensures ReplaceKeyLines(t, key, replacement, swallow) == t
  {
    RewriteWithoutKeyLines(Lines(t), key, replacement, swallow);
    JoinSplit(t, '\n');
  }

  lemma {:induction false} RewriteKeepsNoNewline(ls: seq<string>, key: string, replacement: string, swallow: bool)
    requires AllNoNewline(ls)
    ensures AllNoNewline(RewriteKeyLines(ls, key, replacement, swallow))
    ensures |ls| >= 1 ==> |RewriteKeyLines(ls, key, replacement, swallow)| >= 1
    decreases |ls|
  {
    if ls != [] {
      var swallowed := IsKeyLine(ls[0], key) && swallow && |ls| > 1 && ls[1] == "";
      var rest := if swallowed then ls[2..] else ls[1..];
      RewriteKeepsNoNewline(rest, key, replacement, swallow);
      var head := if !IsKeyLine(ls[0], key) then [ls[0]]
        else if swallowed then Lines(Expand(replacement, ls[0] + "\n"))
        else Lines(Expand(replacement, ls[0]));
      var r := RewriteKeyLines(rest, key, replacement, swallow);
      assert RewriteKeyLines(ls, key, replacement, swallow) == head + r;
      forall i | 0 <= i < |head + r|
        ensures NoNewline((head + r)[i])
      {
        if i >= |head| {
          assert (head + r)[i] == r[i - |head|];
        }
      }
    }
  }

  /** The lines of a replaced text: the rewritten lines of the original. */
  lemma LinesOfReplace(t: string, key: string, replacement: string, swallow: bool)
    ensures Lines(ReplaceKeyLines(t, key, replacement, swallow))
         == RewriteKeyLines(Lines(t), key, replacement, swallow)
  {
    RewriteKeepsNoNewline(Lines(t), key, replacement, swallow);
    SplitJoin(RewriteKeyLines(Lines(t), key, replacement, swallow), '\n');
  }

  lemma {:induction false} FirstKeyValueOfRewrite(ls: seq<string>, key: string, replacement: string, swallow: bool)
    requires NoReferences(replacement)
    ensures FirstKeyValue(RewriteKeyLines(ls, key, replacement, swallow), key)
         == if FirstKeyValue(ls, key).Some? then FirstKeyValue(Lines(replacement), key) else None
    decreases |ls|
  {
    if ls != [] {
      if IsKeyLine(ls[0], key) {
        var swallowed := swallow && |ls| > 1 && ls[1] == "";
        var rest := if swallowed then ls[2..] else ls[1..];
        ExpandLiteral(replacement, ls[0] + "\n");
        ExpandLiteral(replacement, ls[0]);
        FirstKeyValueOfRewrite(rest, key, replacement, swallow);
        FirstKeyValueAppend(Lines(replacement), RewriteKeyLines(rest, key, replacement, swallow), key);
      } else {
        FirstKeyValueOfRewrite(ls[1..], key, replacement, swallow);
      }
    }
  }

  /**
   * Reading a key back after replacing its lines by `KEY=value` gives `value`, provided
   * the text had such a line and neither text holds a reference: the `preg_match`
   * reader and the `preg_replace` writer agree.
   */
  lemma ReadAfterReplace(t: string, key: string, value: string, swallow: bool)
    requires NoNewline(key) && NoNewline(value) && NoReferences(key) && NoReferences(value)
    ensures MatchKeyValue(ReplaceKeyLines(t, key, key + "=" + value, swallow), key)
         == if HasKeyLine(t, key) then Some(value) else None
  {
    var r := key + "=" + value;
    KeyLineHasNoNewline(key, value);
    LinesOfLine(r);
    assert IsKeyLine(r, key) && r[|key| + 1..] == value;
    assert FirstKeyValue([r], key) == Some(value);
    LinesOfReplace(t, key, r, swallow);
    FirstKeyValueOfRewrite(Lines(t), key, r, swallow);
  }

  /** Two keys no line can start with at once: different, and neither contains "=". */
  predicate DistinctKeys(a: string, b: string) {
    a != b && '=' !in a && '=' !in b
  }

  lemma KeyLinesDisjoint(line: string, a: string, b: string)
    requires DistinctKeys(a, b) && IsKeyLine(line, a)
    ensures !IsKeyLine(line, b)
  {
    if |b| < |a| {
      assert line[|b|] == a[|b|] && a[|b|] in a;
    } else if |a| < |b| {
      assert line[|a|] == '=' && b[|a|] in b;
    } else {
      assert line[..|a|] == a;
    }
  }

  lemma {:induction false} FirstKeyValueOfOtherRewrite(ls: seq<string>, key: string, other: string, replacement: string, swallow: bool)
    requires DistinctKeys(key, other) && NoReferences(replacement) && FirstKeyValue(Lines(replacement), key) == None
    ensures FirstKeyValue(RewriteKeyLines(ls, other, replacement, swallow), key) == FirstKeyValue(ls, key)
    decreases |ls|
  {
    if ls != [] {
      if IsKeyLine(ls[0], other) {
        KeyLinesDisjoint(ls[0], other, key);
        if swallow && |ls| > 1 && ls[1] == "" {
          ExpandLiteral(replacement, ls[0] + "\n");
          assert !IsKeyLine(ls[1], key);
          assert ls[1..][1..] == ls[2..];
          assert FirstKeyValue(ls[1..], key) == FirstKeyValue(ls[2..], key);
          FirstKeyValueOfOtherRewrite(ls[2..], key, other, replacement, swallow);
          FirstKeyValueAppend(Lines(replacement), RewriteKeyLines(ls[2..], other, replacement, swallow), key);
        } else {
          ExpandLiteral(replacement, ls[0]);
          FirstKeyValueOfOtherRewrite(ls[1..], key, other, replacement, swallow);
          FirstKeyValueAppend(Lines(replacement), RewriteKeyLines(ls[1..], other, replacement, swallow), key);
        }
      } else {
        FirstKeyValueOfOtherRewrite(ls[1..], key, other, replacement, swallow);
      }
    }
  }

  /**
   * Replacing the lines of another key leaves what `preg_match` reads for this key
   * alone, provided the replacement text has no reference and no line for this key.
   */
  lemma ReadOtherAfterReplace(t: string, key: string, other: string, replacement: string, swallow: bool)
    requires DistinctKeys(key, other) && NoReferences(replacement) && FirstKeyValue(Lines(replacement), key) == None
    ensures MatchKeyValue(ReplaceKeyLines(t, other, replacement, swallow), key) == MatchKeyValue(t, key)
  {
    LinesOfReplace(t, other, replacement, swallow);
    FirstKeyValueOfOtherRewrite(Lines(t), key, other, replacement, swallow);
  }

  lemma {:induction false} RewriteAppend(a: seq<string>, b: seq<string>, key: string, replacement: string, swallow: bool)
    requires FirstKeyValue(a, key) == None
    ensures RewriteKeyLines(a + b, key, replacement, swallow) == a + RewriteKeyLines(b, key, replacement, swallow)
    decreases |a|
  {
    if a != [] {
      assert (a + b)[0] == a[0] && (a + b)[1..] == a[1..] + b;
      RewriteAppend(a[1..], b, key, replacement, swallow);
    } else {
      assert a + b == b;
    }
  }

  /** The key line the commands append to a text that lacks one: `"\n\nKEY=\n"`. */
  function AppendKeyLine(t: string, key: string): string {
    t + "\n\n" + key + "=\n"
  }

  lemma LinesOfAppended(t: string, key: string)
    requires NoNewline(key)
    ensures Lines(AppendKeyLine(t, key)) == Lines(t) + ["", key + "=", ""]
  {
    var tail := "\n" + key + "=\n";
    assert AppendKeyLine(t, key) == t + ['\n'] + tail;
    SplitAround(t, tail, '\n');
    assert tail == "" + ['\n'] + ((key + "=") + ['\n'] + "");
    SplitAround("", (key + "=") + ['\n'] + "", '\n');
    SplitAround(key + "=", "", '\n');
    assert '\n' !in key + "=";
    SplitPrefixed(key + "=", "", '\n');
    assert key + "=" + "" == key + "=";
  }

  lemma RewriteAppendedTail(key: string, replacement: string)
    ensures RewriteKeyLines(["", key + "=", ""], key, replacement, true)
         == [""] + Lines(Expand(replacement, key + "=" + "\n"))
  {
    var tail: seq<string> := ["", key + "=", ""];
    var rest: seq<string> := [key + "=", ""];
    var rs := Lines(Expand(replacement, key + "=" + "\n"));
    assert IsKeyLine(key + "=", key) && !IsKeyLine("", key);
    assert tail[1..] == rest && rest[2..] == [];
    assert RewriteKeyLines(rest, key, replacement, true) == rs + RewriteKeyLines([], key, replacement, true);
    assert RewriteKeyLines(tail, key, replacement, true) == [""] + RewriteKeyLines(rest, key, replacement, true);
  }

  /**
   * A text without a `KEY=` line, once the empty `KEY=` line is appended, has exactly
   * one, with an empty value, and replacing it (greedy form) leaves the original text,
   * a blank line and the replacement expanded against the matched `KEY=\n`: the final
   * newline goes with the replaced line.
   */
  lemma ReplaceAppendedKeyLine(t: string, key: string, replacement: string)
    requires NoNewline(key) && !HasKeyLine(t, key)
    ensures MatchKeyValue(AppendKeyLine(t, key), key) == Some("")
    ensures ReplaceKeyLines(AppendKeyLine(t, key), key, replacement, true)
         == t + "\n\n" + Expand(replacement, key + "=" + "\n")
  {
    var tail: seq<string> := ["", key + "=", ""];
    var expanded := Expand(replacement, key + "=" + "\n");
    LinesOfAppended(t, key);
    assert FirstKeyValue(tail, key) == Some("") by {
      assert !IsKeyLine("", key) && IsKeyLine(key + "=", key) && (key + "=")[|key| + 1..] == "";
      assert tail[1..] == [key + "=", ""];
    }
    FirstKeyValueAppend(Lines(t), tail, key);
    RewriteAppend(Lines(t), tail, key, replacement, true);
    RewriteAppendedTail(key, replacement);
    assert ReplaceKeyLines(AppendKeyLine(t, key), key, replacement, true) == Join("\n", Lines(t) + ([""] + Lines(expanded)));
    JoinBlankLine(t, expanded);
  }

  /** Joining a text's lines, an empty line and another text's lines puts a blank line between the texts. */
  lemma JoinBlankLine(t: string, u: string)
    ensures Join("\n", Lines(t) + ([""] + Lines(u))) == t + "\n\n" + u
  {
    var ls := Lines(t);
    var rs := Lines(u);
    var mid := [""] + rs;
    JoinSplit(u, '\n');
    assert Join("\n", rs) == u;
    JoinAppend("\n", [""], rs);
    assert Join("\n", mid) == "" + "\n" + u;
    JoinSplit(t, '\n');
    assert Join("\n", ls) == t;
    JoinAppend("\n", ls, mid);
    assert Join("\n", ls + mid) == t + "\n" + ("" + "\n" + u);
    assert t + "\n" + ("" + "\n" + u) == t + "\n\n" + u;
  }

  /** A text that is just an empty `KEY=` line becomes the replacement, expanded against that line. */
  lemma ReplaceSoleKeyLine(key: string, replacement: string, swallow: bool)
    requires NoNewline(key)
    ensures ReplaceKeyLines(key + "=", key, replacement, swallow) == Expand(replacement, key + "=")
  {
    var rs := Lines(Expand(replacement, key + "="));
    assert NoNewline(key + "=");
    LinesOfLine(key + "=");
    assert IsKeyLine(key + "=", key);
    assert RewriteKeyLines([key + "="], key, replacement, swallow) == rs + RewriteKeyLines([], key, replacement, swallow);
    assert rs + [] == rs;
    JoinSplit(Expand(replacement, key + "="), '\n');
  }

  /** A `KEY=value` line of one-line parts is one line, and has no reference when its parts have none. */
  lemma KeyLineHasNoNewline(key: string, value: string)
    requires NoNewline(key) && NoNewline(value)
    ensures NoNewline(key + "=" + value)
    ensures NoReferences(key) && NoReferences(value) ==> NoReferences(key + "=" + value)
  {
    assert forall c | c in key + "=" + value :: c in key || c == '=' || c in value;
  }

  /** A line followed by a newline has no reference when the line has none. */
  lemma TerminatedHasNoReferences(s: string)
    requires NoReferences(s)
    ensures NoReferences(s + "\n")
  {
    assert forall c | c in s + "\n" :: c in s || c == '\n';
  }

  lemma LinesOfTerminatedLine(s: string)
    requires NoNewline(s)
    ensures Lines(s + "\n") == [s, ""]
  {
    assert s + "\n" == s + ['\n'] + "";
    SplitAround(s, "", '\n');
    LinesOfLine(s);
  }

  /** Appending the empty line of one key leaves what is read for another. */
  lemma AppendedKeepsOtherKey(t: string, key: string, other: string)
    requires NoNewline(key) && DistinctKeys(key, other)
    ensures MatchKeyValue(AppendKeyLine(t, key), other) == MatchKeyValue(t, other)
  {
    LinesOfAppended(t, key);
    var tail: seq<string> := ["", key + "=", ""];
    FirstKeyValueAppend(Lines(t), tail, other);
    KeyLinesDisjoint(key + "=", key, other);
    assert FirstKeyValue(tail, other) == None by {
      assert !IsKeyLine("", other);
      assert tail[1..] == [key + "=", ""] && tail[1..][1..] == [""] && [""][1..] == [];
      assert FirstKeyValue([""], other) == FirstKeyValue([], other);
      assert FirstKeyValue([key + "=", ""], other) == FirstKeyValue([""], other);
    }
  }

  /** One-line keys and values without references. */
  predicate PlainAssignment(key: string, value: string) {
    NoNewline(key) && NoNewline(value) && NoReferences(key) && NoReferences(value)
  }

  /**
   * Replacing the lines of one key and then those of a second key, the second
   * replacement ending in "\n", leaves each key reading its new value exactly when the
   * text had a line for it.
   */
  lemma ReplaceTwoKeys(p: string, k1: string, k2: string, v1: string, v2: string)
    requires PlainAssignment(k1, v1) && PlainAssignment(k2, v2) && DistinctKeys(k1, k2)
    ensures var t := ReplaceKeyLines(ReplaceKeyLines(p, k1, k1 + "=" + v1, true), k2, k2 + "=" + v2 + "\n", true);
      && MatchKeyValue(t, k1) == (if HasKeyLine(p, k1) then Some(v1) else None)
      && MatchKeyValue(t, k2) == (if HasKeyLine(p, k2) then Some(v2) else None)
  {
    var r1 := k1 + "=" + v1;
    var q := k2 + "=" + v2;
    var t1 := ReplaceKeyLines(p, k1, r1, true);
    KeyLineHasNoNewline(k1, v1);
    KeyLineHasNoNewline(k2, v2);
    TerminatedHasNoReferences(q);
    LinesOfLine(r1);
    LinesOfTerminatedLine(q);
    assert q + "\n" == k2 + "=" + v2 + "\n";
    // the first key
    ReadAfterReplace(p, k1, v1, true);
    KeyLinesDisjoint(q, k2, k1);
    assert FirstKeyValue([q, ""], k1) == None by {
      assert [q, ""][1..] == [""] && [""][1..] == [];
    }
    ReadOtherAfterReplace(t1, k1, k2, q + "\n", true);
    // the second key
    KeyLinesDisjoint(r1, k1, k2);
    assert FirstKeyValue([r1], k2) == None by {
      assert [r1][1..] == [];
    }
    ReadOtherAfterReplace(p, k2, k1, r1, true);
    assert IsKeyLine(q, k2) && q[|k2| + 1..] == v2;
    LinesOfReplace(t1, k2, q + "\n", true);
    FirstKeyValueOfRewrite(Lines(t1), k2, q + "\n", true);
  }

  /** The two empty key lines a fresh file starts from: `"K1=\nK2=\n"`. */
  function FreshKeyLines(k1: string, k2: string): string {
    k1 + "=\n" + k2 + "=\n"
  }

  lemma LinesOfFreshKeyLines(k1: string, k2: string)
    requires NoNewline(k1) && NoNewline(k2)
    ensures Lines(FreshKeyLines(k1, k2)) == [k1 + "=", k2 + "=", ""]
  {
    var a := k1 + "=";
    var b := k2 + "=";
    KeyLineHasNoNewline(k1, "");
    KeyLineHasNoNewline(k2, "");
    assert k1 + "=" + "" == a && k2 + "=" + "" == b;
    assert FreshKeyLines(k1, k2) == a + ['\n'] + (b + "\n");
    SplitAround(a, b + "\n", '\n');
    LinesOfTerminatedLine(b);
    LinesOfLine(a);
  }

  /** Both keys of a fresh file are set, with empty values. */
  lemma FreshKeyLinesReadings(k1: string, k2: string)
    requires NoNewline(k1) && NoNewline(k2) && DistinctKeys(k1, k2)
    ensures MatchKeyValue(FreshKeyLines(k1, k2), k1) == Some("")
    ensures MatchKeyValue(FreshKeyLines(k1, k2), k2) == Some("")
  {
    LinesOfFreshKeyLines(k1, k2);
    var ls: seq<string> := [k1 + "=", k2 + "=", ""];
    assert IsKeyLine(k1 + "=", k1) && (k1 + "=")[|k1| + 1..] == "";
    assert IsKeyLine(k2 + "=", k2) && (k2 + "=")[|k2| + 1..] == "";
    KeyLinesDisjoint(k1 + "=", k1, k2);
    assert ls[1..] == [k2 + "=", ""];
    assert FirstKeyValue(ls[1..], k2) == Some("");
    assert FirstKeyValue(ls, k2) == FirstKeyValue(ls[1..], k2);
  }

  /** Filling both lines of a fresh file, the second replacement ending in "\n". */
  lemma ReplaceFreshKeyLines(k1: string, k2: string, v1: string, v2: string)
    requires PlainAssignment(k1, v1) && PlainAssignment(k2, v2) && DistinctKeys(k1, k2)
    ensures ReplaceKeyLines(ReplaceKeyLines(FreshKeyLines(k1, k2), k1, k1 + "=" + v1, true), k2, k2 + "=" + v2 + "\n", true)
         == k1 + "=" + v1 + "\n" + (k2 + "=" + v2 + "\n")
  {
    var a := k1 + "=";
    var b := k2 + "=";
    var r1 := k1 + "=" + v1;
    var q := k2 + "=" + v2;
    KeyLineHasNoNewline(k1, v1);
    KeyLineHasNoNewline(k2, v2);
    TerminatedHasNoReferences(q);
    LinesOfLine(r1);
    LinesOfTerminatedLine(q);
    assert q + "\n" == k2 + "=" + v2 + "\n";
    LinesOfFreshKeyLines(k1, k2);
    assert IsKeyLine(a, k1) && IsKeyLine(b, k2);
    KeyLinesDisjoint(b, k2, k1);
    KeyLinesDisjoint(r1, k1, k2);
    ExpandLiteral(r1, a);
    ExpandLiteral(q + "\n", b + "\n");
    var first: seq<string> := [r1, b, ""];
    assert RewriteKeyLines([a, b, ""], k1, r1, true) == first by {
      assert [a, b, ""][1..] == [b, ""] && [b, ""][1..] == [""] && [""][1..] == [];
      assert RewriteKeyLines([""], k1, r1, true) == [""] + RewriteKeyLines([], k1, r1, true);
      assert RewriteKeyLines([b, ""], k1, r1, true) == [b] + RewriteKeyLines([""], k1, r1, true);
    }
    LinesOfReplace(FreshKeyLines(k1, k2), k1, r1, true);
    var t1 := ReplaceKeyLines(FreshKeyLines(k1, k2), k1, r1, true);
    LinesOfReplace(t1, k2, q + "\n", true);
    assert RewriteKeyLines(first, k2, q + "\n", true) == [r1, q, ""] by {
      assert first[1..] == [b, ""] && [b, ""][2..] == [];
      assert RewriteKeyLines([b, ""], k2, q + "\n", true) == [q, ""] + RewriteKeyLines([], k2, q + "\n", true);
    }
    assert Join("\n", [q, ""]) == q + "\n" + "" by {
      assert [q, ""][1..] == [""];
    }
    assert Join("\n", [r1, q, ""]) == r1 + "\n" + Join("\n", [q, ""]) by {
      assert [r1, q, ""][1..] == [q, ""];
    }
  }

  /**
   * Replacing the lines of one key by a `KEY=value` line without references, with or
   * without a trailing newline, leaves what every other key reads unchanged.
   */
  lemma ReadOtherAfterAssignment(t: string, key: string, other: string, value: string, terminated: bool, swallow: bool)
    requires PlainAssignment(other, value) && DistinctKeys(key, other)
    ensures var line := other + "=" + value;
      MatchKeyValue(ReplaceKeyLines(t, other, if terminated then line + "\n" else line, swallow), key)
        == MatchKeyValue(t, key)
  {
    var line := other + "=" + value;
    KeyLineHasNoNewline(other, value);
    KeyLinesDisjoint(line, other, key);
    if terminated {
      TerminatedHasNoReferences(line);
      LinesOfTerminatedLine(line);
      assert FirstKeyValue([line, ""], key) == FirstKeyValue([""], key);
      assert FirstKeyValue([""], key) == None by {
        assert [""][1..] == [];
      }
      ReadOtherAfterReplace(t, key, other, line + "\n", swallow);
    } else {
      LinesOfLine(line);
      assert FirstKeyValue([line], key) == None by {
        assert [line][1..] == [];
      }
      ReadOtherAfterReplace(t, key, other, line, swallow);
    }
  }

  // ---------------------------------------------------------------- the lazy form, any value

  /**
   * Expanding `KEY=value` against a one-line match: the key comes through as it is and
   * the result is the one line `KEY=` followed by the expanded value.
   */
  lemma ExpandAssignment(key: string, value: string, whole: string)
    requires NoNewline(key) && NoReferences(key) && NoNewline(value) && NoNewline(whole)
    ensures NoNewline(Expand(value, whole))
    ensures Lines(Expand(key + "=" + value, whole)) == [key + "=" + Expand(value, whole)]
  {
    KeyLineHasNoNewline(key, "");
    assert key + "=" + "" == key + "=";
    ExpandPrefix(key + "=", value, whole);
    ExpandOneLine(value, whole);
    KeyLineHasNoNewline(key, Expand(value, whole));
    LinesOfLine(key + "=" + Expand(value, whole));
  }

  /**
   * With the lazy `\n??`, the first `KEY=` line becomes `KEY=` followed by the value
   * with its references expanded against that line, whatever the value holds.
   */
  lemma {:induction false} FirstKeyValueOfLazyAssignment(ls: seq<string>, key: string, value: string)
    requires AllNoNewline(ls) && NoNewline(key) && NoReferences(key) && NoNewline(value)
    ensures FirstKeyValue(RewriteKeyLines(ls, key, key + "=" + value, false), key)
         == match FirstKeyValue(ls, key)
            case Some(was) => Some(Expand(value, key + "=" + was))
            case None => None
    decreases |ls|
  {
    if ls != [] {
      var rest := RewriteKeyLines(ls[1..], key, key + "=" + value, false);
      assert AllNoNewline(ls[1..]) by {
        assert forall i | 0 <= i < |ls[1..]| :: ls[1..][i] == ls[i + 1];
      }
      if IsKeyLine(ls[0], key) {
        assert ls[0] == key + "=" + ls[0][|key| + 1..];
        ExpandAssignment(key, value, ls[0]);
        var line := key + "=" + Expand(value, ls[0]);
        assert IsKeyLine(line, key) && line[|key| + 1..] == Expand(value, ls[0]);
        assert ([line] + rest)[0] == line;
      } else {
        FirstKeyValueOfLazyAssignment(ls[1..], key, value);
        assert ([ls[0]] + rest)[1..] == rest;
      }
    }
  }

  /** With the lazy `\n??`, assigning another key, whatever the value holds, leaves this key's reading alone. */
  lemma {:induction false} FirstKeyValueOfOtherLazyAssignment(ls: seq<string>, key: string, other: string, value: string)
    requires AllNoNewline(ls) && DistinctKeys(key, other) && NoNewline(other) && NoReferences(other) && NoNewline(value)
    ensures FirstKeyValue(RewriteKeyLines(ls, other, other + "=" + value, false), key) == FirstKeyValue(ls, key)
    decreases |ls|
  {
    if ls != [] {
      var rest := RewriteKeyLines(ls[1..], other, other + "=" + value, false);
      assert AllNoNewline(ls[1..]) by {
        assert forall i | 0 <= i < |ls[1..]| :: ls[1..][i] == ls[i + 1];
      }
      FirstKeyValueOfOtherLazyAssignment(ls[1..], key, other, value);
      if IsKeyLine(ls[0], other) {
        KeyLinesDisjoint(ls[0], other, key);
        ExpandAssignment(other, value, ls[0]);
        var line := other + "=" + Expand(value, ls[0]);
        assert IsKeyLine(line, other);
        KeyLinesDisjoint(line, other, key);
        assert ([line] + rest)[0] == line && ([line] + rest)[1..] == rest;
      } else {
        assert ([ls[0]] + rest)[0] == ls[0] && ([ls[0]] + rest)[1..] == rest;
      }
    }
  }

  // ---------------------------------------------------------------- several keys in turn

  /**
   * `preg_replace($patterns, $replacements, $t)` with one `^KEY=` pattern per pair: each
   * pattern is applied to the result of the previous one.
   */
  function ReplaceEachKey(t: string, pairs: seq<(string, string)>, swallow: bool): string
    decreases |pairs|
  {
    if pairs == [] then t
    else ReplaceEachKey(ReplaceKeyLines(t, pairs[0].0, pairs[0].1, swallow), pairs[1..], swallow)
  }

  /** The pairs `(KEY, "KEY=value")` for a list of assignments. */
  function KeyAssignments(kvs: seq<(string, string)>): (pairs: seq<(string, string)>)
    ensures |pairs| == |kvs|
    ensures forall i | 0 <= i < |kvs| :: pairs[i] == (kvs[i].0, kvs[i].0 + "=" + kvs[i].1)
  {
    seq(|kvs|, i requires 0 <= i < |kvs| => (kvs[i].0, kvs[i].0 + "=" + kvs[i].1))
  }

  /** Distinct one-line keys without "=" or references, and one-line values. */
  predicate WellFormedAssignments(kvs: seq<(string, string)>) {
    && (forall i | 0 <= i < |kvs| :: NoNewline(kvs[i].0) && '=' !in kvs[i].0 && NoReferences(kvs[i].0) && NoNewline(kvs[i].1))
    && (forall i, j | 0 <= i < j < |kvs| :: kvs[i].0 != kvs[j].0)
  }

  /** The value assigned to `key`, if any. */
  function Lookup(kvs: seq<(string, string)>, key: string): Option<string>
    decreases |kvs|
  {
    if kvs == [] then None
    else if kvs[0].0 == key then Some(kvs[0].1)
    else Lookup(kvs[1..], key)
  }

  lemma {:induction false} LookupAbsent(kvs: seq<(string, string)>, key: string)
    requires forall i | 0 <= i < |kvs| :: kvs[i].0 != key
    ensures Lookup(kvs, key) == None
    decreases |kvs|
  {
    if kvs != [] {
      LookupAbsent(kvs[1..], key);
    }
  }

  /** With distinct keys, each key looks up the value assigned to it. */
  lemma {:induction false} LookupAt(kvs: seq<(string, string)>, i: nat)
    requires WellFormedAssignments(kvs) && i < |kvs|
    ensures Lookup(kvs, kvs[i].0) == Some(kvs[i].1)
    decreases i
  {
    if i > 0 {
      assert kvs[0].0 != kvs[i].0;
      assert WellFormedAssignments(kvs[1..]);
      assert kvs[1..][i - 1] == kvs[i];
      LookupAt(kvs[1..], i - 1);
    }
  }

  /**
   * After the assignments (lazy form), each assigned key that had a line reads its new
   * value with `$0`-style references expanded against the line it replaced, an assigned
   * key without a line stays absent (no line is added), and every other key reads what
   * it read before.
   */
  lemma {:induction false} ReadAfterEachKey(t: string, kvs: seq<(string, string)>, key: string)
    requires WellFormedAssignments(kvs) && NoNewline(key) && '=' !in key
    ensures MatchKeyValue(ReplaceEachKey(t, KeyAssignments(kvs), false), key)
         == match Lookup(kvs, key)
            case Some(v) =>
              (match MatchKeyValue(t, key)
               case Some(was) => Some(Expand(v, key + "=" + was))
               case None => None)
            case None => MatchKeyValue(t, key)
    decreases |kvs|
  {
    if kvs != [] {
      var k0 := kvs[0].0;
      var r0 := k0 + "=" + kvs[0].1;
      var t1 := ReplaceKeyLines(t, k0, r0, false);
      assert KeyAssignments(kvs)[0] == (k0, r0);
      assert KeyAssignments(kvs)[1..] == KeyAssignments(kvs[1..]);
      assert WellFormedAssignments(kvs[1..]);
      ReadAfterEachKey(t1, kvs[1..], key);
      LinesOfReplace(t, k0, r0, false);
      if k0 == key {
        FirstKeyValueOfLazyAssignment(Lines(t), key, kvs[0].1);
        LookupAbsent(kvs[1..], key);
      } else {
        FirstKeyValueOfOtherLazyAssignment(Lines(t), key, k0, kvs[0].1);
      }
    }
  }

  /** An assigned value without references reads back exactly, when its key had a line. */
  lemma ReadPlainAfterEachKey(t: string, kvs: seq<(string, string)>, key: string, v: string)
    requires WellFormedAssignments(kvs) && NoNewline(key) && '=' !in key
    requires Lookup(kvs, key) == Some(v) && NoReferences(v)
    ensures MatchKeyValue(ReplaceEachKey(t, KeyAssignments(kvs), false), key)
         == if HasKeyLine(t, key) then Some(v) else None
  {
    ReadAfterEachKey(t, kvs, key);
    if HasKeyLine(t, key) {
      ExpandLiteral(v, key + "=" + MatchKeyValue(t, key).value);
    }
  }

  // ---------------------------------------------------------------- "key" => value, entries

  /** The leftmost position where `needle` occurs in `s`. */
  function IndexOf(s: string, needle: string): (r: Option<nat>)
    ensures r.Some? ==> r.value + |needle| <= |s| && s[r.value..r.value + |needle|] == needle
    ensures r.None? ==> !Contains(s, needle)
    decreases |s|
  {
    if StartsWith(s, needle) then Some(0)
    else if |s| == 0 then None
    else match IndexOf(s[1..], needle)
      case Some(p) => Some(p + 1)
      case None => None
  }

  function ConfigPrefix(key: string): string {
    "\"" + key + "\" => "
  }

  /** Where `/"key" => "?.*"?,\n??$/m` starts on `line`, if it matches there. */
  function ConfigMatch(line: string, key: string): Option<nat> {
    var prefix := ConfigPrefix(key);
    match IndexOf(line, prefix)
    case Some(p) => if p + |prefix| < |line| && line[|line| - 1] == ',' then Some(p) else None
    case None => None
  }

  /** The entry line with the replacement, its references expanded against the text matched from `"key" => ` on. */
  function RewriteConfigLine(line: string, key: string, rendered: string): string {
    match ConfigMatch(line, key)
    case Some(p) => line[..p] + Expand(ConfigPrefix(key) + rendered + ",", line[p..])
    case None => line
  }

  /** `preg_replace('/"key" => "?.*"?,\n??$/m', '"key" => ' . $rendered . ',', $t)`. */
  function ReplaceConfigEntry(t: string, key: string, rendered: string): string {
    Join("\n", RewriteConfigLines(Lines(t), key, rendered))
  }

  /** Each line rewritten on its own: the `m` flag makes `$` match before every newline. */
  function RewriteConfigLines(ls: seq<string>, key: string, rendered: string): (rs: seq<string>)
    ensures |rs| == |ls| && forall i | 0 <= i < |ls| :: rs[i] == RewriteConfigLine(ls[i], key, rendered)
  {
    seq(|ls|, i requires 0 <= i < |ls| => RewriteConfigLine(ls[i], key, rendered))
  }

  /** A rewritten entry line stays one line, so the rewrite keeps the file's lines one for one. */
  lemma LinesOfConfigRewrite(t: string, key: string, rendered: string)
    requires NoNewline(key) && NoNewline(rendered)
    ensures Lines(ReplaceConfigEntry(t, key, rendered)) == RewriteConfigLines(Lines(t), key, rendered)
  {
    var ls := Lines(t);
    var rs := RewriteConfigLines(ls, key, rendered);
    var entry := ConfigPrefix(key) + rendered + ",";
    ConfigEntryText(key, rendered);
    forall i | 0 <= i < |ls|
      ensures NoNewline(rs[i])
    {
      match ConfigMatch(ls[i], key)
      case None =>
      case Some(p) =>
        assert forall c | c in ls[i][p..] :: c in ls[i];
        ExpandOneLine(entry, ls[i][p..]);
        assert forall c | c in ls[i][..p] :: c in ls[i];
        assert forall c | c in rs[i] :: c in ls[i][..p] || c in Expand(entry, ls[i][p..]);
    }
    SplitJoin(rs, '\n');
  }

  /**
   * The config rewrite keeps the file's lines one for one: a line the pattern does not
   * match is unchanged, and a matched line keeps its text before `"key" => ` and has the
   * rest replaced by `"key" => rendered,`, references expanded against that rest.
   */
  lemma ReplaceConfigEntryLines(t: string, key: string, rendered: string)
    requires NoNewline(key) && NoNewline(rendered)
    ensures |Lines(ReplaceConfigEntry(t, key, rendered))| == |Lines(t)|
    ensures forall i | 0 <= i < |Lines(t)| ::
      var before := Lines(t)[i];
      var after := Lines(ReplaceConfigEntry(t, key, rendered))[i];
      match ConfigMatch(before, key)
      case None => after == before
      case Some(p) => after == before[..p] + Expand(ConfigPrefix(key) + rendered + ",", before[p..])
  {
    LinesOfConfigRewrite(t, key, rendered);
  }

  /** The replacement `"key" => rendered,` is one line, and holds no reference when key and literal hold none. */
  lemma ConfigEntryText(key: string, rendered: string)
    requires NoNewline(key) && NoNewline(rendered)
    ensures NoNewline(ConfigPrefix(key) + rendered + ",")
    ensures NoReferences(key) && NoReferences(rendered) ==> NoReferences(ConfigPrefix(key) + rendered + ",")
  {
    var entry := ConfigPrefix(key) + rendered + ",";
    assert forall c | c in entry :: c in key || c in rendered || c in "\" => ,";
  }

  /** One line under a plain entry: the matched text from `"key" => ` on becomes the entry as written. */
  lemma RewritePlainConfigLine(line: string, key: string, rendered: string)
    requires NoNewline(key) && NoNewline(rendered) && NoReferences(key) && NoReferences(rendered)
    ensures match ConfigMatch(line, key)
      case None => RewriteConfigLine(line, key, rendered) == line
      case Some(p) => RewriteConfigLine(line, key, rendered) == line[..p] + ConfigPrefix(key) + rendered + ","
  {
    match ConfigMatch(line, key)
    case None =>
    case Some(p) =>
      var entry := ConfigPrefix(key) + rendered + ",";
      ConfigEntryText(key, rendered);
      ExpandLiteral(entry, line[p..]);
      assert line[..p] + entry == line[..p] + ConfigPrefix(key) + rendered + ",";
  }

  /** An entry whose key and rendered literal hold no reference is written exactly as rendered. */
  lemma ReplacePlainConfigEntry(t: string, key: string, rendered: string)
    requires NoNewline(key) && NoNewline(rendered) && NoReferences(key) && NoReferences(rendered)
    ensures |Lines(ReplaceConfigEntry(t, key, rendered))| == |Lines(t)|
    ensures forall i | 0 <= i < |Lines(t)| ::
      var before := Lines(t)[i];
      var after := Lines(ReplaceConfigEntry(t, key, rendered))[i];
      match ConfigMatch(before, key)
      case None => after == before
      case Some(p) => after == before[..p] + ConfigPrefix(key) + rendered + ","
  {
    LinesOfConfigRewrite(t, key, rendered);
    forall i | 0 <= i < |Lines(t)| {
      RewritePlainConfigLine(Lines(t)[i], key, rendered);
    }
  }
}
