/**
 * The `jwt:hmac` console command: provisions the HMAC secret JWTs are signed with by
 * writing `JWT_HMAC_SECRET=<base64 of the secret>` into `.env`.
 *
 * The answer to the confirmation prompt and the generated password are inputs; the
 * prompt's default answer, which a non-interactive run gets, is "no".
 */
module JwtHmacCommand {
  import opened Wrappers
  import opened PhpStrings
  import opened PhpValues
  import opened Base64
  import opened LinePatterns
  import opened Files

  const EnvPath: string := ".env"
  const SecretKey: string := "JWT_HMAC_SECRET"

  /** The password generator is set to 24 characters drawn from upper and lower case, digits and symbols. */
  const GeneratedLength: nat := 24

  /** The secret argument, or the generated password when the argument is empty (null, "" or "0"). */
  function ChooseSecret(argument: Option<ByteString>, generated: ByteString): (s: ByteString)
    ensures argument.Some? && argument.value != "" && argument.value != "0" ==> s == argument.value
    ensures argument.None? || argument.value == "" || argument.value == "0" ==> s == generated
  {
    match argument
    case Some(a) => if IsEmpty(Str(a)) then generated else a
    case None => generated
  }

  /**
   * What a run of the command leaves in `.env`: `None` when it aborts (nothing is
   * written), otherwise the new contents.
   */
  function HmacOutcome(env: Option<string>, argument: Option<ByteString>, confirmed: bool, generated: ByteString): Option<string> {
    var line := SecretKey + "=" + StoredForm(ChooseSecret(argument, generated));
    match env
    case None => Some(ReplaceKeyLines(SecretKey + "=", SecretKey, line, true))
    case Some(t) =>
      if HasKeyLine(t, SecretKey) then
        if HasValue(t, SecretKey) && !confirmed then None
        else Some(ReplaceKeyLines(t, SecretKey, line, true))
      else Some(ReplaceKeyLines(AppendKeyLine(t, SecretKey), SecretKey, line, true))
  }

  /**
   * `JwtHmac::execute`: returns -1 and writes nothing when it aborts, otherwise writes
   * the new `.env` and returns 0.
   */
  method Execute(fs: FileSystem, argument: Option<ByteString>, confirmed: bool, generated: ByteString) returns (status: int)
    modifies fs
    ensures var outcome := HmacOutcome(old(fs.Read(EnvPath)), argument, confirmed, generated);
      match outcome
      case None => status == -1 && fs.files == old(fs.files)
      case Some(t) => status == 0 && fs.files == old(fs.files)[EnvPath := t]
    ensures fs.directories == old(fs.directories)
  {
    var environment: string;
    var existing := fs.Read(EnvPath);
    if existing.None? {
      environment := SecretKey + "=";
    } else {
      environment := existing.value;
      var found := MatchKeyValue(environment, SecretKey);
      if found.Some? {
        if !IsEmpty(Str(found.value)) {
          if !confirmed {
            return -1;
          }
        }
      } else {
        environment := environment + ("\n\n" + SecretKey + "=" + "\n");
        assert environment == AppendKeyLine(existing.value, SecretKey);
      }
    }

    var hmac := argument;
    var secret: ByteString;
    if hmac.None? || IsEmpty(Str(hmac.value)) {
      secret := generated;
    } else {
      secret := hmac.value;
    }

    environment := ReplaceKeyLines(environment, SecretKey, SecretKey + "=" + StoredForm(secret), true);
    fs.Write(EnvPath, environment);
    return 0;
  }

  // ---------------------------------------------------------------- properties

  /**
   * The run aborts exactly when `.env` already holds a non-empty secret and the
   * confirmation was declined; an empty `JWT_HMAC_SECRET=` line never prompts.
   */
  lemma HmacAbortsExactly(env: Option<string>, argument: Option<ByteString>, confirmed: bool, generated: ByteString)
    ensures HmacOutcome(env, argument, confirmed, generated).None?
        <==> env.Some? && HasValue(env.value, SecretKey) && !confirmed
  {
  }

  /**
   * After a completed run, the `preg_match` the command itself uses finds the stored
   * encoding of the chosen secret, which decodes back to it (`StoredFormRoundTrip`).
   */
  lemma HmacStoresSecret(env: Option<string>, argument: Option<ByteString>, confirmed: bool, generated: ByteString)
    requires HmacOutcome(env, argument, confirmed, generated).Some?
    ensures MatchKeyValue(HmacOutcome(env, argument, confirmed, generated).value, SecretKey)
         == Some(StoredForm(ChooseSecret(argument, generated)))
  {
    var secret := ChooseSecret(argument, generated);
    StoredFormIsPlain(secret);
    SecretKeyIsOneLine();
    var before := EditedText(env);
    assert HmacOutcome(env, argument, confirmed, generated)
        == Some(ReplaceKeyLines(before, SecretKey, SecretKey + "=" + StoredForm(secret), true));
    EditedTextHasKey(env);
    ReadAfterReplace(before, SecretKey, StoredForm(secret), true);
  }

  /** The key has no line break, so its `KEY=` line is a single line, and no reference `preg_replace` would expand. */
  lemma SecretKeyIsOneLine()
    ensures NoNewline(SecretKey) && NoReferences(SecretKey)
  {
    assert forall i | 0 <= i < |SecretKey| :: SecretKey[i] != '\n' && SecretKey[i] != '\\' && SecretKey[i] != '$';
  }

  /** Whatever `.env` held, the edited text has a `JWT_HMAC_SECRET=` line. */
  lemma EditedTextHasKey(env: Option<string>)
    ensures HasKeyLine(EditedText(env), SecretKey)
  {
    SecretKeyIsOneLine();
    match env
    case None =>
      SplitPrefixed(SecretKey + "=", "", '\n');
      assert SecretKey + "=" + "" == SecretKey + "=";
      assert (SecretKey + "=")[|SecretKey| + 1..] == "";
    case Some(t) =>
      if !HasKeyLine(t, SecretKey) {
        ReplaceAppendedKeyLine(t, SecretKey, "");
      }
  }

  /** The text the secret line is written into: `.env` itself, after a blank `KEY=` line is added when it has none. */
  function EditedText(env: Option<string>): (t: string)
    ensures env.Some? && HasKeyLine(env.value, SecretKey) ==> t == env.value
  {
    match env
    case None => SecretKey + "="
    case Some(t) => if HasKeyLine(t, SecretKey) then t else AppendKeyLine(t, SecretKey)
  }

  /**
   * An `.env` without the secret keeps all of its text: the command adds a blank line
   * and the new `JWT_HMAC_SECRET=` line after it.
   */
  lemma HmacAppendsToEnvWithoutSecret(t: string, argument: Option<ByteString>, confirmed: bool, generated: ByteString)
    requires !HasKeyLine(t, SecretKey)
    ensures HmacOutcome(Some(t), argument, confirmed, generated)
         == Some(t + "\n\n" + (SecretKey + "=" + StoredForm(ChooseSecret(argument, generated))))
  {
    var line := SecretKey + "=" + StoredForm(ChooseSecret(argument, generated));
    SecretKeyIsOneLine();
    StoredFormIsPlain(ChooseSecret(argument, generated));
    KeyLineHasNoNewline(SecretKey, StoredForm(ChooseSecret(argument, generated)));
    ReplaceAppendedKeyLine(t, SecretKey, line);
    ExpandLiteral(line, SecretKey + "=" + "\n");
    assert HmacOutcome(Some(t), argument, confirmed, generated)
        == Some(ReplaceKeyLines(AppendKeyLine(t, SecretKey), SecretKey, line, true));
  }

  /** Without an `.env`, the command creates one holding only the secret line. */
  lemma HmacCreatesEnv(argument: Option<ByteString>, confirmed: bool, generated: ByteString)
    ensures HmacOutcome(None, argument, confirmed, generated)
         == Some(SecretKey + "=" + StoredForm(ChooseSecret(argument, generated)))
  {
    var line := SecretKey + "=" + StoredForm(ChooseSecret(argument, generated));
    SecretKeyIsOneLine();
    StoredFormIsPlain(ChooseSecret(argument, generated));
    KeyLineHasNoNewline(SecretKey, StoredForm(ChooseSecret(argument, generated)));
    ReplaceSoleKeyLine(SecretKey, line, true);
    ExpandLiteral(line, SecretKey + "=");
  }

  /**
   * A completed run on an existing `.env` leaves what every other key reads as it was,
   * whether it replaced the secret line or appended one.
   */
  lemma HmacKeepsOtherKeys(t: string, key: string, argument: Option<ByteString>, confirmed: bool, generated: ByteString)
    requires NoNewline(key) && DistinctKeys(key, SecretKey)
    requires HmacOutcome(Some(t), argument, confirmed, generated).Some?
    ensures MatchKeyValue(HmacOutcome(Some(t), argument, confirmed, generated).value, key) == MatchKeyValue(t, key)
  {
    var stored := StoredForm(ChooseSecret(argument, generated));
    StoredFormIsPlain(ChooseSecret(argument, generated));
    SecretKeyIsOneLine();
    var before := EditedText(Some(t));
    assert HmacOutcome(Some(t), argument, confirmed, generated)
        == Some(ReplaceKeyLines(before, SecretKey, SecretKey + "=" + stored, true));
    ReadOtherAfterAssignment(before, key, SecretKey, stored, false, true);
    assert MatchKeyValue(before, key) == MatchKeyValue(t, key) by {
      if !HasKeyLine(t, SecretKey) {
        AppendedKeepsOtherKey(t, SecretKey, key);
      }
    }
  }
}
