/**
 * The `jwt:keypair` console command: provisions the RSA key pair JWTs are signed with,
 * writing both keys as PEM files under `keys/` and their base64 into `.env`.
 *
 * The key pair (a fresh 4096-bit RSA pair on every completed run) and the answer to
 * the confirmation prompt are inputs; the prompt's default answer is "no".
 */
module JwtKeypairCommand {
  import opened Wrappers
  import opened PhpStrings
  import opened PhpValues
  import opened Base64
  import opened LinePatterns
  import opened Files

  const EnvPath: string := ".env"
  const PrivateKey: string := "JWT_PRIVATE_KEY"
  const PublicKey: string := "JWT_PUBLIC_KEY"
  const KeysDirectory: string := "keys"
  const PrivatePem: string := "keys/private.pem"
  const PublicPem: string := "keys/public.pem"

  /** The `.env` a run starts from when there is none: `"JWT_PRIVATE_KEY=\nJWT_PUBLIC_KEY=\n"`. */
  const FreshEnv: string := FreshKeyLines(PrivateKey, PublicKey)

  function PrivateLine(privatePem: ByteString): string {
    PrivateKey + "=" + StoredForm(privatePem)
  }

  /** The public key's replacement carries its own trailing newline. */
  function PublicLine(publicPem: ByteString): string {
    PublicKey + "=" + StoredForm(publicPem) + "\n"
  }

  /**
   * What a run leaves in `.env`: `None` when it aborts, otherwise the text after
   * replacing the private-key lines and then the public-key lines.
   */
  function KeypairOutcome(env: Option<string>, confirmed: bool, privatePem: ByteString, publicPem: ByteString): Option<string> {
    var prepared :=
      match env
      case None => Some(FreshEnv)
      case Some(t) =>
        if HasKeyLine(t, PrivateKey) then
          if HasValue(t, PrivateKey) && !confirmed then None else Some(t)
        else Some(AppendKeyLine(t, PrivateKey));
    match prepared
    case None => None
    case Some(t) =>
      Some(ReplaceKeyLines(ReplaceKeyLines(t, PrivateKey, PrivateLine(privatePem), true), PublicKey, PublicLine(publicPem), true))
  }

  /**
   * `JwtKeypair::execute`: an aborted run returns -1 and writes nothing; a completed
   * run creates `keys/` when it is missing, writes both PEM files and `.env`, and
   * returns 0.
   */
  method Execute(fs: FileSystem, confirmed: bool, privatePem: ByteString, publicPem: ByteString) returns (status: int)
    modifies fs
    ensures match KeypairOutcome(old(fs.Read(EnvPath)), confirmed, privatePem, publicPem)
      case None =>
        status == -1 && fs.files == old(fs.files) && fs.directories == old(fs.directories)
      case Some(t) =>
        && status == 0
        && fs.files == old(fs.files)[PrivatePem := privatePem][PublicPem := publicPem][EnvPath := t]
        && fs.directories == if old(fs.Exists(KeysDirectory)) then old(fs.directories) else old(fs.directories) + {KeysDirectory}
  {
    var environment: string;
    var existing := fs.Read(EnvPath);
    if existing.None? {
      environment := FreshEnv;
    } else {
      environment := existing.value;
      var found := MatchKeyValue(environment, PrivateKey);
      if found.Some? {
        if !IsEmpty(Str(found.value)) {
          if !confirmed {
            return -1;
          }
        }
      } else {
        environment := environment + ("\n\n" + PrivateKey + "=" + "\n");
        assert environment == AppendKeyLine(existing.value, PrivateKey);
      }
    }

    if !fs.Exists(KeysDirectory) {
      fs.MakeDirectory(KeysDirectory);
    }
    fs.Write(PrivatePem, privatePem);
    fs.Write(PublicPem, publicPem);

    environment := ReplaceKeyLines(environment, PrivateKey, PrivateKey + "=" + StoredForm(privatePem), true);
    environment := ReplaceKeyLines(environment, PublicKey, PublicKey + "=" + StoredForm(publicPem) + "\n", true);
    fs.Write(EnvPath, environment);
    return 0;
  }

  // ---------------------------------------------------------------- properties

  /**
   * The run aborts exactly when `.env` already holds a non-empty private key and the
   * confirmation was declined; the public key is never consulted.
   */
  lemma KeypairAbortsExactly(env: Option<string>, confirmed: bool, privatePem: ByteString, publicPem: ByteString)
    ensures KeypairOutcome(env, confirmed, privatePem, publicPem).None?
        <==> env.Some? && HasValue(env.value, PrivateKey) && !confirmed
  {
  }

  /** The text the replacements start from, when the run goes ahead. */
  function Prepared(env: Option<string>): string {
    match env
    case None => FreshEnv
    case Some(t) => if HasKeyLine(t, PrivateKey) then t else AppendKeyLine(t, PrivateKey)
  }

  lemma KeysAreDistinct()
    ensures NoNewline(PrivateKey) && NoNewline(PublicKey) && DistinctKeys(PrivateKey, PublicKey)
    ensures NoReferences(PrivateKey) && NoReferences(PublicKey)
  {
  }

  lemma PreparedReadings(env: Option<string>)
    ensures HasKeyLine(Prepared(env), PrivateKey)
    ensures HasKeyLine(Prepared(env), PublicKey) <==> env.None? || HasKeyLine(env.value, PublicKey)
  {
    KeysAreDistinct();
    match env
    case None =>
      FreshKeyLinesReadings(PrivateKey, PublicKey);
    case Some(t) =>
      if !HasKeyLine(t, PrivateKey) {
        ReplaceAppendedKeyLine(t, PrivateKey, "");
        AppendedKeepsOtherKey(t, PrivateKey, PublicKey);
      }
  }

  /**
   * A completed run records the new private key in `.env`, and the public key exactly
   * when the text it starts from has a `JWT_PUBLIC_KEY=` line: an existing `.env`
   * without one never gets it added. Each recorded value is the stored encoding of
   * the PEM, which decodes back to it (`StoredFormRoundTrip`).
   */
  lemma KeypairStoresKeys(env: Option<string>, confirmed: bool, privatePem: ByteString, publicPem: ByteString)
    requires KeypairOutcome(env, confirmed, privatePem, publicPem).Some?
    ensures var t := KeypairOutcome(env, confirmed, privatePem, publicPem).value;
      && MatchKeyValue(t, PrivateKey) == Some(StoredForm(privatePem))
      && MatchKeyValue(t, PublicKey)
         == if env.None? || HasKeyLine(env.value, PublicKey) then Some(StoredForm(publicPem)) else None
  {
    KeysAreDistinct();
    PreparedReadings(env);
    StoredFormIsPlain(privatePem);
    StoredFormIsPlain(publicPem);
    ReplaceTwoKeys(Prepared(env), PrivateKey, PublicKey, StoredForm(privatePem), StoredForm(publicPem));
  }

  /** Without an `.env`, the command creates one holding both key lines. */
  lemma KeypairCreatesEnv(confirmed: bool, privatePem: ByteString, publicPem: ByteString)
    ensures KeypairOutcome(None, confirmed, privatePem, publicPem)
         == Some(PrivateLine(privatePem) + "\n" + PublicLine(publicPem))
  {
    KeysAreDistinct();
    StoredFormIsPlain(privatePem);
    StoredFormIsPlain(publicPem);
    ReplaceFreshKeyLines(PrivateKey, PublicKey, StoredForm(privatePem), StoredForm(publicPem));
  }

  /**
   * A completed run on an existing `.env` leaves what every key other than the two
   * key entries reads as it was.
   */
  lemma KeypairKeepsOtherKeys(t: string, key: string, confirmed: bool, privatePem: ByteString, publicPem: ByteString)
    requires NoNewline(key) && DistinctKeys(key, PrivateKey) && DistinctKeys(key, PublicKey)
    requires KeypairOutcome(Some(t), confirmed, privatePem, publicPem).Some?
    ensures MatchKeyValue(KeypairOutcome(Some(t), confirmed, privatePem, publicPem).value, key) == MatchKeyValue(t, key)
  {
    KeysAreDistinct();
    StoredFormIsPlain(privatePem);
    StoredFormIsPlain(publicPem);
    var p := Prepared(Some(t));
    var u := ReplaceKeyLines(p, PrivateKey, PrivateLine(privatePem), true);
    ReadOtherAfterAssignment(p, key, PrivateKey, StoredForm(privatePem), false, true);
    ReadOtherAfterAssignment(u, key, PublicKey, StoredForm(publicPem), true, true);
    if !HasKeyLine(t, PrivateKey) {
      AppendedKeepsOtherKey(t, PrivateKey, key);
    }
  }
}
