/**
 * The `setup` console command: asks a series of questions and writes the answers into
 * `.env` and into the PHP files under `config/`, running `jwt:hmac` or `jwt:keypair`
 * non-interactively on the way when the JWT signer is to be provisioned.
 *
 * The answers, the `config("app.name")` value the issuer is compared against, and the
 * material the sub-commands would generate are inputs. The file system is the state.
 */
module SetupCommand {
  import opened Wrappers
  import opened PhpStrings
  import opened PhpValues
  import opened Base64
  import opened LinePatterns
  import opened Files
  import JwtHmacCommand
  import JwtKeypairCommand

  const EnvPath: string := ".env"

  const TimezoneKey: string := "TIMEZONE"
  const ListenKey: string := "HTTP_LISTEN"
  const MaxConnectionsKey: string := "HTTP_MAX_CONNECTIONS"
  const MaxRequestSizeKey: string := "HTTP_MAX_REQUEST_SIZE"
  const SignerKey: string := "JWT_SIGNER"

  /** The message of the `UnexpectedValueException` thrown for a value with no PHP literal form. */
  const CantHandleType: string := "Can't handle type."

  /** `APP_ROOT/config/<file>.php`, relative to the application root. */
  function ConfigPath(file: string): string {
    "config/" + file + ".php"
  }

  /** Every file a run may write. */
  const WrittenPaths: set<string> :=
    {EnvPath, ConfigPath("app"), ConfigPath("http"), ConfigPath("jwt"),
     JwtKeypairCommand.PrivatePem, JwtKeypairCommand.PublicPem}

  /** The answers to the prompts, in the order they are asked. */
  datatype Answers = Answers(
    appName: Value,
    timezone: Value,
    http: bool,
    listen: Value,
    maxConnections: Value,
    maxRequestSize: Value,
    errorMessage: Value,
    jwt: bool,
    signer: string,
    configureSigner: bool,
    generateHmac: bool,
    hmacSecret: Option<ByteString>,
    generateKeypair: bool,
    issuer: Value)

  /** What the sub-commands would generate: the HMAC password and the PEM pair. */
  datatype Generated = Generated(password: ByteString, privatePem: ByteString, publicPem: ByteString)

  /**
   * The disk the command works on, as a value: each file's contents by its path, and the
   * directories; paths are relative to the application root.
   */
  datatype Disk = Disk(files: map<string, string>, directories: set<string>)

  function ReadFile(d: Disk, path: string): Option<string> {
    if path in d.files then Some(d.files[path]) else None
  }

  // ---------------------------------------------------------------- .env

  /** `"{$key}={$value}"` renders each value as PHP's string conversion does. */
  function Rendered(values: seq<(string, Value)>): (kvs: seq<(string, string)>)
    ensures |kvs| == |values|
    ensures forall i | 0 <= i < |values| :: kvs[i] == (values[i].0, ToStr(values[i].1))
  {
    seq(|values|, i requires 0 <= i < |values| => (values[i].0, ToStr(values[i].1)))
  }

  /** `updateEnv`: every `^KEY=.*\n??$` line becomes `KEY=value`, one key after the other. */
  function UpdateEnvText(t: string, values: seq<(string, Value)>): string {
    ReplaceEachKey(t, KeyAssignments(Rendered(values)), false)
  }

  /** `updateEnv` on the disk; a missing `.env` reads as empty and is created. */
  function UpdateEnvOn(d: Disk, values: seq<(string, Value)>): Disk {
    d.(files := d.files[EnvPath := UpdateEnvText(ReadFile(d, EnvPath).GetOr(""), values)])
  }

  /**
   * `Setup::updateEnv`: builds one pattern and one replacement per value, then applies
   * them to the contents of `.env` and writes the result back.
   */
  method UpdateEnv(fs: FileSystem, values: seq<(string, Value)>)
    modifies fs
    ensures Disk(fs.files, fs.directories) == UpdateEnvOn(Disk(old(fs.files), old(fs.directories)), values)
  {
    var env := fs.Read(EnvPath).GetOr("");
    var pairs: seq<(string, string)> := [];
    for i := 0 to |values|
      invariant pairs == KeyAssignments(Rendered(values))[..i]
    {
      var key := values[i].0;
      pairs := pairs + [(key, key + "=" + ToStr(values[i].1))];
    }
    assert pairs == KeyAssignments(Rendered(values));
    env := ReplaceEachKey(env, pairs, false);
    fs.Write(EnvPath, env);
  }

  // ---------------------------------------------------------------- config/*.php

  /**
   * The PHP literal written for a value: booleans as `true`/`false`, integers in
   * decimal, strings between double quotes, null as `null`; an array has no form and
   * throws.
   */
  function RenderConfigValue(v: Value): (r: Result<string, string>)
    ensures r.Failure? <==> v.Arr?
    ensures r.Failure? ==> r.error == CantHandleType
  {
    match v
    case Bool(b) => Success(if b then "true" else "false")
    case Int(i) => Success(IntToString(i))
    case Str(s) => Success("\"" + s + "\"")
    case Null => Success("null")
    case Arr(_) => Failure(CantHandleType)
  }

  /** The replacements for every value, or the exception the first array raises. */
  function RenderAll(values: seq<(string, Value)>): (r: Result<seq<(string, string)>, string>)
    ensures r.Failure? ==> r.error == CantHandleType
    decreases |values|
  {
    if values == [] then Success([])
    else match RenderConfigValue(values[0].1)
      case Failure(e) => Failure(e)
      case Success(r) => Prepend([(values[0].0, r)], RenderAll(values[1..]))
  }

  function Prepend(pairs: seq<(string, string)>, r: Result<seq<(string, string)>, string>): Result<seq<(string, string)>, string> {
    match r
    case Success(rest) => Success(pairs + rest)
    case Failure(e) => Failure(e)
  }

  lemma PrependNothing(r: Result<seq<(string, string)>, string>)
    ensures Prepend([], r) == r
  {
    match r
    case Success(rest) => assert [] + rest == rest;
    case Failure(_) =>
  }

  lemma PrependTwice(p: seq<(string, string)>, q: seq<(string, string)>, r: Result<seq<(string, string)>, string>)
    ensures Prepend(p, Prepend(q, r)) == Prepend(p + q, r)
  {
    match r
    case Success(rest) => assert p + (q + rest) == (p + q) + rest;
    case Failure(_) =>
  }

  /** The `"key" => ...,` patterns applied one after the other. */
  function ReplaceEachConfigEntry(t: string, pairs: seq<(string, string)>): string
    decreases |pairs|
  {
    if pairs == [] then t
    else ReplaceEachConfigEntry(ReplaceConfigEntry(t, pairs[0].0, pairs[0].1), pairs[1..])
  }

  /** `updateConfig` on the disk: nothing is written when a value cannot be rendered. */
  function UpdateConfigOn(d: Disk, file: string, values: seq<(string, Value)>): Result<Disk, string> {
    match RenderAll(values)
    case Failure(e) => Failure(e)
    case Success(pairs) =>
      var path := ConfigPath(file);
      Success(d.(files := d.files[path := ReplaceEachConfigEntry(ReadFile(d, path).GetOr(""), pairs)]))
  }

  /**
   * `Setup::updateConfig`: renders every value (throwing on the first that has no PHP
   * literal form), then rewrites the file. Returns false where the source throws.
   */
  method UpdateConfig(fs: FileSystem, file: string, values: seq<(string, Value)>) returns (ok: bool)
    modifies fs
    ensures match UpdateConfigOn(Disk(old(fs.files), old(fs.directories)), file, values)
      case Failure(_) => !ok && fs.files == old(fs.files) && fs.directories == old(fs.directories)
      case Success(d) => ok && Disk(fs.files, fs.directories) == d
  {
    var path := ConfigPath(file);
    var config := fs.Read(path).GetOr("");
    var pairs: seq<(string, string)> := [];
    assert values[0..] == values;
    PrependNothing(RenderAll(values));
    for i := 0 to |values|
      invariant RenderAll(values) == Prepend(pairs, RenderAll(values[i..]))
      invariant fs.files == old(fs.files) && fs.directories == old(fs.directories)
    {
      assert values[i..][0] == values[i] && values[i..][1..] == values[i + 1..];
      var rendered := RenderConfigValue(values[i].1);
      if rendered.Failure? {
        assert RenderAll(values[i..]).Failure?;
        return false;
      }
      assert RenderAll(values[i..]) == Prepend([(values[i].0, rendered.value)], RenderAll(values[i + 1..]));
      PrependTwice(pairs, [(values[i].0, rendered.value)], RenderAll(values[i + 1..]));
      pairs := pairs + [(values[i].0, rendered.value)];
    }
    assert values[|values|..] == [];
    assert RenderAll(values) == Success(pairs) by {
      assert pairs + [] == pairs;
    }
    config := ReplaceEachConfigEntry(config, pairs);
    fs.Write(path, config);
    return true;
  }

  /**
   * The config files in turn: the disk after the ones written, and the exception's
   * message when one of them throws (the files after it are not touched).
   */
  function UpdateConfigsOn(d: Disk, configs: seq<(string, seq<(string, Value)>)>): (Disk, Option<string>)
    decreases |configs|
  {
    if configs == [] then (d, None)
    else match UpdateConfigOn(d, configs[0].0, configs[0].1)
      case Failure(e) => (d, Some(e))
      case Success(d') => UpdateConfigsOn(d', configs[1..])
  }

  /** The `foreach( $CONFIG as $file => $values )` loop: stops at the first exception. */
  method UpdateConfigs(fs: FileSystem, configs: seq<(string, seq<(string, Value)>)>) returns (failure: Option<string>)
    modifies fs
    ensures (Disk(fs.files, fs.directories), failure) == UpdateConfigsOn(Disk(old(fs.files), old(fs.directories)), configs)
  {
    var i := 0;
    while i < |configs|
      invariant 0 <= i <= |configs|
      invariant UpdateConfigsOn(Disk(fs.files, fs.directories), configs[i..])
             == UpdateConfigsOn(Disk(old(fs.files), old(fs.directories)), configs)
    {
      assert configs[i..][0] == configs[i] && configs[i..][1..] == configs[i + 1..];
      var ok := UpdateConfig(fs, configs[i].0, configs[i].1);
      if !ok {
        return Some(CantHandleType);
      }
      i := i + 1;
    }
    assert configs[i..] == [];
    return None;
  }

  // ---------------------------------------------------------------- the run

  /**
   * The issuer written to `config/jwt.php`: the answer, except that an answer identical
   * to the configured application name is stored as null.
   */
  function Issuer(answer: Value, appName: Value): (r: Value)
    ensures r == Null <==> answer == appName || answer == Null
    ensures r != Null ==> r == answer
  {
    if answer == appName then Null else answer
  }

  /** The `.env` values collected before the HTTP question's `updateEnv`. */
  function ListenerEnv(a: Answers): seq<(string, Value)> {
    [(TimezoneKey, a.timezone)]
    + (if a.http then [(ListenKey, a.listen), (MaxConnectionsKey, a.maxConnections), (MaxRequestSizeKey, a.maxRequestSize)] else [])
  }

  /** Every `.env` value collected, written at the end of a run. */
  function CollectedEnv(a: Answers): seq<(string, Value)> {
    ListenerEnv(a) + (if a.jwt then [(SignerKey, Str(a.signer))] else [])
  }

  /** The config files and their values, in the order they are written. */
  function CollectedConfig(a: Answers, appName: Value): seq<(string, seq<(string, Value)>)> {
    [("app", [("name", a.appName)])]
    + (if a.http then [("http", [("default_error_message", a.errorMessage)])] else [])
    + (if a.jwt && a.configureSigner then [("jwt", [("issuer", Issuer(a.issuer, appName))])] else [])
  }

  /** The `secret` argument handed to `jwt:hmac`: empty when it is to generate one. */
  function HmacArgument(a: Answers): ByteString {
    if a.generateHmac then "" else a.hmacSecret.GetOr("")
  }

  /** A non-interactive `jwt:hmac` run: its confirmation prompt answers no. */
  function HmacRun(d: Disk, argument: ByteString, password: ByteString): Disk {
    match JwtHmacCommand.HmacOutcome(ReadFile(d, EnvPath), Some(argument), false, password)
    case None => d
    case Some(t) => d.(files := d.files[EnvPath := t])
  }

  /** A non-interactive `jwt:keypair` run. */
  function KeypairRun(d: Disk, privatePem: ByteString, publicPem: ByteString): Disk {
    match JwtKeypairCommand.KeypairOutcome(ReadFile(d, EnvPath), false, privatePem, publicPem)
    case None => d
    case Some(t) =>
      Disk(d.files[JwtKeypairCommand.PrivatePem := privatePem][JwtKeypairCommand.PublicPem := publicPem][EnvPath := t],
           if JwtKeypairCommand.KeysDirectory in d.files || JwtKeypairCommand.KeysDirectory in d.directories
           then d.directories else d.directories + {JwtKeypairCommand.KeysDirectory})
  }

  /** The disk after the HTTP question's `updateEnv`. */
  function AfterListener(d: Disk, a: Answers): Disk {
    if a.http then UpdateEnvOn(d, ListenerEnv(a)) else d
  }

  /** The disk after the signer's sub-command, if one runs. */
  function AfterSigner(d: Disk, a: Answers, g: Generated): Disk {
    if a.jwt && a.configureSigner then
      if a.signer == "hmac" then HmacRun(d, HmacArgument(a), g.password)
      else if a.generateKeypair then KeypairRun(d, g.privatePem, g.publicPem)
      else d
    else d
  }

  /**
   * A whole run: the disk it leaves and its result, 0 or the message of the exception
   * a config value raised (the final `.env` update is then not made).
   */
  function SetupRun(d: Disk, a: Answers, appName: Value, g: Generated): (Disk, Result<int, string>) {
    Finish(AfterSigner(AfterListener(d, a), a, g), a, appName)
  }

  /** The config files, then the final `updateEnv` unless a config value threw. */
  function Finish(d: Disk, a: Answers, appName: Value): (Disk, Result<int, string>) {
    var configured := UpdateConfigsOn(d, CollectedConfig(a, appName));
    if configured.1.Some? then (configured.0, Failure(configured.1.value))
    else (UpdateEnvOn(configured.0, CollectedEnv(a)), Success(0))
  }

  /** The non-interactive `jwt:hmac` or `jwt:keypair` run for the chosen signer. */
  method ProvisionSigner(fs: FileSystem, a: Answers, g: Generated)
    requires a.jwt && a.configureSigner
    modifies fs
    ensures Disk(fs.files, fs.directories) == AfterSigner(Disk(old(fs.files), old(fs.directories)), a, g)
  {
    if a.signer == "hmac" {
      var hmac := if a.generateHmac then None else a.hmacSecret;
      var status := JwtHmacCommand.Execute(fs, Some(hmac.GetOr("")), false, g.password);
    } else if a.generateKeypair {
      var status := JwtKeypairCommand.Execute(fs, false, g.privatePem, g.publicPem);
    }
  }

  /** `Setup::execute`, with the prompts' answers given. */
  method Execute(fs: FileSystem, a: Answers, appName: Value, g: Generated) returns (r: Result<int, string>)
    modifies fs
    ensures (Disk(fs.files, fs.directories), r) == SetupRun(Disk(old(fs.files), old(fs.directories)), a, appName, g)
  {
    ghost var start := Disk(fs.files, fs.directories);
    var env: seq<(string, Value)> := [];
    var config: seq<(string, seq<(string, Value)>)> := [];

    config := config + [("app", [("name", a.appName)])];
    env := env + [(TimezoneKey, a.timezone)];

    if a.http {
      env := env + [(ListenKey, a.listen), (MaxConnectionsKey, a.maxConnections), (MaxRequestSizeKey, a.maxRequestSize)];
      assert env == ListenerEnv(a);
      UpdateEnv(fs, env);
      config := config + [("http", [("default_error_message", a.errorMessage)])];
    }
    assert Disk(fs.files, fs.directories) == AfterListener(start, a);

    if a.jwt {
      env := env + [(SignerKey, Str(a.signer))];
      if a.configureSigner {
        ProvisionSigner(fs, a, g);
        var issuer := a.issuer;
        if issuer == appName {
          issuer := Null;
        }
        config := config + [("jwt", [("issuer", issuer)])];
      }
    }
    assert Disk(fs.files, fs.directories) == AfterSigner(AfterListener(start, a), a, g);
    assert env == CollectedEnv(a);
    assert config == CollectedConfig(a, appName);

    ghost var signed := Disk(fs.files, fs.directories);
    var failure := UpdateConfigs(fs, config);
    assert (Disk(fs.files, fs.directories), failure) == UpdateConfigsOn(signed, CollectedConfig(a, appName));
    if failure.Some? {
      return Failure(failure.value);
    }
    UpdateEnv(fs, env);
    return Success(0);
  }

  // ---------------------------------------------------------------- what the config files read back

  /** The characters a double-quoted PHP string takes literally: no quote, backslash or `$`. */
  predicate PlainString(s: string) {
    '"' !in s && '\\' !in s && '$' !in s
  }

  /**
   * An integer literal: an optional minus sign and decimal digits without a leading
   * zero (which PHP would read as octal), whose magnitude fits in an `int` (PHP reads a
   * larger one as a float, and applies the minus sign afterwards).
   */
  function EvalIntegerLiteral(s: string): Option<Value> {
    var negative := |s| > 0 && s[0] == '-';
    var ds := if negative then s[1..] else s;
    if |ds| == 0 || !AllDigits(ds) || (|ds| > 1 && ds[0] == '0') then None
    else
      var m: int := DigitsValue(ds);
      if m > IntMax then None
      else Some(Int(if negative then -m else m))
  }

  /**
   * The value PHP gives the literals the command writes: `true`, `false`, `null`,
   * integer literals, and double-quoted strings without escapes or interpolation.
   * `None` for any other text.
   */
  function EvalConfigLiteral(s: string): Option<Value> {
    if s == "true" then Some(Bool(true))
    else if s == "false" then Some(Bool(false))
    else if s == "null" then Some(Null)
    else if |s| >= 2 && s[0] == '"' && s[|s| - 1] == '"' then
      if PlainString(s[1..|s| - 1]) then Some(Str(s[1..|s| - 1])) else None
    else EvalIntegerLiteral(s)
  }

  lemma {:induction false} NatToStringFirstDigit(n: nat)
    requires n > 0
    ensures NatToString(n)[0] != '0'
    decreases n
  {
    if n >= 10 {
      NatToStringFirstDigit(n / 10);
      assert NatToString(n)[0] == NatToString(n / 10)[0];
    }
  }

  lemma IntegerLiteralEvaluates(i: Int64)
    requires i != IntMin
    ensures EvalIntegerLiteral(IntToString(i)) == Some(Int(i))
  {
    var r := IntToString(i);
    var m: nat := if i < 0 then -(i as int) else i as int;
    var ds := NatToString(m);
    DigitsValueOfNatToString(m);
    if m > 0 {
      NatToStringFirstDigit(m);
    }
    if i < 0 {
      assert r[0] == '-' && r[1..] == ds;
    } else {
      assert r == ds && r[0] != '-';
    }
  }

  /** An integer's decimal text starts with a digit or a minus sign. */
  lemma IntegerTextStart(i: int)
    ensures |IntToString(i)| > 0
    ensures IntToString(i)[0] == '-' || IsDigit(IntToString(i)[0])
  {
    if i >= 0 {
      assert IntToString(i) == NatToString(i);
    }
  }

  /**
   * Every value the command can write evaluates back to itself when PHP loads the
   * config file, provided a string needs no escaping and the integer is not the most
   * negative one (whose literal PHP reads as a float).
   */
  lemma RenderedLiteralEvaluates(v: Value)
    requires !v.Arr?
    requires v.Str? ==> PlainString(v.s)
    requires v.Int? ==> v.i != IntMin
    ensures RenderConfigValue(v).Success? && EvalConfigLiteral(RenderConfigValue(v).value) == Some(v)
  {
    match v
    case Null =>
    case Bool(b) =>
    case Str(s) =>
      var r := "\"" + s + "\"";
      assert r[1..|r| - 1] == s;
      assert r[0] == '"';
      assert "true"[0] != '"' && "false"[0] != '"' && "null"[0] != '"';
    case Int(i) =>
      var r := IntToString(i);
      IntegerLiteralEvaluates(i);
      IntegerTextStart(i);
      assert r[0] != '"';
      assert r != "true" && r != "false" && r != "null" by {
        assert "true"[0] == 't' && "false"[0] == 'f' && "null"[0] == 'n';
      }
  }

  /**
   * After `updateConfig` with one value, every line that held a `"key" => ...,` entry
   * keeps what came before the entry and now ends with the rendered literal, which
   * PHP evaluates back to the value; every other line is untouched.
   */
  lemma UpdatedConfigEntry(t: string, key: string, v: Value)
    requires NoNewline(key) && NoReferences(key) && !v.Arr?
    requires v.Str? ==> PlainString(v.s) && NoNewline(v.s)
    requires v.Int? ==> v.i != IntMin
    ensures RenderAll([(key, v)]).Success?
    ensures var literal := RenderConfigValue(v).value;
      var after := ReplaceEachConfigEntry(t, RenderAll([(key, v)]).value);
      && EvalConfigLiteral(literal) == Some(v)
      && |Lines(after)| == |Lines(t)|
      && forall i | 0 <= i < |Lines(t)| ::
           match ConfigMatch(Lines(t)[i], key)
           case None => Lines(after)[i] == Lines(t)[i]
           case Some(p) => Lines(after)[i] == Lines(t)[i][..p] + ConfigPrefix(key) + literal + ","
  {
    RenderedLiteralEvaluates(v);
    var literal := RenderConfigValue(v).value;
    assert [(key, v)][1..] == [];
    assert RenderAll([(key, v)]) == Prepend([(key, literal)], RenderAll([]));
    assert [(key, literal)] + [] == [(key, literal)];
    assert [(key, literal)][1..] == [];
    assert ReplaceEachConfigEntry(t, [(key, literal)]) == ReplaceConfigEntry(t, key, literal);
    RenderedLiteralIsPlain(v);
    ReplacePlainConfigEntry(t, key, literal);
  }

  /** A rendered literal is one line, and holds nothing `preg_replace` would interpret. */
  lemma RenderedLiteralIsPlain(v: Value)
    requires !v.Arr?
    requires v.Str? ==> PlainString(v.s) && NoNewline(v.s)
    ensures NoNewline(RenderConfigValue(v).value) && NoReferences(RenderConfigValue(v).value)
  {
    var literal := RenderConfigValue(v).value;
    match v
    case Str(s) =>
      assert forall c | c in literal :: c == '"' || c in s;
    case Int(i) =>
      assert forall c | c in literal :: c == '-' || IsDigit(c);
    case Bool(b) =>
      assert forall c | c in literal :: 'a' <= c <= 'z';
    case Null =>
      assert forall c | c in literal :: 'a' <= c <= 'z';
  }

  // ---------------------------------------------------------------- failures and footprint

  lemma {:induction false} ConfigsFailExactly(d: Disk, configs: seq<(string, seq<(string, Value)>)>)
    ensures UpdateConfigsOn(d, configs).1.Some?
        <==> exists i | 0 <= i < |configs| :: RenderAll(configs[i].1).Failure?
    decreases |configs|
  {
    if configs != [] {
      match UpdateConfigOn(d, configs[0].0, configs[0].1)
      case Failure(_) =>
        assert RenderAll(configs[0].1).Failure?;
      case Success(d') =>
        ConfigsFailExactly(d', configs[1..]);
        if i :| 0 <= i < |configs| && RenderAll(configs[i].1).Failure? {
          assert i > 0 && configs[1..][i - 1] == configs[i];
        }
        if j :| 0 <= j < |configs| - 1 && RenderAll(configs[1..][j].1).Failure? {
          assert configs[1..][j] == configs[j + 1];
        }
    }
  }

  lemma RenderOne(key: string, v: Value)
    ensures RenderAll([(key, v)]).Failure? <==> v.Arr?
  {
    assert [(key, v)][1..] == [];
  }

  /**
   * A run fails exactly when one of the config values it writes is an array: the
   * application name, the default error message, or the issuer.
   */
  lemma SetupFailsExactly(d: Disk, a: Answers, appName: Value, g: Generated)
    ensures SetupRun(d, a, appName, g).1.Failure?
        <==> a.appName.Arr? || (a.http && a.errorMessage.Arr?) || (a.jwt && a.configureSigner && Issuer(a.issuer, appName).Arr?)
    ensures SetupRun(d, a, appName, g).1.Failure? ==> SetupRun(d, a, appName, g).1.error == CantHandleType
    ensures SetupRun(d, a, appName, g).1.Success? ==> SetupRun(d, a, appName, g).1.value == 0
  {
    var configs := CollectedConfig(a, appName);
    var signed := AfterSigner(AfterListener(d, a), a, g);
    ConfigsFailExactly(signed, configs);
    ConfigsFailWith(signed, configs);
    RenderOne("name", a.appName);
    RenderOne("default_error_message", a.errorMessage);
    RenderOne("issuer", Issuer(a.issuer, appName));
    var app := [("app", [("name", a.appName)])];
    var http := if a.http then [("http", [("default_error_message", a.errorMessage)])] else [];
    var jwt := if a.jwt && a.configureSigner then [("jwt", [("issuer", Issuer(a.issuer, appName))])] else [];
    assert configs == app + http + jwt;
    assert configs[0] == app[0];
    if a.http {
      assert configs[1] == http[0];
    }
    if a.jwt && a.configureSigner {
      assert configs[|configs| - 1] == jwt[0];
    }
    forall i | 0 <= i < |configs|
      ensures configs[i] == app[0] || (a.http && configs[i] == http[0]) || (a.jwt && a.configureSigner && configs[i] == jwt[0])
    {
      if i > 0 {
        if i < 1 + |http| {
          assert configs[i] == http[i - 1];
        } else {
          assert configs[i] == jwt[i - 1 - |http|];
        }
      }
    }
  }

  lemma {:induction false} ConfigsFailWith(d: Disk, configs: seq<(string, seq<(string, Value)>)>)
    ensures UpdateConfigsOn(d, configs).1 == None || UpdateConfigsOn(d, configs).1 == Some(CantHandleType)
    decreases |configs|
  {
    if configs != [] {
      match UpdateConfigOn(d, configs[0].0, configs[0].1)
      case Failure(_) =>
      case Success(d') => ConfigsFailWith(d', configs[1..]);
    }
  }

  /** Writing config files touches no other path and no directory. */
  lemma {:induction false} ConfigsKeepOtherFiles(d: Disk, configs: seq<(string, seq<(string, Value)>)>, path: string)
    requires forall i | 0 <= i < |configs| :: ConfigPath(configs[i].0) != path
    ensures UpdateConfigsOn(d, configs).0.directories == d.directories
    ensures ReadFile(UpdateConfigsOn(d, configs).0, path) == ReadFile(d, path)
    decreases |configs|
  {
    if configs != [] {
      match UpdateConfigOn(d, configs[0].0, configs[0].1)
      case Failure(_) =>
      case Success(d') => ConfigsKeepOtherFiles(d', configs[1..], path);
    }
  }

  lemma CollectedConfigFiles(a: Answers, appName: Value)
    ensures forall i | 0 <= i < |CollectedConfig(a, appName)| :: CollectedConfig(a, appName)[i].0 in {"app", "http", "jwt"}
    ensures forall i | 0 <= i < |CollectedConfig(a, appName)| ::
      var path := ConfigPath(CollectedConfig(a, appName)[i].0);
      path != EnvPath && path != JwtKeypairCommand.PrivatePem && path != JwtKeypairCommand.PublicPem
  {
    assert EnvPath[0] == '.' && JwtKeypairCommand.PrivatePem[0] == 'k' && JwtKeypairCommand.PublicPem[0] == 'k';
    assert forall f :: ConfigPath(f)[0] == 'c';
    var configs := CollectedConfig(a, appName);
    forall i | 0 <= i < |configs|
      ensures configs[i].0 in {"app", "http", "jwt"}
    {
      var http := if a.http then [("http", [("default_error_message", a.errorMessage)])] else [];
      if i > 0 && i < 1 + |http| {
        assert configs[i] == http[i - 1];
      }
    }
  }

  /**
   * A run writes no file outside `.env`, the three config files and the two PEM files,
   * and creates no directory other than `keys`.
   */
  lemma SetupWritesOnly(d: Disk, a: Answers, appName: Value, g: Generated, path: string)
    requires path !in WrittenPaths
    ensures ReadFile(SetupRun(d, a, appName, g).0, path) == ReadFile(d, path)
    ensures SetupRun(d, a, appName, g).0.directories <= d.directories + {JwtKeypairCommand.KeysDirectory}
  {
    var signed := AfterSigner(AfterListener(d, a), a, g);
    assert ReadFile(signed, path) == ReadFile(d, path);
    assert signed.directories <= d.directories + {JwtKeypairCommand.KeysDirectory};
    FinishWritesOnly(signed, a, appName, path);
  }

  /** The config files and the final `updateEnv` write only their own paths and create no directory. */
  lemma FinishWritesOnly(d: Disk, a: Answers, appName: Value, path: string)
    requires path !in WrittenPaths
    ensures ReadFile(Finish(d, a, appName).0, path) == ReadFile(d, path)
    ensures Finish(d, a, appName).0.directories == d.directories
  {
    CollectedConfigFiles(a, appName);
    ConfigsKeepOtherFiles(d, CollectedConfig(a, appName), path);
  }

  // ---------------------------------------------------------------- what .env reads back

  /** The answers that go into `.env` hold no line break. */
  predicate OneLineAnswers(a: Answers) {
    && NoNewline(ToStr(a.timezone))
    && (a.http ==> NoNewline(ToStr(a.listen)) && NoNewline(ToStr(a.maxConnections)) && NoNewline(ToStr(a.maxRequestSize)))
    && (a.jwt ==> NoNewline(a.signer))
  }

  /** A key the command writes to `.env`, distinct from the keys the JWT commands own. */
  predicate SetupKey(k: string) {
    && NoNewline(k) && '=' !in k && NoReferences(k)
    && DistinctKeys(k, JwtHmacCommand.SecretKey)
    && DistinctKeys(k, JwtKeypairCommand.PrivateKey)
    && DistinctKeys(k, JwtKeypairCommand.PublicKey)
  }

  /** A key of the JWT commands. */
  predicate JwtKey(k: string) {
    k == JwtHmacCommand.SecretKey || k == JwtKeypairCommand.PrivateKey || k == JwtKeypairCommand.PublicKey
  }

  /** An environment variable name: capital letters and underscores. */
  predicate EnvName(k: string) {
    forall i | 0 <= i < |k| :: 'A' <= k[i] <= 'Z' || k[i] == '_'
  }

  lemma EnvNameIsKey(k: string)
    requires EnvName(k)
    ensures NoNewline(k) && '=' !in k && NoReferences(k)
  {
  }

  lemma JwtKeysAreNames()
    ensures EnvName(JwtHmacCommand.SecretKey) && |JwtHmacCommand.SecretKey| == 15
    ensures EnvName(JwtKeypairCommand.PrivateKey) && |JwtKeypairCommand.PrivateKey| == 15
    ensures EnvName(JwtKeypairCommand.PublicKey) && |JwtKeypairCommand.PublicKey| == 14
  {
  }

  /** A name of another length than the JWT commands' keys is one of the command's own keys. */
  lemma SetupKeyOf(k: string)
    requires EnvName(k) && |k| != 14 && |k| != 15
    ensures SetupKey(k)
  {
    EnvNameIsKey(k);
    JwtKeysAreNames();
    EnvNameIsKey(JwtHmacCommand.SecretKey);
    EnvNameIsKey(JwtKeypairCommand.PrivateKey);
    EnvNameIsKey(JwtKeypairCommand.PublicKey);
  }

  lemma SetupKeysValid()
    ensures SetupKey(TimezoneKey) && SetupKey(ListenKey) && SetupKey(MaxConnectionsKey)
    ensures SetupKey(MaxRequestSizeKey) && SetupKey(SignerKey)
    ensures |TimezoneKey| == 8 && |ListenKey| == 11 && |MaxConnectionsKey| == 20
    ensures |MaxRequestSizeKey| == 21 && |SignerKey| == 10
  {
    KeyValid(TimezoneKey);
    KeyValid(ListenKey);
    KeyValid(MaxConnectionsKey);
    KeyValid(MaxRequestSizeKey);
    KeyValid(SignerKey);
  }

  /** One of the command's own key constants, checked on its own. */
  lemma KeyValid(k: string)
    requires k in {TimezoneKey, ListenKey, MaxConnectionsKey, MaxRequestSizeKey, SignerKey}
    ensures SetupKey(k)
  {
    if k == TimezoneKey {
      SetupKeyOf(TimezoneKey);
    } else if k == ListenKey {
      SetupKeyOf(ListenKey);
    } else if k == MaxConnectionsKey {
      SetupKeyOf(MaxConnectionsKey);
    } else if k == MaxRequestSizeKey {
      SetupKeyOf(MaxRequestSizeKey);
    } else {
      SetupKeyOf(SignerKey);
    }
  }

  lemma CollectedEnvWellFormed(a: Answers)
    requires OneLineAnswers(a)
    ensures WellFormedAssignments(Rendered(CollectedEnv(a)))
    ensures forall i | 0 <= i < |CollectedEnv(a)| :: SetupKey(CollectedEnv(a)[i].0)
  {
    SetupKeysValid();
    var tz := (TimezoneKey, ToStr(a.timezone));
    var http := [(ListenKey, ToStr(a.listen)), (MaxConnectionsKey, ToStr(a.maxConnections)), (MaxRequestSizeKey, ToStr(a.maxRequestSize))];
    var signer := (SignerKey, a.signer);
    var collected := Rendered(CollectedEnv(a));
    if a.http && a.jwt {
      assert collected == [tz] + http + [signer];
    } else if a.http {
      assert collected == [tz] + http;
    } else if a.jwt {
      assert collected == [tz, signer];
    } else {
      assert collected == [tz];
    }
  }

  lemma CollectedEnvKeys(a: Answers)
    requires OneLineAnswers(a)
    ensures WellFormedAssignments(Rendered(ListenerEnv(a)))
    ensures WellFormedAssignments(Rendered(CollectedEnv(a)))
    ensures forall i | 0 <= i < |CollectedEnv(a)| :: SetupKey(CollectedEnv(a)[i].0)
    ensures forall k | JwtKey(k) :: Lookup(Rendered(ListenerEnv(a)), k) == None && Lookup(Rendered(CollectedEnv(a)), k) == None
  {
    CollectedEnvWellFormed(a);
    var listener := Rendered(ListenerEnv(a));
    var collected := Rendered(CollectedEnv(a));
    assert collected[..|listener|] == listener;
    assert forall i | 0 <= i < |listener| :: listener[i] == collected[i];
    forall k | JwtKey(k)
      ensures Lookup(listener, k) == None && Lookup(collected, k) == None
    {
      LookupAbsent(listener, k);
      LookupAbsent(collected, k);
    }
  }

  /**
   * The HTTP question's `updateEnv` keeps which keys have a line, and leaves every key
   * it does not assign reading as before.
   */
  lemma ListenerReadings(d: Disk, a: Answers, k: string)
    requires EnvPath in d.files && OneLineAnswers(a) && NoNewline(k) && '=' !in k
    ensures EnvPath in AfterListener(d, a).files
    ensures HasKeyLine(AfterListener(d, a).files[EnvPath], k) == HasKeyLine(d.files[EnvPath], k)
    ensures Lookup(Rendered(ListenerEnv(a)), k) == None
        ==> MatchKeyValue(AfterListener(d, a).files[EnvPath], k) == MatchKeyValue(d.files[EnvPath], k)
  {
    if a.http {
      CollectedEnvKeys(a);
      ReadAfterEachKey(d.files[EnvPath], Rendered(ListenerEnv(a)), k);
    }
  }

  /** The sub-command for the signer leaves every key of the command's own reading as before. */
  lemma SignerKeepsSetupKeys(d: Disk, a: Answers, g: Generated, k: string)
    requires EnvPath in d.files && SetupKey(k)
    ensures EnvPath in AfterSigner(d, a, g).files
    ensures MatchKeyValue(AfterSigner(d, a, g).files[EnvPath], k) == MatchKeyValue(d.files[EnvPath], k)
  {
    var t := d.files[EnvPath];
    if a.jwt && a.configureSigner {
      if a.signer == "hmac" {
        if JwtHmacCommand.HmacOutcome(Some(t), Some(HmacArgument(a)), false, g.password).Some? {
          JwtHmacCommand.HmacKeepsOtherKeys(t, k, Some(HmacArgument(a)), false, g.password);
        }
      } else if a.generateKeypair {
        if JwtKeypairCommand.KeypairOutcome(Some(t), false, g.privatePem, g.publicPem).Some? {
          JwtKeypairCommand.KeypairKeepsOtherKeys(t, k, false, g.privatePem, g.publicPem);
        }
      }
    }
  }

  /** The config files leave `.env` alone. */
  lemma ConfigsKeepEnv(d: Disk, a: Answers, appName: Value)
    ensures ReadFile(UpdateConfigsOn(d, CollectedConfig(a, appName)).0, EnvPath) == ReadFile(d, EnvPath)
  {
    CollectedConfigFiles(a, appName);
    ConfigsKeepOtherFiles(d, CollectedConfig(a, appName), EnvPath);
  }

  /**
   * After a completed run, each `.env` answer is what its key reads when `.env` had a
   * line for that key, with `$0`-style references expanded against the line the final
   * `updateEnv` replaced (the one the HTTP question's `updateEnv` left); a key without a
   * line is not added. An answer without "\\" or "$" reads back exactly.
   */
  lemma SetupRecordsEnvAnswers(d: Disk, a: Answers, appName: Value, g: Generated, i: nat)
    requires EnvPath in d.files && OneLineAnswers(a)
    requires SetupRun(d, a, appName, g).1.Success? && i < |CollectedEnv(a)|
    ensures EnvPath in AfterListener(d, a).files && EnvPath in SetupRun(d, a, appName, g).0.files
    ensures var (k, v) := CollectedEnv(a)[i];
      var reading := MatchKeyValue(SetupRun(d, a, appName, g).0.files[EnvPath], k);
      && (reading.Some? <==> HasKeyLine(d.files[EnvPath], k))
      && reading == (match MatchKeyValue(AfterListener(d, a).files[EnvPath], k)
                     case Some(w) => Some(Expand(ToStr(v), k + "=" + w))
                     case None => None)
      && (NoReferences(ToStr(v)) ==> reading == if HasKeyLine(d.files[EnvPath], k) then Some(ToStr(v)) else None)
  {
    var k := CollectedEnv(a)[i].0;
    var v := ToStr(CollectedEnv(a)[i].1);
    CollectedEnvKeys(a);
    var listened := AfterListener(d, a);
    ListenerReadings(d, a, k);
    var signed := AfterSigner(listened, a, g);
    SignerKeepsSetupKeys(listened, a, g, k);
    var configured := UpdateConfigsOn(signed, CollectedConfig(a, appName)).0;
    ConfigsKeepEnv(signed, a, appName);
    assert configured.files[EnvPath] == signed.files[EnvPath];
    LookupAt(Rendered(CollectedEnv(a)), i);
    ReadAfterEachKey(configured.files[EnvPath], Rendered(CollectedEnv(a)), k);
    if NoReferences(v) && MatchKeyValue(listened.files[EnvPath], k).Some? {
      ExpandLiteral(v, k + "=" + MatchKeyValue(listened.files[EnvPath], k).value);
    }
  }

  /**
   * The config files and the final `updateEnv` leave the JWT commands' keys reading as
   * before and the PEM files as they were.
   */
  lemma FinishKeepsSigner(d: Disk, a: Answers, appName: Value, k: string)
    requires EnvPath in d.files && OneLineAnswers(a) && JwtKey(k)
    ensures EnvPath in Finish(d, a, appName).0.files
    ensures MatchKeyValue(Finish(d, a, appName).0.files[EnvPath], k) == MatchKeyValue(d.files[EnvPath], k)
    ensures ReadFile(Finish(d, a, appName).0, JwtKeypairCommand.PrivatePem) == ReadFile(d, JwtKeypairCommand.PrivatePem)
    ensures ReadFile(Finish(d, a, appName).0, JwtKeypairCommand.PublicPem) == ReadFile(d, JwtKeypairCommand.PublicPem)
  {
    var configured := UpdateConfigsOn(d, CollectedConfig(a, appName));
    ConfigsKeepSignerFiles(d, a, appName);
    if configured.1.None? {
      assert Finish(d, a, appName).0 == UpdateEnvOn(configured.0, CollectedEnv(a));
      assert configured.0.files[EnvPath] == d.files[EnvPath];
      UpdateEnvKeepsJwtKey(d.files[EnvPath], a, k);
    }
  }

  /** The config files leave `.env` and the PEM files alone; those three paths are distinct. */
  lemma ConfigsKeepSignerFiles(d: Disk, a: Answers, appName: Value)
    ensures var configured := UpdateConfigsOn(d, CollectedConfig(a, appName)).0;
      ReadFile(configured, EnvPath) == ReadFile(d, EnvPath) &&
      ReadFile(configured, JwtKeypairCommand.PrivatePem) == ReadFile(d, JwtKeypairCommand.PrivatePem) &&
      ReadFile(configured, JwtKeypairCommand.PublicPem) == ReadFile(d, JwtKeypairCommand.PublicPem)
    ensures EnvPath != JwtKeypairCommand.PrivatePem && EnvPath != JwtKeypairCommand.PublicPem
  {
    CollectedConfigFiles(a, appName);
    ConfigsKeepOtherFiles(d, CollectedConfig(a, appName), EnvPath);
    ConfigsKeepOtherFiles(d, CollectedConfig(a, appName), JwtKeypairCommand.PrivatePem);
    ConfigsKeepOtherFiles(d, CollectedConfig(a, appName), JwtKeypairCommand.PublicPem);
    assert EnvPath[0] == '.' && JwtKeypairCommand.PrivatePem[0] == 'k' && JwtKeypairCommand.PublicPem[0] == 'k';
  }

  /** The final `updateEnv` writes none of the JWT commands' keys. */
  lemma UpdateEnvKeepsJwtKey(t: string, a: Answers, k: string)
    requires OneLineAnswers(a) && JwtKey(k)
    ensures MatchKeyValue(UpdateEnvText(t, CollectedEnv(a)), k) == MatchKeyValue(t, k)
  {
    CollectedEnvKeys(a);
    JwtKeysAreNames();
    EnvNameIsKey(k);
    ReadAfterEachKey(t, Rendered(CollectedEnv(a)), k);
  }

  /**
   * A run never changes a `JWT_HMAC_SECRET` that `.env` already holds a value for: the
   * non-interactive `jwt:hmac` run declines to overwrite it, and nothing else writes it.
   */
  lemma SetupKeepsProvisionedSecret(d: Disk, a: Answers, appName: Value, g: Generated)
    requires EnvPath in d.files && OneLineAnswers(a)
    requires HasValue(d.files[EnvPath], JwtHmacCommand.SecretKey)
    ensures EnvPath in SetupRun(d, a, appName, g).0.files
    ensures MatchKeyValue(SetupRun(d, a, appName, g).0.files[EnvPath], JwtHmacCommand.SecretKey)
         == MatchKeyValue(d.files[EnvPath], JwtHmacCommand.SecretKey)
  {
    var key := JwtHmacCommand.SecretKey;
    CollectedEnvKeys(a);
    JwtKeysAreNames();
    EnvNameIsKey(key);
    var listened := AfterListener(d, a);
    ListenerReadings(d, a, key);
    var signed := AfterSigner(listened, a, g);
    var t := listened.files[EnvPath];
    if a.jwt && a.configureSigner {
      if a.signer == "hmac" {
        JwtHmacCommand.HmacAbortsExactly(Some(t), Some(HmacArgument(a)), false, g.password);
        assert signed == listened;
      } else if a.generateKeypair {
        if JwtKeypairCommand.KeypairOutcome(Some(t), false, g.privatePem, g.publicPem).Some? {
          JwtKeypairCommand.KeypairKeepsOtherKeys(t, key, false, g.privatePem, g.publicPem);
        }
      }
    }
    FinishKeepsSigner(signed, a, appName, key);
  }

  /**
   * With the HMAC signer chosen and no secret in `.env` yet, a run stores the secret
   * `jwt:hmac` chose: the one typed in, or the generated password.
   */
  lemma SetupProvisionsSecret(d: Disk, a: Answers, appName: Value, g: Generated)
    requires EnvPath in d.files && OneLineAnswers(a)
    requires a.jwt && a.configureSigner && a.signer == "hmac"
    requires !HasValue(d.files[EnvPath], JwtHmacCommand.SecretKey)
    ensures EnvPath in SetupRun(d, a, appName, g).0.files
    ensures MatchKeyValue(SetupRun(d, a, appName, g).0.files[EnvPath], JwtHmacCommand.SecretKey)
         == Some(StoredForm(JwtHmacCommand.ChooseSecret(Some(HmacArgument(a)), g.password)))
  {
    var key := JwtHmacCommand.SecretKey;
    CollectedEnvKeys(a);
    JwtKeysAreNames();
    EnvNameIsKey(key);
    var listened := AfterListener(d, a);
    ListenerReadings(d, a, key);
    var t := listened.files[EnvPath];
    JwtHmacCommand.HmacAbortsExactly(Some(t), Some(HmacArgument(a)), false, g.password);
    JwtHmacCommand.HmacStoresSecret(Some(t), Some(HmacArgument(a)), false, g.password);
    FinishKeepsSigner(AfterSigner(listened, a, g), a, appName, key);
  }

  /** The three keys the JWT commands write are pairwise distinct. */
  lemma JwtKeysDistinct()
    ensures DistinctKeys(JwtKeypairCommand.PrivateKey, JwtHmacCommand.SecretKey)
    ensures DistinctKeys(JwtKeypairCommand.PublicKey, JwtHmacCommand.SecretKey)
    ensures DistinctKeys(JwtKeypairCommand.PrivateKey, JwtKeypairCommand.PublicKey)
  {
    JwtKeysAreNames();
    EnvNameIsKey(JwtHmacCommand.SecretKey);
    EnvNameIsKey(JwtKeypairCommand.PrivateKey);
    EnvNameIsKey(JwtKeypairCommand.PublicKey);
    assert JwtKeypairCommand.PrivateKey[4] != JwtHmacCommand.SecretKey[4];
  }

  /** A non-interactive `jwt:hmac` run touches only `.env`, and there only its own key. */
  lemma HmacRunKeepsOthers(d: Disk, argument: ByteString, password: ByteString, key: string)
    requires EnvPath in d.files && NoNewline(key) && DistinctKeys(key, JwtHmacCommand.SecretKey)
    ensures EnvPath in HmacRun(d, argument, password).files
    ensures MatchKeyValue(HmacRun(d, argument, password).files[EnvPath], key) == MatchKeyValue(d.files[EnvPath], key)
    ensures forall p | p != EnvPath :: ReadFile(HmacRun(d, argument, password), p) == ReadFile(d, p)
  {
    var t := d.files[EnvPath];
    var outcome := JwtHmacCommand.HmacOutcome(Some(t), Some(argument), false, password);
    HmacRunWrites(d, argument, password);
    if outcome.Some? {
      JwtHmacCommand.HmacKeepsOtherKeys(t, key, Some(argument), false, password);
    }
  }

  /** A non-interactive `jwt:hmac` run writes its outcome to `.env`, or nothing when it aborts. */
  lemma HmacRunWrites(d: Disk, argument: ByteString, password: ByteString)
    requires EnvPath in d.files
    ensures var outcome := JwtHmacCommand.HmacOutcome(Some(d.files[EnvPath]), Some(argument), false, password);
      HmacRun(d, argument, password) == if outcome.Some? then d.(files := d.files[EnvPath := outcome.value]) else d
  {
    assert ReadFile(d, EnvPath) == Some(d.files[EnvPath]);
  }

  /** The signer's sub-command leaves a recorded key pair alone. */
  lemma SignerKeepsKeypair(d: Disk, a: Answers, g: Generated)
    requires EnvPath in d.files
    requires HasValue(d.files[EnvPath], JwtKeypairCommand.PrivateKey)
    ensures EnvPath in AfterSigner(d, a, g).files
    ensures MatchKeyValue(AfterSigner(d, a, g).files[EnvPath], JwtKeypairCommand.PrivateKey)
         == MatchKeyValue(d.files[EnvPath], JwtKeypairCommand.PrivateKey)
    ensures MatchKeyValue(AfterSigner(d, a, g).files[EnvPath], JwtKeypairCommand.PublicKey)
         == MatchKeyValue(d.files[EnvPath], JwtKeypairCommand.PublicKey)
    ensures ReadFile(AfterSigner(d, a, g), JwtKeypairCommand.PrivatePem) == ReadFile(d, JwtKeypairCommand.PrivatePem)
    ensures ReadFile(AfterSigner(d, a, g), JwtKeypairCommand.PublicPem) == ReadFile(d, JwtKeypairCommand.PublicPem)
  {
    if a.jwt && a.configureSigner {
      if a.signer == "hmac" {
        JwtKeysDistinct();
        EnvNameIsKey(JwtKeypairCommand.PrivateKey);
        EnvNameIsKey(JwtKeypairCommand.PublicKey);
        HmacRunKeepsOthers(d, HmacArgument(a), g.password, JwtKeypairCommand.PrivateKey);
        HmacRunKeepsOthers(d, HmacArgument(a), g.password, JwtKeypairCommand.PublicKey);
      } else if a.generateKeypair {
        JwtKeypairCommand.KeypairAbortsExactly(Some(d.files[EnvPath]), false, g.privatePem, g.publicPem);
      }
    }
  }

  /**
   * A run never replaces a key pair `.env` already records a private key for: neither
   * key entry nor either PEM file changes.
   */
  lemma SetupKeepsProvisionedKeypair(d: Disk, a: Answers, appName: Value, g: Generated)
    requires EnvPath in d.files && OneLineAnswers(a)
    requires HasValue(d.files[EnvPath], JwtKeypairCommand.PrivateKey)
    ensures EnvPath in SetupRun(d, a, appName, g).0.files
    ensures MatchKeyValue(SetupRun(d, a, appName, g).0.files[EnvPath], JwtKeypairCommand.PrivateKey)
         == MatchKeyValue(d.files[EnvPath], JwtKeypairCommand.PrivateKey)
    ensures MatchKeyValue(SetupRun(d, a, appName, g).0.files[EnvPath], JwtKeypairCommand.PublicKey)
         == MatchKeyValue(d.files[EnvPath], JwtKeypairCommand.PublicKey)
    ensures ReadFile(SetupRun(d, a, appName, g).0, JwtKeypairCommand.PrivatePem) == ReadFile(d, JwtKeypairCommand.PrivatePem)
    ensures ReadFile(SetupRun(d, a, appName, g).0, JwtKeypairCommand.PublicPem) == ReadFile(d, JwtKeypairCommand.PublicPem)
  {
    var priv := JwtKeypairCommand.PrivateKey;
    var pub := JwtKeypairCommand.PublicKey;
    JwtKeysAreNames();
    EnvNameIsKey(priv);
    EnvNameIsKey(pub);
    var listened := AfterListener(d, a);
    ListenerReadings(d, a, priv);
    ListenerReadings(d, a, pub);
    CollectedEnvKeys(a);
    assert ReadFile(listened, JwtKeypairCommand.PrivatePem) == ReadFile(d, JwtKeypairCommand.PrivatePem);
    assert ReadFile(listened, JwtKeypairCommand.PublicPem) == ReadFile(d, JwtKeypairCommand.PublicPem);
    SignerKeepsKeypair(listened, a, g);
    var signed := AfterSigner(listened, a, g);
    FinishKeepsSigner(signed, a, appName, priv);
    FinishKeepsSigner(signed, a, appName, pub);
  }
}
