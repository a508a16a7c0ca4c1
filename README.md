# nimbly/Foundation core, modelled in Dafny

This project models the deterministic core of the Foundation framework for PHP services and proves properties of it. It covers:

- **JWT credential handling** around the `Nimbly\Proof` library:
  - `JwtGenerator` and `JwtService` build the claims of a token;
  - `JwtValidatorMiddleware` recognises a bearer token in the `Authorization` header, decodes it and attaches it to the request, or turns a rejected token into a 401.
- **Credential provisioning** by the console commands `jwt:hmac`, `jwt:keypair` and `setup`. Each one rewrites `.env` (and, for `setup`, the `config/*.php` files) line by line. They are modelled as methods over a `FileSystem` object. Each method is proved equal to a function of the old files and the answers given, and the lemmas are stated about that function:
  - which lines are rewritten;
  - what the rewritten lines then read;
  - what stays untouched;
  - when a run aborts.
- **The `env()` helper**: defaulting and the `int`/`bool` coercions.
- **The `Cache` and `Log` static facades**: first-wins initialisation, the "not initialised" guard, forwarding, and the get-or-build `Cache::entry`.
- **The HTTP layer**: `JsonResponse`, `ExceptionHandler` (status, message redaction, debug body, the breadcrumb walk over a schema-mismatch chain, the critical log entry) and the middlewares `SchemaValidatorMiddleware`, `JsonMiddleware`, `CorsMiddleware`, `OptionsMiddleware` and `ServerHeaderMiddleware`. Requests and responses are immutable values, as PSR-7 makes them. A handler is a function from a request to a response or an exception.

PHP's own semantics are written out where the code depends on them, in the shared modules:

- `PhpValues`: `empty()`, `(string)`, `(int)`, `gettype`.
- `PhpNumeric`: loose `==` between strings, and the `(int)` cast of a string (numeric prefix with fraction and exponent, truncation toward zero, saturation at the 64-bit bounds, 0 past the double range).
- `PhpStrings`: ASCII `strtolower`/`strtoupper`, `explode`/`implode`, `trim`.
- `Base64`: the encoder, with its round trip proved.
- `LinePatterns`: the multi-line regular expressions the commands use, hand-coded. This includes the newline that `\n?$` swallows, and the expansion of `$0`, `\0` and `${0}` references in a replacement.

Foreign code is a parameter. This covers:

- `Proof::encode`/`decode`;
- `json_encode`/`json_decode`;
- the request and response validators;
- the router's supported methods;
- the cache builder;
- the password generator;
- the generated key pair;
- the UUID;
- the current time;
- the console's answers.

An exception is a value: its class (or set of classes, for the validator's exceptions), message, code, origin and previous exception.

`jwt:hmac` declares a `--force` option and never reads it, so the model has no such input: a set secret is only replaced after confirmation.

## Model

| member | source | states |
|---|---|---|
| JwtTokens.JwtGenerator.CreateToken | src/Services/JwtGenerator.php:46-58 | the token has exactly the claims `jti`, `iss`, `sub`, `exp` and the caller's; `exp` is now + ttl even when the caller passes one; every other caller claim keeps its value; without a caller override `jti` is the UUID and `iss` the issuer |
| JwtTokens.JwtService.CreateToken | src/Services/JwtService.php:48-60 | the same claim set, but every caller claim wins, `exp` included; each generated claim holds only when the caller does not pass it |
| JwtTokens.GeneratorIsServiceWithoutCallerExpiry | src/Services/JwtGenerator.php:51-57 | the generator's token is the service's token for the caller claims minus `exp`; the two services agree exactly when the caller passes no `exp` or the generated one |
| JwtTokens.GeneratorJwtRoundTrip | src/Services/JwtGenerator.php:28-36 | with a proof whose decode inverts encode, decoding `createJwt` gives back the token `createToken` builds |
| JwtTokens.ServiceJwtRoundTrip | src/Services/JwtService.php:30-38 | the same round trip for `JwtService::createJwt` and `decodeJwtToToken` |
| JwtValidator.ScanSplit | src/Http/Middleware/JwtValidatorMiddleware.php:92-98 | the character-by-character recogniser accepts exactly the texts whose dot-separated parts are non-empty segments over the token alphabet, with the right number of dots |
| JwtValidator.TokenTextIsThreeSegments | src/Http/Middleware/JwtValidatorMiddleware.php:92-98 | a text is a token exactly when it is three non-empty segments of `[0-9a-zA-Z_+=-/]` joined by two dots |
| JwtValidator.TokenTextHasNoNewline | src/Http/Middleware/JwtValidatorMiddleware.php:92 | a recognised token never contains a newline |
| JwtValidator.GetJwt | src/Http/Middleware/JwtValidatorMiddleware.php:90-105 | a returned token is three segments, and the header is the scheme prefix (matched without case) followed by the token and at most one final newline |
| JwtValidator.GetJwtWithScheme | src/Http/Middleware/JwtValidatorMiddleware.php:94-101 | `scheme + " " + token`, with the scheme written in any case and with or without one final newline, yields the token |
| JwtValidator.GetJwtNeedsScheme | src/Http/Middleware/JwtValidatorMiddleware.php:95-96 | with a non-empty scheme, a header that does not start with the scheme and a space yields no token |
| JwtValidator.GetJwtWithoutScheme | src/Http/Middleware/JwtValidatorMiddleware.php:96 | with a null, "" or "0" scheme, the whole header must be the token, and then it is returned |
| JwtValidator.GetJwtFinalNewline | src/Http/Middleware/JwtValidatorMiddleware.php:95 | `$` tolerates exactly one final newline: one gives the same answer, two give none |
| JwtValidator.JwtValidatorMiddleware.Process | src/Http/Middleware/JwtValidatorMiddleware.php:46-81 | no token: the handler gets the request unchanged; a decoded token: the handler gets the request with the `Token` attribute; a decoding or signer failure: a 401 "Bearer" "Your token is not valid." with the library's exception as previous; any other library exception passes on |
| JwtValidator.NoTokenPassesThrough | src/Http/Middleware/JwtValidatorMiddleware.php:53-80 | without a token the outcome is the handler's, whatever the proof's decode would do |
| JwtValidator.RejectedTokenIsUnauthorized | src/Http/Middleware/JwtValidatorMiddleware.php:59-72 | a rejected token fails with status 401 and `WWW-Authenticate: Bearer`, whatever the handler would do |
| JwtValidator.BearerTokenIsAttached | src/Http/Middleware/JwtValidatorMiddleware.php:35-41 | with the defaults (`Authorization`, `Bearer`), `bearer <jwt>` in any case attaches the decoded token |
| JwtValidator.GeneratedTokenIsAttached | src/Http/Middleware/JwtValidatorMiddleware.php:57-80 | a JWT made by `JwtGenerator::createJwt` and sent as `Bearer <jwt>` reaches the handler with the token `createToken` built |
| JwtHmacCommand.ChooseSecret | src/Commands/JwtHmac.php:50-61 | the secret argument is used unless PHP's `empty` holds for it (missing, "" or "0"); then the generated password is used |
| JwtHmacCommand.Execute | src/Commands/JwtHmac.php:23-74 | returns -1 and writes nothing when it aborts; otherwise returns 0 and writes only `.env`, with the computed contents |
| JwtHmacCommand.HmacAbortsExactly | src/Commands/JwtHmac.php:34-42 | the command aborts exactly when `.env` exists, its `JWT_HMAC_SECRET` line has a non-empty value, and the confirmation is declined |
| JwtHmacCommand.HmacStoresSecret | src/Commands/JwtHmac.php:63-67 | after a run, `JWT_HMAC_SECRET` reads back as the base64 of the chosen secret with `=` and newlines trimmed |
| JwtHmacCommand.HmacAppendsToEnvWithoutSecret | src/Commands/JwtHmac.php:45-67 | a `.env` without the key gets a blank line and the new key line appended, and nothing else changes |
| JwtHmacCommand.HmacCreatesEnv | src/Commands/JwtHmac.php:27-29 | without `.env`, the file written is the single key line |
| JwtHmacCommand.HmacKeepsOtherKeys | src/Commands/JwtHmac.php:63-67 | every other key reads back as before |
| JwtKeypairCommand.Execute | src/Commands/JwtKeypair.php:14-73 | returns -1 and changes nothing when it aborts; otherwise writes both PEM files and `.env`, creates `keys/` only if missing, and returns 0 |
| JwtKeypairCommand.KeypairAbortsExactly | src/Commands/JwtKeypair.php:25-34 | the command aborts exactly when `JWT_PRIVATE_KEY` has a non-empty value and the confirmation is declined; the public key is never consulted |
| JwtKeypairCommand.PreparedReadings | src/Commands/JwtKeypair.php:18-38 | before the rewrite, the private-key line always exists; the public-key line exists only for a fresh `.env` or when it was there already |
| JwtKeypairCommand.KeypairStoresKeys | src/Commands/JwtKeypair.php:57-66 | the private key reads back as its trimmed base64; the public key does too, but only when its line existed (or `.env` was fresh), and is otherwise absent |
| JwtKeypairCommand.KeypairCreatesEnv | src/Commands/JwtKeypair.php:18-66 | a fresh `.env` becomes exactly the two key lines, each ending in a newline |
| JwtKeypairCommand.KeypairKeepsOtherKeys | src/Commands/JwtKeypair.php:57-66 | every other key reads back as before |
| Base64.StoredFormRoundTrip | src/Commands/JwtHmac.php:65 | the trimmed base64 text stored in `.env` decodes back to the secret |
| Base64.StoredFormInjective | src/Commands/JwtHmac.php:65 | different secrets are stored as different texts |
| Base64.StoredFormIsPlain | src/Commands/JwtHmac.php:65 | the stored text is a single line without `\` or `$`, so `preg_replace` inserts it as written |
| Base64.StoredFormIsUnpadded | src/Commands/JwtHmac.php:65 | trimming `=` and newlines removes exactly the padding |
| LinePatterns.ExpandLiteral | src/Commands/Setup.php:137-140 | a replacement without `\` or `$` is inserted as written, whatever was matched |
| LinePatterns.ExpandReferences | src/Commands/Setup.php:137-140 | `$0`, `\0` and `${0}` insert the whole match, `$1` inserts nothing when the pattern has no group, and `\$0` inserts `$0` |
| LinePatterns.ExpandOneLine | src/Commands/Setup.php:137-140 | expanding a one-line replacement against a one-line match gives one line |
| LinePatterns.ReadAfterReplace | src/Commands/JwtHmac.php:34-67 | after replacing the `KEY=` lines with `KEY=value` (no `\` or `$` in key or value), the key reads back as the value if it had a line, and stays absent otherwise |
| LinePatterns.ReadOtherAfterReplace | src/Commands/JwtHmac.php:63-67 | replacing one key's lines leaves every other key's reading unchanged |
| LinePatterns.ReplaceWithoutKeyLine | src/Commands/Setup.php:135-140 | a key without a line is not added: the text is unchanged |
| LinePatterns.ReplaceAppendedKeyLine | src/Commands/JwtHmac.php:45-67 | the appended empty key line reads as "" and its replacement swallows the line's final newline |
| LinePatterns.ReplaceTwoKeys | src/Commands/JwtKeypair.php:57-66 | the two-pattern rewrite sets each key that has a line |
| LinePatterns.ReadAfterEachKey | src/Commands/Setup.php:129-143 | after the rewrite for a list of assignments, each listed key with a line reads as its value with references expanded against the old `KEY=old` line, a listed key without a line stays absent, and every other key reads as before |
| LinePatterns.ReadPlainAfterEachKey | src/Commands/Setup.php:129-143 | a listed value without `\` or `$` reads back exactly, when its key had a line |
| LinePatterns.ReplaceConfigEntryLines | src/Commands/Setup.php:105-118 | the config rewrite keeps the line count and changes only lines holding `"key" => …,`: their text from `"key" => ` on becomes the replacement, references expanded against that text |
| LinePatterns.ReplacePlainConfigEntry | src/Commands/Setup.php:105-118 | with a key and literal without `\` or `$`, a matched line's text from `"key" => ` on becomes exactly `"key" => literal,` |
| SetupCommand.Rendered | src/Commands/Setup.php:137 | each `.env` value is written as PHP's string form of the answer |
| SetupCommand.UpdateEnv | src/Commands/Setup.php:129-143 | `updateEnv` writes `.env` with each key's lines replaced and nothing else changed |
| SetupCommand.RenderConfigValue | src/Commands/Setup.php:106-115 | renders bool, int, string and null literals; any other type fails with "Can't handle type." |
| SetupCommand.RenderedLiteralEvaluates | src/Commands/Setup.php:106-115 | the literal written evaluates in PHP back to the answer (plain strings, ints other than the minimum) |
| SetupCommand.UpdateConfig | src/Commands/Setup.php:98-121 | `updateConfig` fails without writing when a value cannot be rendered; otherwise it rewrites the one config file |
| SetupCommand.UpdatedConfigEntry | src/Commands/Setup.php:104-118 | every `"key" => …,` line becomes `"key" => <literal>,`, other lines are kept, and the line count is unchanged |
| SetupCommand.UpdateConfigs | src/Commands/Setup.php:82-84 | the loop over the collected files updates them in order and stops at the first failure |
| SetupCommand.ConfigsFailExactly | src/Commands/Setup.php:82-113 | the loop fails exactly when some file has a value that cannot be rendered |
| SetupCommand.Issuer | src/Commands/Setup.php:74-78 | an issuer answer equal to the application name is stored as null; any other answer is kept |
| SetupCommand.Execute | src/Commands/Setup.php:17-89 | the run's files and result are those of the question flow for the given answers |
| SetupCommand.SetupFailsExactly | src/Commands/Setup.php:24-88 | `setup` throws exactly when an answer written to a config file cannot be rendered; otherwise it returns 0 |
| SetupCommand.SetupWritesOnly | src/Commands/Setup.php:17-89 | no file outside `.env`, the config files, the PEM files and `keys/` changes |
| SetupCommand.CollectedConfigFiles | src/Commands/Setup.php:24-74 | the only config files touched are `app`, `http` and `jwt` |
| SetupCommand.SetupRecordsEnvAnswers | src/Commands/Setup.php:25-86 | each collected `.env` answer reads back from `.env` exactly when its key had a line, as the answer with `$0`-style references expanded against the old line, and as the answer itself when it has no `\` or `$` |
| SetupCommand.SetupProvisionsSecret | src/Commands/Setup.php:45-59 | an `hmac` setup on a `.env` without a secret stores the chosen secret (generated when the answer is empty) |
| SetupCommand.SetupKeepsProvisionedSecret | src/Commands/Setup.php:53-59 | a secret already set is never overwritten, because the sub-command is not interactive and so declines |
| SetupCommand.SetupKeepsProvisionedKeypair | src/Commands/Setup.php:62-71 | the same holds for a private key already set: both keys and both PEM files are kept |
| EnvFunction.Defaulted | src/Core/functions.php:36-40 | an unset or empty variable gives the default; any other value wins |
| EnvFunction.Env | src/Core/functions.php:30-47 | an empty key fails with "Environment key is empty."; "int" gives an int; "bool" gives a bool that is true for the listed spellings; any other type gives the defaulted value |
| EnvFunction.EnvIntOfDecimal | src/Core/functions.php:43 | a decimal integer variable comes back as that integer with type "int" |
| EnvFunction.EnvIntOfExponent | src/Core/functions.php:43 | `<m>e<e>` comes back as m·10^e with type "int" when that fits in 64 bits, and as `PHP_INT_MAX` beyond it while the double is finite |
| EnvFunction.EnvIntOfFraction | src/Core/functions.php:43 | `<w>.<f>` comes back as w and `-<w>.<f>` as -w: the fraction is truncated toward zero |
| PhpNumeric.StringToIntOfIntToString | src/Core/functions.php:43 | `(int)` of the decimal text of a 64-bit integer is that integer |
| PhpNumeric.StringToIntOfExponent | src/Core/functions.php:43 | `(int) "<m>e<e>"` is m·10^e when it fits in 64 bits, `PHP_INT_MAX` beyond that, and 0 once the double is infinite |
| PhpNumeric.StringToIntTruncates | src/Core/functions.php:43 | `(int) "<w>.<f>"` is w and `(int) "-<w>.<f>"` is -w, whatever the digits f |
| EnvFunction.EnvBoolDefaults | src/Core/functions.php:39-44 | an unset variable with default `true` gives true; with default null it gives false |
| EnvFunction.LooselyTruthyMeaning | src/Core/functions.php:44 | the loose `in_array` accepts exactly the listed words and every string numerically equal to 1 |
| EnvFunction.EnvIntended | src/Core/functions.php:44 | the corrected coercion is true exactly when the lower-cased value is one of the listed spellings |
| EnvFunction.EnvBoolLeadingZero | src/Core/functions.php:44 | "01" is true as written and false as intended |
| CacheFacade.Cache.Init | src/Core/Cache.php:26-31 | the first store given is kept; later calls change nothing |
| CacheFacade.Cache.Get | src/Core/Cache.php:41-51 | before `init` the call fails with the "not initialized" message; afterwards it answers from the store |
| CacheFacade.Cache.Set | src/Core/Cache.php:41-51 | forwards to the store, which then maps the key to the value and ttl |
| CacheFacade.EntryOn | src/Core/Cache.php:61-74 | a non-empty cached value is returned and nothing changes; otherwise the builder's value for the key is stored and returned; other keys are untouched |
| CacheFacade.Cache.Entry | src/Core/Cache.php:61-74 | fails before `init`; otherwise returns and stores what `EntryOn` gives, setting the ttl only on a miss |
| CacheFacade.EntryIsCachedOnce | src/Core/Cache.php:63-67 | once a non-empty value is built, a second `entry` returns it without consulting any builder |
| CacheFacade.EmptyEntryIsRebuilt | src/Core/Cache.php:65 | a value PHP calls empty is built again on every call |
| LogFacade.Log.Init | src/Core/Log.php:31-36 | the first logger is kept; later calls are no-ops |
| LogFacade.Log.Call | src/Core/Log.php:46-56 | before `init` the call fails with the "not initialized" message; afterwards the logger receives exactly this call; the logger never changes |
| JsonResponses.Make | src/Http/JsonResponse.php:21-38 | succeeds exactly when the body encodes; otherwise fails with "Response body could not be serialized into JSON."; the status is kept and the body is the encoding |
| JsonResponses.DefaultContentType | src/Http/JsonResponse.php:36 | without a caller `Content-Type` (in any case) the response says `application/json` |
| JsonResponses.CallerHeaderKept | src/Http/JsonResponse.php:36 | each caller header whose name no other shares reads back with its value, `Content-Type` included |
| HttpMessages.SetHeader | src/Http/Middleware/ServerHeaderMiddleware.php:33 | `withHeader` replaces the name's values with the one value, and every other name reads as before |
| HttpMessages.FromArrayReads | src/Http/JsonResponse.php:33-37 | a header array read back gives the last value given for each name, ignoring case |
| ExceptionHandling.BreadcrumbFollowsChain | src/Http/ExceptionHandler.php:106-120 | one detail per exception along the chain, in chain order, each with its message, joined breadcrumb and data; the walk fails only when the chain holds an exception that is not a schema mismatch |
| ExceptionHandling.BuildBreadcrumb | src/Http/ExceptionHandler.php:106-120 | the loop returns the details of the chain (corrected for a missing breadcrumb) |
| ExceptionHandling.AsWrittenAgreesWithBreadcrumbs | src/Http/ExceptionHandler.php:112 | as written and corrected agree whenever every mismatch has a breadcrumb |
| ExceptionHandling.AsWrittenThrowsWithoutDataBreadcrumb | src/Http/ExceptionHandler.php:112 | a mismatch without a breadcrumb throws a TypeError as written; the corrected walk gives the location "" |
| ExceptionHandling.ExceptionHandler.Body | src/Http/ExceptionHandler.php:57-76 | the body has `code`, then `message` (the exception's below 500, the default message otherwise), plus `debug` only in debug mode; building it fails only in debug mode with schema details |
| ExceptionHandling.StatusFrom | src/Http/ExceptionHandler.php:94 | `ResponseStatus::from` gives the status exactly when the enum defines it, and a `ValueError` otherwise |
| ExceptionHandling.GetStatusCode | src/Http/ExceptionHandler.php:91-98 | an HTTP exception's status through the enum, 500 for anything else; it fails, with a `ValueError`, exactly for an HTTP status the enum does not define |
| ExceptionHandling.ExceptionHandler.Handle | src/Http/ExceptionHandler.php:40-83 | an undefined HTTP status throws `ValueError` before anything is logged; a status of 500 or more logs exactly one critical entry before the response; without a logger that log call throws; the response is the JSON response of the status, body and headers |
| ExceptionHandling.UndefinedStatusThrows | src/Http/ExceptionHandler.php:42-44 | an HTTP exception with a status the enum does not define makes the handler throw a `ValueError`; any response carries a defined status |
| ExceptionHandling.ResponseFollowsException | src/Http/ExceptionHandler.php:78-95 | an HTTP exception's response has its status and each of its headers |
| ExceptionHandling.OtherExceptionsAreServerErrors | src/Http/ExceptionHandler.php:81-97 | any other exception gives 500 with no header but `Content-Type: application/json` |
| ExceptionHandling.DetailsOnlyForSchemaMismatch | src/Http/ExceptionHandler.php:64-75 | `debug` holds message, file, line and trace, and `details` exactly when the previous exception is a validation failure caused by a schema mismatch |
| ExceptionHandling.AsWrittenLogsWrongCode | src/Http/ExceptionHandler.php:50 | the logged `code` is 1 as written, and the status as intended |
| SchemaValidation.SchemaValidatorMiddleware.Process | src/Http/Middleware/SchemaValidatorMiddleware.php:48-109 | validation off (exactly `false`): handler; an invalid request: the mapped exception; a handler failure passes on |
| SchemaValidation.RequestFailure | src/Http/Middleware/SchemaValidatorMiddleware.php:58-89 | the catch clauses in order; an exception no clause catches passes on unchanged |
| SchemaValidation.RequestFailuresBecomeHttpErrors | src/Http/Middleware/SchemaValidatorMiddleware.php:58-89 | a caught failure becomes the HTTP exception of its status (400, 405, 404, 401 or 400 in catch order), with the validator's exception as previous and its message, except "Please authenticate to continue" for a security failure |
| SchemaValidation.InvalidSecurityIsUnauthorized | src/Http/Middleware/SchemaValidatorMiddleware.php:77-83 | an invalid-security failure is a 401 "Bearer" "Please authenticate to continue", ahead of the generic validation-failure clause |
| SchemaValidation.InvalidRequestSkipsHandler | src/Http/Middleware/SchemaValidatorMiddleware.php:54-91 | an invalid request never reaches the handler |
| SchemaValidation.NullSettingValidates | src/Http/Middleware/SchemaValidatorMiddleware.php:50 | a null setting still validates |
| SchemaValidation.ValidResponsePassesThrough | src/Http/Middleware/SchemaValidatorMiddleware.php:91-108 | a valid response is returned as the handler gave it; a response type mismatch becomes 500 "Response does not adhere to OpenAPI schema." |
| JsonBodies.JsonMiddleware.Process | src/Http/Middleware/JsonMiddleware.php:35-66 | a request that is not POST/PUT/PATCH with a body and no parsed body passes unchanged; otherwise a non-JSON content type is a 406, an undecodable body a 400 "Invalid JSON request body.", and the decoded body becomes the parsed body |
| JsonBodies.ParsedBodyIsKept | src/Http/Middleware/JsonMiddleware.php:38 | a parsed body already set is never replaced |
| JsonBodies.MethodIsCaseInsensitive | src/Http/Middleware/JsonMiddleware.php:37 | a method is a body method exactly when its lower case is `post`, `put` or `patch`; two methods with the same upper case are treated alike |
| JsonBodies.ZeroBodyIsEmptyArray | src/Http/Middleware/JsonMiddleware.php:51-52 | the body "0" becomes the empty array without decoding |
| JsonBodies.ContentTypeWithCharset | src/Http/Middleware/JsonMiddleware.php:41-47 | `application/json` in any case, with anything before and after it, is accepted |
| JsonBodies.AcceptedContentTypeHasJson | src/Http/Middleware/JsonMiddleware.php:41-47 | conversely, an accepted content type holds `application/json`, in some case, at some position |
| JsonBodies.EncodedBodyIsParsed | src/Http/Middleware/JsonMiddleware.php:55-65 | a body the codec decodes back to a value reaches the handler with that value parsed |
| Cors.CorsMiddleware.Decorate | src/Http/Middleware/CorsMiddleware.php:32-51 | no `Origin`: response unchanged; otherwise `Access-Control-Allow-Headers` is set, an allowed origin is echoed with `Vary: Origin`, a disallowed one sets neither, OPTIONS copies `Allow` into `Access-Control-Allow-Methods`, any other method leaves that header as the handler gave it; status, body and other headers are kept |
| Cors.CorsMiddleware.Process | src/Http/Middleware/CorsMiddleware.php:28-52 | the handler always runs first; its failure passes on; its response is decorated |
| Cors.ListedOriginIsAllowed | src/Http/Middleware/CorsMiddleware.php:35 | an origin listed exactly as sent is allowed under the loose `in_array` |
| OptionsRequests.OptionsMiddleware.Process | src/Http/Middleware/OptionsMiddleware.php:29-41 | a method other than exactly "OPTIONS" goes to the handler; OPTIONS gets 204, an empty body and the `Allow` header |
| OptionsRequests.AllowListsOptionsFirst | src/Http/Middleware/OptionsMiddleware.php:38 | `Allow` is "OPTIONS" followed by the router's methods in their order, separated by ", " |
| OptionsRequests.OptionsSkipsHandler | src/Http/Middleware/OptionsMiddleware.php:35-40 | the answer to OPTIONS does not depend on the handler |
| ServerHeader.Process | src/Http/Middleware/ServerHeaderMiddleware.php:29-37 | the response gains `Server: name/version`; status, body and every other header are kept; a handler failure passes on |
| ServerHeader.ServerHeaderReplaces | src/Http/Middleware/ServerHeaderMiddleware.php:33 | an earlier `Server` header is replaced, not appended to |
| ServerHeader.ServerValueOfStrings | src/Http/Middleware/ServerHeaderMiddleware.php:33-36 | string settings appear as given, separated by one slash |
| Pipeline.RejectedTokenResponse | src/Http/Middleware/JwtValidatorMiddleware.php:59-72 | a rejected token reaches the client as 401 with `WWW-Authenticate: Bearer` and the message "Your token is not valid." |
| Pipeline.RejectedRequestResponse | src/Http/Middleware/SchemaValidatorMiddleware.php:58-89 | a request the validator rejects reaches the client with its 4xx status and, in the body, the validator's message, or "Please authenticate to continue" for a security failure |
| Pipeline.MismatchedResponseIsHidden | src/Http/Middleware/SchemaValidatorMiddleware.php:101-106 | a response that breaks its schema reaches the client as 500 with the default message only |

## Left out

- `Nimbly\Proof` internals (signing, verification, expiry and key lookup) are not part of this model. `encode`/`decode` are function parameters, and `RoundTrips` is an assumption lemmas may take.
- Cryptography and randomness are inputs: the RSA key pair (4096 bits in the source), the generated password, the UUID and the current time. The password generator's options are not modelled.
- File and console I/O are modelled as follows:
  - files are a map in a `FileSystem` object;
  - the console's answers are inputs;
  - messages printed to the console are not modelled.
- JSON encoding and decoding are partial function parameters. Decoding to objects instead of associative arrays is not modelled.
- Floats are not part of the PHP value model. `updateConfig`'s float branch is therefore absent.
- PCRE is not modelled in general. Only the line patterns of the commands and the token pattern are coded. Three limits follow:
  - regular-expression metacharacters in a key, a scheme or a config key are taken literally;
  - a NUL byte in a replacement, which ends it early, is not modelled;
  - a `/` in the scheme, which would break the pattern, is not modelled.
- `Cache` TTLs are opaque values, and expiry is not modelled. The cache builder is a function, so its side effects are not modelled.
- The logger only records the calls it receives. Monolog's handling is not part of this model.
- `SchemaValidation.SchemaValidatorMiddleware.Process`: responses are immutable values. The cloning of the body stream before validation, and its restoration, is therefore not modelled: a valid response is the handler's.
- Exceptions thrown inside the library (`Proof`, the validators) carry the origin given to the middleware as a parameter. The origin's file, line and trace are plain values.
- The constructors of the HTTP exception classes live in another library, which is not part of this model. Each is taken to set its status and headers: `WWW-Authenticate` for 401, `Allow` for 405, and code 0.
- `ExceptionHandling.ExceptionHandler.Handle`: the `ResponseStatus` enum belongs to the HTTP message library, which is not part of this model. Its cases are a parameter, taken to be three-digit statuses that include 500. The `ValueError` message follows PHP 8.2 and later.
- `SetupCommand.RenderedLiteralEvaluates`: excludes the minimum 64-bit integer, whose literal PHP reads as a float, and strings that would need escaping. The command writes strings without escaping.
- `SetupCommand.SetupRecordsEnvAnswers`: assumes `.env` exists and answers are single lines. A multi-line answer would add lines to `.env`.
- `Cors.CorsMiddleware.Decorate`: the allowed-origin list is compared loosely, as `in_array` does. PHP's float comparison of numeric strings is reduced to exact decimal comparison.
- `EnvFunction.Env`: the loose `==` of the "bool" coercion compares numeric strings as exact decimals, whereas PHP compares them as doubles, so `"1.00000000000000001"` is true in PHP and false here. The "int" coercion uses the exact decimal value of the text, whereas PHP first rounds it to the nearest double. The two differ only for magnitudes past 2^53 written with a fraction or an exponent.
- `EnvFunction.LooselyTruthyMeaning`: "numerically equal to 1" means equal as an exact decimal. PHP also accepts numeric strings that only round to 1.0 as a double, such as `"1.00000000000000001"`.
- `LinePatterns.ReadAfterReplace`, `LinePatterns.ReplaceTwoKeys` and `LinePatterns.ReadPlainAfterEachKey`: the exact reading is stated for keys and values without `\` or `$`. The commands use them only with constant keys and base64 text. For any other value, `LinePatterns.ReadAfterEachKey` states the expanded reading.
- `SetupCommand.UpdatedConfigEntry`: requires a key without `\` or `$`. The keys are fixed identifiers of the command, and they are also spliced into the pattern.
- `SetupCommand.SetupProvisionsSecret`, `SetupCommand.SetupKeepsProvisionedSecret` and `SetupCommand.SetupKeepsProvisionedKeypair`: `jwt:hmac` and `jwt:keypair` open `.env` relative to the working directory, while `setup` opens `APP_ROOT/.env`. The model has one `.env`, so these lemmas hold when the command runs from the application root.

## Findings

| source | as written | input that shows it | evidently intended | confidence | as-written member | corrected member |
|---|---|---|---|---|---|---|
| src/Core/functions.php:44 | `in_array` without strict mode compares the value loosely with "1" | `env("X", null, "bool")` with `X=01` gives true | true only for the listed spellings | not executed | EnvFunction.EnvBoolLeadingZero | EnvFunction.EnvIntended |
| src/Http/ExceptionHandler.php:112 | `implode("/", …?->buildChain())` receives null when a mismatch has no breadcrumb | a schema mismatch whose `dataBreadCrumb()` is null throws a TypeError while the error response is being built | an empty location, as the `?->` suggests | not executed | ExceptionHandling.AsWrittenThrowsWithoutDataBreadcrumb | ExceptionHandling.BuildBreadcrumb |
| src/Http/ExceptionHandler.php:50 | `(int) $status_code` casts the `ResponseStatus` enum object, which gives 1 | any exception with status 500 logs `"code" => 1` | the status value, `$status_code->value` | not executed | ExceptionHandling.AsWrittenLogsWrongCode | ExceptionHandling.ExceptionHandler.Handle |
