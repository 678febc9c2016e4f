# Registration flow of the `RegistersUsers` trait, modelled in Dafny

This project models the user-registration flow of the AWS Cognito auth package for Laravel
(`src/Auth/RegistersUsers.php`). The flow validates the request. If the request's password is
empty, it generates one: `bin2hex` of 10 random bytes. It then maps the configured fields of the
request to Cognito attributes and invites the user in Cognito. Only when the invite succeeds does
it create the local user record, from the original request with the `password` key removed. Last,
it adds the new user's email to the configured default group.

Each operation is a pure function. `CreateCognitoUser`, `SetDefaultGroup` and `Register` return
their result together with the ordered list of calls they made to collaborators
(`Collaborators.Call`: `InviteUser`, `Create`, `AdminAddUserToGroup`). So the properties about which
calls happen, in what order and with which arguments are statements about that list.

Modules:
- `Wrappers`: `Option` (PHP `null` is `None`) and `Result` (a thrown exception is `Err`).
- `Php`: payloads as `map<string, string>`, reading a key that may be missing, and PHP's
  `empty()`/falsy test (`Falsy`: null, `""` or `"0"`).
- `Hex`: bytes and `bin2hex`, with its inverse `HexDecode` used for the round trip.
- `CognitoConfig`: the `cognito.*` configuration values, passed in explicitly.
- `Collaborators`: the call record and `Env`, which holds what the collaborators answer. That is
  the validator's verdict, the random bytes, the invite's reply, the application's `create()` and
  the group call's reply.
- `AttributeMapping`: the strict, all-or-nothing `foreach` of `createCognitoUser`.
- `RegistersUsers`: `WorkingPayload`, `CreateCognitoUser`, `SetDefaultGroup`, `LocalFields`, `Register`.
- `RegistrationProperties`: lemmas about whole registration runs.

The model follows the code in three places where a looser reading of the flow would differ:
- The default group is assigned to `$user->email`, the email of the record the local `create()`
  returned. It is not the Cognito user key, which is the username when the request has one.
- A default group of `"0"` counts as unset, because the code tests the configured value for PHP
  truthiness.
- The user key is read from the working payload with `$request[$userKey]`. With neither `username`
  nor `email` present, that read of the missing `email` key is an undefined-index error, which
  Laravel's error handler turns into an `ErrorException`. So `createCognitoUser` stops there, after
  the field mapping and before the invite, and the model ends the run as
  `Threw(UndefinedKey("email"))` with no call.

## Model

| member | source | states |
|---|---|---|
| Hex.Bin2Hex | src/Auth/RegistersUsers.php:45 | the hex encoding has two characters per byte, all in `0-9a-f` |
| Hex.HexDecodeBin2Hex | src/Auth/RegistersUsers.php:45 | decoding the hex encoding gives back the original bytes, so no information is lost |
| Hex.Bin2HexInjective | src/Auth/RegistersUsers.php:45 | different random bytes give different generated passwords |
| AttributeMapping.MapAttributes | src/Auth/RegistersUsers.php:100-120 | the mapping succeeds iff every configured field is in the payload; on failure it names the first missing field in table order; on success the keys are exactly the configured attribute keys and each holds the payload value of its entry's field |
| AttributeMapping.AttributesExact | src/Auth/RegistersUsers.php:112-114 | a complete payload maps without error, and every attribute in the result comes from a configured entry and holds that entry's payload value |
| AttributeMapping.MissingFieldShortCircuits | src/Auth/RegistersUsers.php:112-120 | if entry j is the first with a missing field, the result is exactly the error for that field; no partial attribute map comes back |
| RegistersUsers.WorkingPayload | src/Auth/RegistersUsers.php:42-46 | an empty, `"0"` or missing password is replaced by `bin2hex` of the random bytes; a non-empty one leaves the payload unchanged; every other key keeps its value and the result always has a `password` key |
| RegistersUsers.CreateCognitoUser | src/Auth/RegistersUsers.php:97-133 | a missing configured field fails naming the first one, with no call; with neither `username` nor `email` it fails reading the `email` key, with no call; otherwise exactly one invite, carrying the mapped attributes, the username-or-email key, the password or null, and the metadata, message action and forced-verification flag unchanged; the result is the invite's reply |
| RegistersUsers.SetDefaultGroup | src/Auth/RegistersUsers.php:79-87 | at most one call; a call happens iff the configured group is truthy; it is `adminAddUserToGroup(username, group)`; with no call the result is the empty array, otherwise the client's reply |
| RegistersUsers.LocalFields | src/Auth/RegistersUsers.php:55-57 | the local fields are the original request's keys except `password`, each with its original value |
| RegistersUsers.Register | src/Auth/RegistersUsers.php:35-62 | validation failure iff the validator rejects, with no call; registration succeeds iff validation and field mapping succeed, the request has a username or an email, and the invite succeeds; on success the calls are the invite, then `create` of the password-free request, then the group call; `create` never appears otherwise |
| RegistrationProperties.GeneratedPasswordShape | src/Auth/RegistersUsers.php:44-46 | from 10 bytes the generated password has 20 lower-case hex characters and is never empty |
| RegistrationProperties.WorkingPayloadIdempotent | src/Auth/RegistersUsers.php:44-46 | after synthesis the password is non-empty, so a second pass changes nothing |
| RegistrationProperties.InvitePasswordSuppliedOrGenerated | src/Auth/RegistersUsers.php:44-129 | whenever the invite happens, its password is the supplied non-empty one or else the generated one, which has 20 lower-case hex characters; it is never null |
| RegistrationProperties.InviteUserKey | src/Auth/RegistersUsers.php:123-129 | an invite happens only for a request with a `username` or an `email`; its key is the `username` when present, otherwise the `email` |
| RegistrationProperties.MissingUserKeyAborts | src/Auth/RegistersUsers.php:123-129 | a complete request with neither `username` nor `email` ends with the undefined-key error for `email` and an empty call list |
| RegistrationProperties.RegisterStartsWithCreateCognitoUser | src/Auth/RegistersUsers.php:42-52 | after validation, the first call is exactly the one `createCognitoUser` makes on the working payload, with no client metadata |
| RegistrationProperties.PasswordNeverReachesStore | src/Auth/RegistersUsers.php:52-60 | the `create` call has no `password` key and carries every other request key unchanged |
| RegistrationProperties.CreateOnlyAfterInvite | src/Auth/RegistersUsers.php:52-60 | `create` happens only when the invite replied true, and directly after the invite |
| RegistrationProperties.FirstMissingFieldAborts | src/Auth/RegistersUsers.php:112-120 | the first configured field missing from the working payload ends the registration with that field's error and an empty call list |
| RegistrationProperties.MissingInRequestIsMissingInWorkingPayload | src/Auth/RegistersUsers.php:42-46 | when no entry names `password`, password synthesis does not change which configured field is first missing |
| RegistrationProperties.GroupCallOnlyAfterCreate | src/Auth/RegistersUsers.php:52-61 | a group call appears only in a successful run with a truthy group, as the third call, right after `create`, and for the stored user's email |
| RegistrationProperties.SuccessfulTrace | src/Auth/RegistersUsers.php:52-61 | a successful run's calls are exactly the invite, `create` of the password-free request, and `adminAddUserToGroup(user.email, group)` only when a group is configured |
| RegistrationProperties.RegisteredWithoutGroup | src/Auth/RegistersUsers.php:52-61 | with no default group configured, a successful run makes exactly the invite and the `create` of the password-free request, and nothing else |
| RegistrationProperties.ValidationFirst | src/Auth/RegistersUsers.php:40 | a rejected request makes no call at all |
| RegistrationProperties.ScenarioGeneratedPassword | src/Auth/RegistersUsers.php:42-61 | `{email, name}` with a matching table and no password sends exactly those attributes with a generated password, and stores the two fields alone |
| RegistrationProperties.ScenarioMissingName | src/Auth/RegistersUsers.php:112-120 | a request without the configured `name` fails naming `name`, with no call |

## Left out

- HTTP layer: `Request`, `wantsJson`, `JsonResponse` and `redirect` (lines 66-68) are response
  formatting. A failed invite ends as `RemoteFailed` with no local record. For a JSON request the
  code then reads the unassigned `$user` (an undefined-variable error, which Laravel turns into an
  `ErrorException`). Any other request is redirected to `redirectPath()`, exactly as after a
  successful registration.
- Service location and configuration loading (`Config::get`, `config()`, `app()->make`). The
  configuration values come in as a `Config`, with defaults already applied.
- The Cognito SDK. The invite is an opaque boolean reply and the group call's reply an opaque map.
  Exceptions they throw (`AwsCognitoException`), and a failure of the local `create()`, are not
  modelled. In the code they propagate and stop the flow at that point.
- `openssl_random_pseudo_bytes`: its output is an input, typed as exactly 10 bytes
  (`Collaborators.RandomBytes`). "Differs across calls" is probabilistic; the model proves only
  that different bytes give different passwords.
- The validator's rules: the validator is an abstract `Payload -> bool`.
- The local store: `create()` is an abstract `Payload -> LocalUser`. The record is assumed to
  expose an email.
- `Log::error` calls.
- Payload values other than strings (null, arrays, numbers). `Collection::has` is therefore key
  membership.
- The order of the attribute array: attributes are a Dafny `map`.
- Duplicate attribute keys: they cannot occur in a PHP array, and the field table's type
  (`CognitoConfig.FieldMap`) excludes them.
