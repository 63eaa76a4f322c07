# Synology DiskStation authentication bridge: output handling

A Dafny model of the text handling in `ultimo\sdk\synology\ds\Core`, the PHP
class that asks a Synology DiskStation who is logged in to the current web
session. The class runs the DiskStation's own CGI scripts (`login.cgi`,
`authenticate.cgi`) and the `id` command and interprets what they print:

- `getSynoToken` treats the output of `login.cgi` as an HTTP response: it
  splits it on line feeds, skips header lines up to the first line that is
  blank after `trim`, glues the remaining lines back together, decodes them as
  JSON and returns the `SynoToken` field when `success` is truthy.
- `authenticate` exports `QUERY_STRING=SynoToken=<token>`, runs
  `authenticate.cgi` and returns its output as the user name, or null when it
  printed nothing.
- `getUserId` returns the output of `id -u` as an integer when it is numeric,
  else null.
- `getUserGroupNames` and `getUserGroupIds` split the output of `id -Gn` and
  `id -G` on spaces; only the second guards against empty output.

Files:

- `Wrappers.dfy` — `Option` (PHP null) and `Result` (PHP exceptions).
- `Text.dfy` — the PHP string built-ins involved: `explode`/`implode` on one
  character (`Split`/`Join`), `trim` with its default character set, and the
  integer/decimal-string conversions.
- `Json.dfy` — a value returned by `json_decode($text, true)`, with `isset`,
  field access, PHP truthiness and string conversion.
- `Core.dfy` — the operations of `Core`.

Every shell command is replaced by its already-trimmed output, passed in as a
parameter. `json_decode` is the parameter `decode: string -> Option<Value>`
(`None` for a decoding error), and `authenticate.cgi` is the parameter
`authenticateCgi: string -> string`, its trimmed output as a function of the
`QUERY_STRING` it runs with.

## Model

| member | source | states |
|---|---|---|
| Text.Split | src/ultimo/sdk/synology/ds/Core.php:33 | `explode` always yields at least one piece, and no piece holds the separator |
| Text.JoinSplit | src/ultimo/sdk/synology/ds/Core.php:33-53 | gluing the pieces of `explode` with `implode` on the same separator gives back the original string |
| Text.SplitJoin | src/ultimo/sdk/synology/ds/Core.php:33-53 | splitting a glued list of separator-free pieces gives back the pieces |
| Text.SplitAfterJoined | src/ultimo/sdk/synology/ds/Core.php:33 | splitting glued separator-free pieces followed by a separator and a tail yields those pieces followed by the split tail |
| Text.Join | src/ultimo/sdk/synology/ds/Core.php:53 | `implode`: its length is the total length of the pieces plus one per gap; it starts with the first piece and then a separator (JoinAppend gives the rest); no pieces give "" |
| Text.JoinAppend | src/ultimo/sdk/synology/ds/Core.php:53 | gluing two non-empty lists puts exactly one separator between their glued forms |
| Text.Trim | src/ultimo/sdk/synology/ds/Core.php:39-41 | `trim` leaves nothing exactly when every character is whitespace (" \t\n\r\0\x0B"), so a line such as "\r" counts as blank |
| Text.IsIntegerLiteral | src/ultimo/sdk/synology/ds/Core.php:91 | the numeric test accepts every digit string, rejects the empty output of an unknown user, and accepts no string with whitespace in it |
| Text.LiteralValue | src/ultimo/sdk/synology/ds/Core.php:94 | the `(int)` cast: a leading minus gives the negated value of the digits after it ("-07" is -7), otherwise the value is non-negative, a leading plus is ignored, and a plain digit string gives its decimal value (a digit string is zero exactly when all its digits are zeros: Text.DigitsValueZero) |
| Text.DigitsValueZero | src/ultimo/sdk/synology/ds/Core.php:94 | a digit string reads as zero exactly when every digit is '0', so "000" is the user id 0 |
| Text.DecimalRoundTrip | src/ultimo/sdk/synology/ds/Core.php:94 | the `(int)` reading of a number's decimal spelling is that number |
| Core.Error.Code | src/ultimo/sdk/synology/ds/Core.php:50-60 | "Empty response" and "Invalid response" carry UNEXPECTED_RESPONSE; the refusal of line 60 is thrown without a code |
| Core.Error.Message | src/ultimo/sdk/synology/ds/Core.php:50-60 | every exception thrown after decoding ends with the raw `login.cgi` output |
| Core.Body | src/ultimo/sdk/synology/ds/Core.php:36-47 | the body is always a suffix of the lines; which suffix is stated by BodyAfterSeparator and BodyWithoutSeparator |
| Core.ExtractBody | src/ultimo/sdk/synology/ds/Core.php:33-47 | the header-skipping loop with its `headersRead` flag collects exactly the lines after the first blank line, untrimmed and in order |
| Core.BodyAfterSeparator | src/ultimo/sdk/synology/ds/Core.php:36-46 | with non-blank header lines, then a blank line, then any lines (blank ones included), the body is exactly those last lines: only the first blank line switches mode |
| Core.BodyAtFirstBlank | src/ultimo/sdk/synology/ds/Core.php:36-46 | when line k is blank and no line before it is, the body is exactly the lines after k |
| Core.BodyWithoutSeparator | src/ultimo/sdk/synology/ds/Core.php:36-47 | when no line is blank the body is empty |
| Core.BodyEmptyIff | src/ultimo/sdk/synology/ds/Core.php:36-49 | the body is empty exactly when no line other than the last is blank |
| Core.Decide | src/ultimo/sdk/synology/ds/Core.php:55-63 | a decode error or an unset `success` is an invalid response carrying the raw output; a set but falsy `success` is a refusal carrying `result`; otherwise the `SynoToken` field (null when absent) is returned |
| Core.GetSynoToken | src/ultimo/sdk/synology/ds/Core.php:13-64 | getSynoToken splits the output, extracts the body, rejects an empty body, decodes and decides, as `TokenOf` specifies |
| Core.EmptyResponseIff | src/ultimo/sdk/synology/ds/Core.php:33-51 | getSynoToken fails with "Empty response" exactly when no line other than the last is blank: no blank line at all, or the first blank line is the last line |
| Core.EmptyOutputRejected | src/ultimo/sdk/synology/ds/Core.php:33-51 | empty output splits into one blank line with no body and is rejected as "Empty response" |
| Core.ComposedResponse | src/ultimo/sdk/synology/ds/Core.php:33-55 | for any header lines, a blank separator line and any body text, json_decode receives exactly the body text |
| Core.AuthenticatedUser | src/ultimo/sdk/synology/ds/Core.php:76-79 | authenticate returns null exactly when `authenticate.cgi` printed nothing, else its output unchanged |
| Core.TokenQuery | src/ultimo/sdk/synology/ds/Core.php:74 | the exported query string is "SynoToken=" followed by the token's PHP string form |
| Core.Authenticate | src/ultimo/sdk/synology/ds/Core.php:71-80 | an exception from getSynoToken propagates; otherwise the result is the user read from `authenticate.cgi` run with the token's query string |
| Core.UserId | src/ultimo/sdk/synology/ds/Core.php:88-95 | null exactly when the output is not numeric (so for the empty output of an unknown user); an all-digit output gives its decimal value |
| Core.UserIdOfDecimal | src/ultimo/sdk/synology/ds/Core.php:91-94 | `id -u` printing the decimal spelling of any integer yields that integer |
| Core.UserGroupNames | src/ultimo/sdk/synology/ds/Core.php:102-105 | at least one name, none containing a space, and joining them with single spaces gives the output back |
| Core.UserGroupIds | src/ultimo/sdk/synology/ds/Core.php:112-120 | no ids exactly when the output is empty; otherwise space-free ids whose single-space join is the output; ids stay strings |
| Core.GroupListsAgree | src/ultimo/sdk/synology/ds/Core.php:102-120 | the two group lookups agree on non-empty output; on empty output the names are `[""]` and the ids `[]` |
| Json.IsSet | src/ultimo/sdk/synology/ds/Core.php:55 | `isset($response['success'])` holds exactly when the lookup yields a non-null value, so a null `success` counts as unset |
| Json.Field | src/ultimo/sdk/synology/ds/Core.php:59-63 | `$response[key]` is the value stored under the key of an object, and null for a missing key or a value without string keys |
| Json.Truthy | src/ultimo/sdk/synology/ds/Core.php:59 | the falsy values behind `!$response['success']`: for a non-array, falsy exactly when its string form is "" or "0"; an array is truthy when not empty |
| Json.ToPhpString | src/ultimo/sdk/synology/ds/Core.php:60-74 | the string form used at lines 60 and 74: null and false give "", true "1", an integer its decimal spelling that reads back as the integer, a string itself, an array "Array" |

## Left out

- Running commands (`shell_exec` and the `trim` around it in `exec`), the
  command strings and `escapeshellarg`: every operation receives the trimmed
  output instead.
- The `putenv` call in `authenticate` changes the process environment; the
  model passes the exported value (`TokenQuery`) to `authenticateCgi` instead
  of mutating global state.
- `json_decode` itself, its depth limit and JSON floats: decoding is the
  parameter `decode`, and `Json.Value` has integers but no floating-point
  numbers (so the truthiness of `0.0` is not modelled).
- Core.UserId: models PHP's `is_numeric` and `(int)` only for an optional sign
  followed by decimal digits; leading whitespace, decimal points, exponents and
  the 64-bit limit of PHP integers are not modelled (the output of `id -u` is
  a plain decimal number or empty).
- Text.IsIntegerLiteral and Text.LiteralValue: the same restriction as
  Core.UserId, since they are the model of `is_numeric` and `(int)` it uses.
- The PHP notices raised for a missing `result` or `SynoToken` key; the model
  keeps only the null value PHP then uses.
- The commented-out debug data and the `GROUPID_USERS` and
  `GROUPID_ADMINISTRATORS` constants, which no code uses.
- `Core.php` has no header map, login, logout, header relaying, cookie
  handling or environment restoration, so none is modelled.
- `getUserGroupIds` returns the split strings without converting them to
  integers (`Core.php:119`); the model does the same.
