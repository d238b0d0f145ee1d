# A Dafny model of the panel's endpoint, server-creation and startup-variable logic

This project models three pieces of a game-server management panel and proves
properties about them.

- **`Endpoint`** (`endpoint.dfy`) is the listen-address value object. It takes a
  port, or a combined `"ip:port"` text, plus an optional ip.
  - The ip defaults to the "any" address `0.0.0.0`.
  - Construction rejects an ip that fails the IP filter. It also rejects a port
    outside the open range (1024, 65535).
  - `__toString` prints the bare port for the "any" address,
    `localhost:port` for loopback, and `ip:port` otherwise.
  - `toJson` is the JSON string literal of `__toString`.
- **The server creation saga** (`server_creation.dfy`, over the variable table
  in `server_variables.dfy`).
  - The request map is normalised against its egg.
  - A request without a node is rejected before validation, the transaction or
    the daemon call.
  - The egg variables are validated.
  - The server row and one variable row per validated variable are committed
    together, under a uuid whose full and short forms are both unused.
  - The daemon is then asked to create the server. If the daemon cannot be
    reached, the new server is force-deleted and the error is rethrown.
- **The Startup page's variable helpers** (`startup.dfy`).
  - A variable is edited with a select when one of its `|`-separated rules is
    an `in:` rule, and with a text input otherwise.
  - The select's options come from the last `in:` rule.
  - A variable is required when one of its rules is exactly `required`.
  - `update` stores a value only when the value passes the variable's rules.

Supporting modules model the PHP behaviour these pieces rely on:

- `php_values.dfy`: request values, `isset`, `empty`, `??` and `Arr::get`.
- `php_strings.dfy`: `explode`/`implode`, `Str::startsWith`, `Str::after`, the
  `(int)` cast and the `(string)` cast of an int.
- `json.dfy`: `json_encode` of a string with the default flags, plus a decoder
  used to state the round trip.

Collaborators that cannot be seen are parameters:

- the IP filter (`Endpoint.IpValidator`);
- the variable validator (`ServerCreation.VariableValidator`);
- Laravel's rule engine (`Startup.RuleValidator`);
- the daemon's answer (`ServerCreation.DaemonOutcome`);
- the stream of random uuids (a candidate sequence);
- the clock (a `now` reading).

The saga returns a trace of the collaborator calls it made. That makes
"fails before validation" and "deletes after the daemon call" statable.

## Model

| member | source | states |
|---|---|---|
| Endpoint.DefaultIp | app/Models/Objects/Endpoint.php:32 | A null ip becomes the "any" address `0.0.0.0`; a given ip is kept. |
| Endpoint.Candidate | app/Models/Objects/Endpoint.php:32-38 | A number, or a text without a colon, keeps the defaulted ip and casts the port. A text with a colon overrides any ip argument: the ip is the text before the first colon, and the port is the cast of the text up to the next colon. |
| Endpoint.SplitHostPort | app/Models/Objects/Endpoint.php:36-37 | Destructuring `explode(':')` into two names gives the segment before the first colon and the segment between the first and second colons. Later parts are dropped. |
| Endpoint.Construct | app/Models/Objects/Endpoint.php:30-43 | Construction succeeds exactly when the ip passes the filter and 1024 < port < 65535. A built endpoint always satisfies that invariant and is the candidate pair. Failures are checked in order: invalid ip, then port not above 1024, then port not below 65535. |
| Endpoint.Show | app/Models/Objects/Endpoint.php:45-58 | The printed text has a colon exactly when the ip is not the "any" address. |
| Endpoint.ShowLoopback | app/Models/Objects/Endpoint.php:53-57 | The loopback address prints as `localhost:` followed by the port. |
| Endpoint.PortTextReadsBack | app/Models/Objects/Endpoint.php:50 | A valid port's decimal text has no colon and casts back to the port. |
| Endpoint.HostPortReadsBack | app/Models/Objects/Endpoint.php:35-38 | The text `host:port` of a colon-free host splits back into that host and port. |
| Endpoint.RoundTrip | app/Models/Objects/Endpoint.php:30-58 | Re-constructing from the printed text gives the same endpoint back. This holds when the ip is the "any" address, or is a non-loopback ip without a colon. |
| Endpoint.LoopbackDoesNotRoundTrip | app/Models/Objects/Endpoint.php:53-57 | A loopback endpoint prints as `localhost:port`. Re-constructing from that text fails because `localhost` is not an IP. |
| Endpoint.ToJsonDecodes | app/Models/Objects/Endpoint.php:60-63 | `toJson()` decodes back to `__toString()`. |
| Endpoint.ToJsonQuotesShow | app/Models/Objects/Endpoint.php:60-63 | For an ip of plain ASCII, `toJson()` is `__toString()` between double quotes. |
| Endpoint.QuadIsIpv4 | app/Models/Objects/Endpoint.php:40 | Four numbers up to 255 joined by dots pass the concrete IPv4 filter. |
| Endpoint.Ipv4FilterIsSane | app/Models/Objects/Endpoint.php:40 | The concrete IPv4 filter meets every fact the model assumes of the IP filter: `0.0.0.0` and `127.0.0.1` pass, `""` and `localhost` fail. |
| Endpoint.ExampleExplicitIp | app/Models/Objects/Endpoint.php:30-43 | Port text `25565` with ip `10.0.0.5` builds `10.0.0.5`, port 25565. |
| Endpoint.ExampleBarePorts | app/Models/Objects/Endpoint.php:41-42 | `25565` builds the "any" address with port 25565. `500` fails the floor check and `70000` fails the ceiling check. |
| Endpoint.ExampleLoopback | app/Models/Objects/Endpoint.php:35-38 | `127.0.0.1:25565` builds the loopback endpoint on port 25565. |
| Endpoint.ExampleShowExplicit | app/Models/Objects/Endpoint.php:57 | `10.0.0.5` on 25565 prints as `10.0.0.5:25565`. |
| Endpoint.ExampleShowAnyAndLoopback | app/Models/Objects/Endpoint.php:49-55 | The "any" address prints as `25565` and loopback prints as `localhost:25565`. |
| PhpStrings.Explode | app/Models/Objects/Endpoint.php:36 | `explode` yields at least one part, and no part contains the delimiter. |
| PhpStrings.ExplodeImplode | app/Models/Objects/Endpoint.php:36 | Joining the parts of `explode` with the delimiter gives back the text. |
| PhpStrings.ImplodeExplode | app/Filament/App/Pages/Startup.php:129 | Exploding a join of delimiter-free parts gives back the parts. |
| PhpStrings.ExplodeHead | app/Models/Objects/Endpoint.php:36 | The first part is the text before the first delimiter. When there is a delimiter, the remaining parts are the explode of the text after it. |
| PhpStrings.ExplodeFirstTwo | app/Models/Objects/Endpoint.php:36 | With a delimiter present there are at least two parts: the texts before the first and before the second delimiter. |
| PhpStrings.TakeUntil | app/Models/Objects/Endpoint.php:36 | The text before the first delimiter is a delimiter-free prefix, followed by the delimiter or the end of the text. |
| PhpStrings.IndexOf | app/Filament/App/Pages/Startup.php:151 | The result is the first position at or after the start where the search text occurs, or none when it never occurs. |
| PhpStrings.After | app/Filament/App/Pages/Startup.php:151 | `Str::after` returns the text itself for an empty search and when the search never occurs. When the text starts with the search, it returns the rest. |
| PhpStrings.NatToString | app/Models/Objects/Endpoint.php:50 | `(string)` of a non-negative int is a non-empty digit string with no leading zero, whose decimal value is the number. |
| PhpStrings.Saturate | app/Models/Objects/Endpoint.php:33 | A magnitude read by the cast lands in the 64-bit range, and is exact when it fits. |
| PhpStrings.IntCast | app/Models/Objects/Endpoint.php:33 | The `(int)` cast of any text lies within PHP_INT_MIN..PHP_INT_MAX. |
| PhpStrings.CastOfNatToString | app/Models/Objects/Endpoint.php:37 | The `(int)` cast reads back the `(string)` cast of any non-negative int that fits. |
| PhpStrings.CastWithoutDigits | app/Models/Objects/Endpoint.php:37 | A text that starts with neither whitespace, a sign nor a digit casts to 0. |
| Json.EncodeString | app/Models/Objects/Endpoint.php:62 | `json_encode` of a string is quoted at both ends and at least two characters longer than the string. |
| Json.Hex4RoundTrip | app/Models/Objects/Endpoint.php:62 | A `\u` escape's four hex digits read back as the code unit they encode. |
| Json.UnescapeEscapeChar | app/Models/Objects/Endpoint.php:62 | Decoding reads exactly one encoded character off the front of the text. This covers short escapes, `\u` escapes, surrogate pairs and plain characters. |
| Json.DecodeEncode | app/Models/Objects/Endpoint.php:62 | Decoding `json_encode` of any string gives the string back. |
| Json.EscapePlain | app/Models/Objects/Endpoint.php:62 | Printable ASCII other than `"`, `\` and `/` is written unchanged. |
| PhpValues.Coalesce | app/Services/Servers/ServerCreationService.php:42-43 | `$data[$key] ?? $fallback` keeps a set value and replaces a missing or null one. |
| ServerCreation.Normalise | app/Services/Servers/ServerCreationService.php:35-43 | `oom_killer` becomes `!oom_disabled` only when it is unset and `oom_disabled` is set. A missing or null `image` becomes the egg's first image, and a missing or null `startup` becomes the egg's startup. Supplied values and every other key are kept. |
| ServerCreation.NormaliseIdempotent | app/Services/Servers/ServerCreationService.php:35-43 | Normalising an already normalised request changes nothing. |
| ServerCreation.FirstImage | app/Services/Servers/ServerCreationService.php:42 | The egg's first docker image, or null when it lists none. |
| ServerCreation.NewServer | app/Services/Servers/ServerCreationService.php:88-113 | The new row carries the id, the uuid, its 8-character prefix and status Installing. Missing or null values get their defaults: description `''`, skip_scripts false, oom_killer false, ports `[]`, and the three limits 0. |
| ServerCreation.ShortUuid | app/Services/Servers/ServerCreationService.php:91 | `substr($uuid, 0, 8)` is the prefix of length min(8, length). |
| ServerCreation.GenerateUniqueUuid | app/Services/Servers/ServerCreationService.php:141-151 | The result is the first candidate whose full and short forms are both unused. Every earlier candidate collided. |
| ServerCreation.VariableRows | app/Services/Servers/ServerCreationService.php:119-131 | There is exactly one row per validated variable, in order, for the new server. Null is stored as `''`, and all rows share one timestamp. |
| ServerCreation.StartOnCompletion | app/Services/Servers/ServerCreationService.php:66-69 | The daemon's start flag is the request's value when set, and true when it is missing or null. |
| ServerCreation.ForceDelete | app/Services/Servers/ServerCreationService.php:70-73 | Force-deleting removes exactly that server and exactly its variable rows. |
| ServerCreation.CommitKeepsInvariants | app/Services/Servers/ServerCreationService.php:57-64 | Committing under the next id and an unused uuid keeps ids below the auto-increment and keeps uuids and short uuids unique. |
| ServerCreation.ForceDeleteUndoesCommit | app/Services/Servers/ServerCreationService.php:70-73 | Force-deleting the server just committed restores the servers and variable rows from before the transaction. |
| ServerCreation.ForceDeleteKeepsInvariants | app/Services/Servers/ServerCreationService.php:71 | Deleting a server keeps the store well formed and its uuids unique. |
| ServerCreation.CommitThenCreate | app/Services/Servers/ServerCreationService.php:57-76 | The daemon is called after the commit. It succeeds only on an Ok answer. A connection failure is compensated and rethrown. On any other answer, the store after is exactly the committed one. |
| ServerCreation.Provision | app/Services/Servers/ServerCreationService.php:57-76 | After validation the server is stored under a fresh id and unused uuid, together with its variable rows. The trace shows the commit, then the daemon call with the start flag, then the force-delete on a connection failure. On any other daemon failure, the new server and its variable rows stay committed. |
| ServerCreation.Handle | app/Services/Servers/ServerCreationService.php:33-77 | An empty `node_id` fails with the store untouched and no call made. A validation failure leaves the store unchanged. Success holds exactly when the request is admitted and the daemon answers Ok, and then the server and its rows are stored. A connection failure restores the pre-call servers and rows. Any other daemon failure leaves the store as the transaction committed it: the new server and its variable rows. Well-formedness and uuid uniqueness are preserved. |
| ServerVariables.FindRow | app/Filament/App/Pages/Startup.php:180-185 | The result is the first row with the (server, variable) key, or none when no row has it. |
| ServerVariables.Upsert | app/Filament/App/Pages/Startup.php:180-185 | `updateOrCreate` makes the key read the new value and leaves every other key's value alone. It appends a row stamped now when the key is new. Otherwise it updates the first matching row in place, keeping its creation time. It stamps `updated_at` only when the value changes; saving the value the row already holds leaves the table as it was. |
| ServerVariables.RemoveServer | app/Services/Servers/ServerCreationService.php:71 | The rows left are exactly the rows of other servers. |
| ServerVariables.RemoveAppended | app/Services/Servers/ServerCreationService.php:71 | Deleting a server whose rows were all appended after rows of other servers gives back those earlier rows. |
| Startup.NoInRuleFoldMeansNone | app/Filament/App/Pages/Startup.php:129-131 | The reduce is true exactly when no segment starts with `in:`. |
| Startup.ShouldHide | app/Filament/App/Pages/Startup.php:127-142 | The select is hidden exactly when no rule is an `in:` rule, and the text input exactly when one is, so exactly one is visible. Any other component is an error. |
| Startup.LastInRuleFoldFindsLast | app/Filament/App/Pages/Startup.php:146-148 | The reduce ends on the last `in:` segment, or on `''` when there is none. |
| Startup.OptionItemsFromLastInRule | app/Filament/App/Pages/Startup.php:146-153 | The option items are the last `in:` rule's text after `in:`, split on commas. Without an `in:` rule they are the single empty item. |
| Startup.MapToSelf | app/Filament/App/Pages/Startup.php:154 | Each entry maps an item to itself, the keys are distinct, and every key is one of the items. |
| Startup.MapToSelfCovers | app/Filament/App/Pages/Startup.php:154 | Every item has an entry. |
| Startup.MapToSelfOrdered | app/Filament/App/Pages/Startup.php:154 | Entries come in the order of their items' first occurrences. |
| Startup.SelectOptions | app/Filament/App/Pages/Startup.php:144-156 | The options map each item of the last `in:` rule to itself, one entry per distinct item. |
| Startup.PlainThenInRule | app/Filament/App/Pages/Startup.php:146-153 | For a plain rule followed by `in:list`, there is an `in:` rule and the option items are `list` split on commas. |
| Startup.RequiredIffSegment | app/Filament/App/Pages/Startup.php:79 | A rule string is required exactly when one of its segments is the word `required`. |
| Startup.ExampleSelect | app/Filament/App/Pages/Startup.php:127-156 | `required|in:a, b,a` shows the select and hides the text input, and is required. Its options are `a` and ` b` (the space kept, the repeat dropped). |
| Startup.ExampleNoInRule | app/Filament/App/Pages/Startup.php:144-156 | `required|string` hides the select, whose options are the single empty option. |
| Startup.ExampleRequiredIfIsNotRequired | app/Filament/App/Pages/Startup.php:79 | `nullable|required_if:a,b` is not required. Only the whole word counts. |
| Startup.FindVariable | app/Filament/App/Pages/Startup.php:160 | The first of the server's variables with the environment name, or none. The variable found always has that name. |
| Startup.Update | app/Filament/App/Pages/Startup.php:158-185 | An unknown name, or a value that fails the rules, leaves the table unchanged. A passing value is stored under (server, variable), with null stored as `''`, and every other key keeps its value. |

## Left out

- The rest of the repository is not modelled, including the node CPU chart widget.
- Form layout, labels, hints, notifications and authorisation on the Startup page are presentation and are left out.
- The activity-log branch of `update` is left out. Its condition compares the found variable's environment name with the searched one, and `Startup.FindVariable` proves these are always equal, so the branch never runs.
- Laravel's rule engine and `VariableValidatorService` are left out. They are opaque function parameters; the order in which the validator emits variables is its own.
- `Startup.Update`: a missing variable is modelled as the outcome `UnknownVariable` with the table unchanged. In PHP, reading a property of null raises outside the `try`.
- UUID v4 randomness is left out. Uuids are a candidate sequence, and `GenerateUniqueUuid` requires that some candidate is free. That stands for the random stream eventually producing an unused uuid.
- `Egg::findOrFail` is left out. `Handle` takes the egg already loaded, and its contract does not state that this egg is the one the request's `egg_id` names. A missing egg is not modelled.
- The transaction's retry count (5) and database atomicity are left out. The transaction is one atomic step (`Commit`).
- The daemon repository and `ServerDeletionService` are left out. The daemon's answer is a parameter. Force deletion removes the server and its variable rows, nothing more.
- The IP filter is a parameter. Only a concrete IPv4 dotted-quad instance is given; IPv6 and other `FILTER_VALIDATE_IP` details are not modelled.
- The `CIDR_*`, `PORT_RANGE_LIMIT` and `PORT_RANGE_REGEX` constants are not used by the modelled code.
- `PhpStrings.IntCast`: the `(int)` cast models leading whitespace, an optional sign, leading decimal digits and saturation at the 64-bit bounds. Exponent and decimal-point notation (`"2e3"`, `"1.5e3"`) are not modelled.
- `Endpoint.Show`: the contract states where the colon appears. The exact texts are stated by `ShowLoopback`, `RoundTrip` and the worked examples rather than restated from the body.
- Eloquent attribute casts and model validation (`DataValidationException`) are not modelled. Rows store the values as given.
- PHP's conversion of numeric-string array keys to ints in the select options is not modelled. Option keys stay strings.
- Floats and objects are not modelled as request values.
- Strings are modelled as valid Unicode text, while PHP strings are bytes. `json_encode` returns `false` on invalid UTF-8; the model cannot express that case.
- `storeEggVariables` skips the insert when there are no records. Appending an empty list of rows has the same effect, so the model always appends.
- The `Message` texts of endpoint errors are given but not proved about.
- `Endpoint.Construct`: the two port checks throw through `throw_unless` with a bare message, which is a `RuntimeException`; the ip check throws `InvalidArgumentException`. The model keeps `PortNotAboveFloor` and `PortNotBelowCeil` distinct from `InvalidIp`.
