# MenaProtection claim registry, activity log and admin command logic in Dafny

MenaProtection is a PocketMine-MP plugin for Minecraft: Bedrock Edition.
A player places a protection block and so claims a circular area. The area
is a vertical column of the claim's radius around the block, in the block's
world. This project models the part of the plugin that makes decisions:

- **The protection manager** (`Managers/ProtectionManager.php`). It keeps
  the registry: a PHP array, in insertion order, from owner name to claim
  record. A claim holds owner, world, x, y, z, creation time and radius.
  It creates claims: a second claim for the same owner is refused first,
  then a centre too close to a claim in the same world. It removes claims by
  owner. It finds the first claim that covers a position, and it keeps a
  capped activity log keyed by timestamp.
- **The `/mena` admin command** (`Commands/MenaCommand.php`). It picks a
  subcommand case-insensitively. It checks the guards of `remove` and
  `info`. It does the page arithmetic of `logs`: ten entries per page,
  with an out-of-range page shown as page 1.

Modules:

- `Wrappers`: `Option`, `Min` and `Max`.
- `PhpArray`: the PHP array operations the code uses, on a sequence of
  (key, value) entries. These are `$a[$k] ?? null`, `$a[$k] = $v`,
  `unset` and `array_slice` with preserved keys. In PHP an existing key
  keeps its place when overwritten, and a new key goes last.
- `Protections`: the claim record, the horizontal distance tests,
  first-match coverage, the minimum-separation predicate and lemmas about
  them.
- `ActivityLog`: what `addLog` does to the stored log, and what many
  calls in a row leave.
- `Managers`: the class `ProtectionManager`. Its fields are the registry,
  the log, and a ghost snapshot of the last saved claims file. Its methods
  update those fields as the PHP methods do.
- `Commands`: `execute`, PHP's `(int)` cast of the page argument, the
  `handleLogs` paging, and the `handleRemove` and `handleInfo` guards.

Coordinates are block integers. The source compares `sqrt(dx² + dz²)` with
a radius or a minimum distance. The model compares `dx² + dz²` with the
square of the bound instead, and lemmas show this agrees with the square-
root test over the reals. The current time and the configuration values
are parameters: `protection.radius`, `protection.min_distance`,
`logs.enabled` and `logs.max_logs`.

Three behaviours of the code are easy to misread; the model follows the code:

- A claim of radius 0 still covers its exact centre, since `sqrt(0) <= 0`
  holds. A negative radius covers nothing. So a radius of 0 is not the
  same as a claim that matches nothing.
- Two log events in the same second share one key. The later event
  replaces the earlier one in place (`SameSecondOverwrites`).
- With `logs.max_logs` equal to 0, `array_slice($logs, -0, …)` keeps the
  whole log, so nothing is ever trimmed.

## Model

| member | source | states |
|---|---|---|
| PhpArray.Get | Managers/ProtectionManager.php:161-163 | `$a[$k] ?? null` is null exactly when the key is absent; with distinct keys it is the value stored at the key's position |
| PhpArray.Set | Managers/ProtectionManager.php:111 | assigning a new key appends it last; assigning an existing key replaces its value in place and keeps every other entry; keys stay distinct |
| PhpArray.SetReadBack | Managers/ProtectionManager.php:111 | after the assignment the key reads back the new value and every other key reads as before |
| PhpArray.Unset | Managers/ProtectionManager.php:138 | unsetting an absent key leaves the array unchanged |
| PhpArray.UnsetAt | Managers/ProtectionManager.php:138 | with distinct keys, unsetting removes exactly the one entry holding the key and keeps the order of the rest |
| PhpArray.UnsetShift | Managers/ProtectionManager.php:138 | after unsetting the key at position i, the array is one shorter and each later entry moves up by one |
| PhpArray.UnsetKeepsOthers | Managers/ProtectionManager.php:138 | after unset the keys stay distinct, the key is gone and every other key reads as before |
| PhpArray.Slice | Managers/ProtectionManager.php:249-252 | `array_slice` with preserved keys: a negative offset with no length keeps the last `-offset` entries (all when there are fewer); a non-negative offset and length give the window `[offset, offset + length)` clipped to the array |
| Protections.DistanceSquared | Managers/ProtectionManager.php:177-180 | the squared horizontal distance is never negative |
| Protections.WithinRadiusIsSqrtComparison | Managers/ProtectionManager.php:177-184 | for the non-negative square root s of the squared distance, `s <= radius` holds exactly when the squared test holds; a negative radius never matches |
| Protections.CloserThanIsSqrtComparison | Managers/ProtectionManager.php:204-212 | for the non-negative square root s of the squared distance, `s < minDistance` holds exactly when the squared test holds |
| Protections.FirstCovering | Managers/ProtectionManager.php:171-188 | null exactly when no claim covers the position; otherwise a claim that covers it, with no earlier claim in insertion order covering it |
| Protections.FirstCoveringIgnoresHeight | Managers/ProtectionManager.php:171-188 | the y coordinate of the position never changes which claim is found |
| Protections.CreatePreservesSeparation | Managers/ProtectionManager.php:95-111 | appending a claim for a new owner at a centre that passed the distance check keeps every pair of claim centres at least the minimum distance apart |
| Protections.RemovePreservesSeparation | Managers/ProtectionManager.php:138 | removing a claim keeps the registry separated |
| Protections.CoveringBothIsTooClose | Managers/ProtectionManager.php:171-215 | two claims covering one position have centres less than the sum of their radii apart, so closer than any minimum distance above that sum |
| Protections.AtMostOneCovers | Managers/ProtectionManager.php:171-215 | in a separated registry, two claims whose radii add up to less than the minimum distance never cover the same position |
| Protections.FirstCoveringIsOnlyCovering | Managers/ProtectionManager.php:171-215 | in a separated registry where every radius is below half the minimum distance, the claim found first is the claim that covers the position, so first match and any match agree |
| Protections.CoveringExample | Managers/ProtectionManager.php:171-215 | a radius-15 claim at (0, 64, 0) covers (10, 70, 3) but not (16, 64, 0) nor any position in another world; a centre 40 blocks away is too close under a 50-block separation, in that world only |
| ActivityLog.Trim | Managers/ProtectionManager.php:249-252 | the capped log is a suffix of the log; a log within the cap is kept whole; otherwise exactly the newest `maxLogs` entries remain, and a cap of 0 keeps all; keys stay distinct |
| ActivityLog.Record | Managers/ProtectionManager.php:233-256 | disabled logging leaves the log alone; otherwise the result is a suffix of the log with the entry written under `now`; keys stay distinct; with a cap of at least 1 the log never exceeds it |
| ActivityLog.RecordFresh | Managers/ProtectionManager.php:239-252 | a new timestamp: the log becomes the last `maxLogs` entries of the old log followed by the new entry, which comes last |
| ActivityLog.RecordUncapped | Managers/ProtectionManager.php:249-252 | with `max_logs` 0 the log only grows: nothing is ever trimmed |
| ActivityLog.RecordAllKeepsMostRecent | Managers/ProtectionManager.php:233-256 | after any run of events with increasing timestamps (at least one event when the starting log exceeds the cap), the log holds exactly the `maxLogs` most recent entries (all, if fewer), oldest first and in increasing time order |
| ActivityLog.RecordAllIsLastN | Managers/ProtectionManager.php:233-256 | with distinct timestamps, repeated `addLog` (from a log within the cap, or with at least one event) equals taking the last `maxLogs` entries of everything written |
| ActivityLog.SameSecondOverwrites | Managers/ProtectionManager.php:239-246 | two events in the same second leave the log as if only the second had been written |
| Managers.ProtectionManager.constructor | Managers/ProtectionManager.php:40-68 | the registry and the log start as the stored arrays, and the saved snapshot equals the registry |
| Managers.ProtectionManager.SaveAllProtections | Managers/ProtectionManager.php:73-76 | the saved snapshot becomes the registry; the registry and the log are unchanged |
| Managers.ProtectionManager.HasProtection | Managers/ProtectionManager.php:151-153 | true exactly when `getProtection` is non-null, i.e. when the owner's key is present |
| Managers.ProtectionManager.GetProtection | Managers/ProtectionManager.php:161-163 | null exactly when the owner has no claim; otherwise the claim stored under the owner's name |
| Managers.ProtectionManager.GetAllProtections | Managers/ProtectionManager.php:222-224 | the registry, with distinct owners, holding exactly the owners `hasProtection` accepts, each with the claim `getProtection` returns |
| Managers.ProtectionManager.GetLogs | Managers/ProtectionManager.php:263-265 | the stored log, with distinct timestamps |
| Managers.ProtectionManager.GetProtectionAt | Managers/ProtectionManager.php:171-188 | the scan returns the first claim in insertion order in the position's world whose radius reaches it, or null |
| Managers.ProtectionManager.IsValidLocation | Managers/ProtectionManager.php:196-215 | true exactly when no claim in the same world has its centre strictly closer than the minimum distance; other worlds and all radii are ignored |
| Managers.ProtectionManager.CreateProtection | Managers/ProtectionManager.php:85-117 | an owner with a claim is refused first; then a centre too close is refused; a refusal changes nothing; success appends the owner's claim last with the position, `now` and the configured radius, saves the registry, logs a creation and keeps the registry separated |
| Managers.ProtectionManager.RemoveProtection | Managers/ProtectionManager.php:125-143 | false and no change when the owner has no claim; otherwise exactly that key is removed, every other owner reads as before, the registry is saved, a removal is logged at the claim's stored world and coordinates, and separation is kept |
| Managers.ProtectionManager.AddLog | Managers/ProtectionManager.php:233-256 | the log becomes `Record` of the old log and the new entry; the registry and the saved snapshot are untouched |
| Commands.ToLower | Commands/MenaCommand.php:57 | same length; each ASCII capital becomes its small letter and every other character stays |
| Commands.ToLowerIgnoresCase | Commands/MenaCommand.php:57 | words equal up to letter case lower-case to the same word |
| Commands.ToLowerIdempotent | Commands/MenaCommand.php:57 | lower-casing twice is lower-casing once |
| Commands.Execute | Commands/MenaCommand.php:46-84 | no permission: refusal and false; no argument: help and false; otherwise true, and a handler other than help only for one of the six subcommand names after lower-casing |
| Commands.ExecuteIgnoresCase | Commands/MenaCommand.php:57-81 | first arguments equal up to case reach the same handler with the same result |
| Commands.ExecuteNamedSubcommand | Commands/MenaCommand.php:57-81 | a subcommand name in any letter case reaches its own handler, and the result is true |
| Commands.SkipSpaces | Commands/MenaCommand.php:212 | the cast skips exactly the leading whitespace: what remains is a suffix that does not start with whitespace |
| Commands.DigitRun | Commands/MenaCommand.php:212 | the longest run of digits at the start of a string |
| Commands.CastToInt | Commands/MenaCommand.php:212 | `(int)` of a string that does not start, after whitespace and an optional sign, with a digit is 0 |
| Commands.CastOfIntToString | Commands/MenaCommand.php:212 | casting the decimal form of any integer gives the integer back |
| Commands.TotalPages | Commands/MenaCommand.php:213-214 | `ceil(n / 10)`: the least page count whose pages of ten hold n entries; zero exactly for an empty log |
| Commands.SelectedPage | Commands/MenaCommand.php:212-218 | the requested page when it lies in 1..total pages, page 1 otherwise; a missing argument requests page 1 |
| Commands.ShowLogs | Commands/MenaCommand.php:204-230 | no page for an empty log; otherwise the page lies in 1..total and holds exactly the entries at stored positions `[(page-1)*10, min(page*10, n))`, oldest first, between one and ten of them |
| Commands.OutOfRangeShowsFirstPage | Commands/MenaCommand.php:216-218 | a page number below 1 or past the last page shows the same as page 1 |
| Commands.NonNumericShowsFirstPage | Commands/MenaCommand.php:212-218 | a non-numeric page argument shows page 1 |
| Commands.RequestedPageIsShown | Commands/MenaCommand.php:212-221 | asking for an existing page by its number shows that page |
| Commands.PagesCoverLog | Commands/MenaCommand.php:213-221 | pages 1 to the last page, put together, give back the whole log exactly once and in order |
| Commands.PagesFromSuffix | Commands/MenaCommand.php:213-221 | pages from p to the last give the log from position (p-1)*10 on |
| Commands.RemoveCommand | Commands/MenaCommand.php:114-138 | usage without a player name; not-found with the registry, log and snapshot unchanged when the player has no claim; otherwise the claim is removed as `removeProtection` promises, and the failure branch is never reached |
| Commands.InfoCommand | Commands/MenaCommand.php:146-158 | usage without a player name; not-found exactly when `getProtection` is null; otherwise the stored claim |

## Left out

- Messages, colours and text rendering are not modelled. This covers `sendMessage`, `getMessage` templates, and `date()` formatting of timestamps. Each handler's reply is a datatype value instead.
- `handleList`, `handleGive` and `handleReload` are reached by `Commands.Execute` but their bodies are not modelled. They list, give an item to an online player, or reload configuration, which is host messaging and inventory work.
- Permissions are a `permitted` flag of `Commands.Execute`. The `menaprotection.give` check inside `handleGive` is not modelled.
- Events/ProtectionListener.php is not part of this model. It is host event glue, and its deny rule is not stated.
- MyPlotIntegration.php, Main.php and build.php are not part of this model. They are a foreign plugin probe, the plugin lifecycle with configuration loading, and packaging.
- Reading and writing the YAML files is file I/O. The claims file is the ghost field `saved`. The log is the field `logs`, as if each `addLog` store were saved immediately, as the source does.
- The current time is the parameter `now`. In `createProtection`, the claim's `created` field and the log timestamp come from two `time()` calls. The model gives both the same second.
- Floating point is not modelled. Distances are compared squared, on integer block coordinates. Float rounding of `sqrt` for very large coordinates is not captured.
- Managers.ProtectionManager.RemoveProtection: the log entry uses the claim's stored world name. The source rebuilds a position through `getWorldByName`. When that world is not loaded and logging is enabled, the host fails while writing the log entry, after the claim is already removed and saved. The model assumes the world is loaded.
- Commands.CastToInt: only leading whitespace, an optional sign and leading digits are modelled. PHP also reads numeric strings with a fraction or an exponent (`"1e1"` casts to 10) and saturates overflow at the platform integer range. The exponent forms can change which page is shown; saturation cannot, since a saturated value and the unbounded one both fall outside the page range and show page 1.
- ActivityLog.RecordAllKeepsMostRecent: requires that timestamps increase, and, for an empty run of events, that the starting log is already within the cap. When two events share a second, `ActivityLog.SameSecondOverwrites` states what happens.
- Managers.ProtectionManager.GetProtectionAt and Managers.ProtectionManager.IsValidLocation: the position's world comes in as the folder name, because `getWorld()->getFolderName()` is host code.
- The class models one thread of control. Concurrent callers are not modelled, since the plugin runs on the server's single main thread.
