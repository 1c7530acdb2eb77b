# Cacti poller core: device availability and sample validators

This project models part of `lib/functions.php` of Cacti, the RRDtool-based
network graphing system, in Dafny, and proves properties of the model.

- **Device availability** (`host_availability.dfy`, module `HostAvailability`).
  `update_host_status` feeds one poll's observed status (Up or Down) into a
  device's record. It keeps a status with hysteresis (Unknown, Down,
  Recovering, Up), driven by the configured `ping_failure_count` and
  `ping_recovery_count`. It also keeps the poll counters, the availability
  percentage, the fail and recovery dates, the last error message and the
  cur/min/max/avg response times. The record is the class `HostRecord`; the
  by-reference probe result `$ping` is the class `Probe`, whose non-numeric
  samples are coerced to 0 in place. The method `UpdateHostStatus` is
  specified against pure transition functions (`DownTransition`,
  `UpTransition`, `PingTime`, `DownError`, `Availability`,
  `IncrementalMean`). The lemmas about those functions prove the hysteresis
  over whole runs of observations, the availability bounds and the running
  mean.
- **Sample validators** (`sample_validators.dfy`, module `SampleValidators`):
  `is_hexadecimal`, `strip_quotes` and `validate_result`. The scans of
  `is_hexadecimal` and of `strip_quotes` (`CutTail`) are loops over the
  sample; they are specified by the predicate `HexGroups` and by
  `CutAtLastMarker`. `validate_result` is specified by the case table
  `Classify`.
- **String helpers** (`string_helpers.dfy`, module `StringHelpers`):
  `title_trim`, `strip_newlines`, `generate_graph_def_name`, `clean_up_name`,
  `clean_up_file_name`, `stri_replace`, `sanitize_cdef`, and the choice rule
  of `generate_graph_best_cf`.
- **PHP built-ins** (`php.dfy`, module `Php`): the parts of `trim`,
  `is_numeric`, `substr_count`, `strtolower`, `strtr`, `explode`, `implode`
  and `strval` that the code above relies on.

Response times and availability are exact `real`s. A probe sample is an
`Option<real>`: `None` stands for a value that `is_numeric` rejects. The
configuration values, the current date (`date('Y-m-d H:i:s')`) and the list of
consolidation functions stored in an RRD file are parameters.

Behaviours of the code worth knowing:

- `is_hexadecimal` accepts the empty or all-blank string, a last group of one
  character ("AB:CD:E") and "A:". A group passes when it holds one hex digit
  anywhere, so "G1" is accepted.
- On the Up-to-Down transition the event count is kept, not reset. With a
  failure count of at least 1, and the device reaching Down from a run of Up
  polls, the kept count equals the failure count; with a failure count of 0
  or less it is the prior count plus one.
- The average response time divides by the number of successful polls
  including this one. With total 5, failed 1, average 2.0 and a new time of
  4.0, the code gives 2.4 (`AverageExample`).
- `validate_result` with delimiters and spaces is valid when the spaces are
  exactly one fewer than the delimiters.

## Model

| member | source | states |
|---|---|---|
| HostAvailability.HostRecord.UpdateHostStatus | lib/functions.php:629-862 | The whole new record after one poll: counters and availability, status, event count and dates from DownTransition/UpTransition, the last error on Down, the coerced samples, cur/min/max/avg times on Up (with min ≤ cur ≤ max), `failed ≤ total` preserved, and the ERROR/NOTICE line the flag produces |
| HostAvailability.HostRecord.ObserveDown | lib/functions.php:642-701 | A Down poll: both counters +1, availability recomputed, the error message chosen by mode, and status, count, flag and fail date following DownTransition |
| HostAvailability.HostRecord.ObserveUp | lib/functions.php:703-792 | An Up poll: total +1, availability recomputed, samples coerced, the response time recorded with min ≤ cur ≤ max and the incremental mean, and status, count, flag and recovery date following UpTransition |
| HostAvailability.HostRecord.NormalizeDates | lib/functions.php:634-640 | Empty fail and recovery dates become "0000-00-00 00:00:00"; other dates are kept |
| HostAvailability.NormalizedDate | lib/functions.php:634-640 | A normalised date is never empty and a set date is unchanged |
| HostAvailability.HostRecord.CountPoll | lib/functions.php:644-646 | Total polls +1, failed polls +1 only for a Down poll, availability recomputed, `failed ≤ total` preserved |
| HostAvailability.Availability | lib/functions.php:646 | Availability lies in [0, 100]; it is 100 with no failure and 0 when every poll failed |
| HostAvailability.AvailabilityMoves | lib/functions.php:705-706 | A Down poll never raises the availability and an Up poll never lowers it |
| HostAvailability.HostRecord.RecordDownError | lib/functions.php:648-665 | The last error of a Down poll is chosen by availability mode, with the SNMP v1/v2-without-community special case |
| HostAvailability.DownErrorSources | lib/functions.php:648-665 | Outside SNMP-only mode the message ends with the ping diagnostic; in the SNMP modes it starts with the SNMP diagnostic unless SNMP is not required; without SNMP it is exactly the ping diagnostic |
| HostAvailability.HostRecord.ApplyDown | lib/functions.php:668-701 | Status, event count, flag and fail date after a Down poll follow DownTransition |
| HostAvailability.DownCases | lib/functions.php:668-701 | From Up: the count grows and the device goes Down with the event exactly when the count reaches the failure count, keeping the count. From Recovering: Down, count 1, no event. From Unknown: Down, count 0. From Down: the count grows. Only Up→Down raises the event |
| HostAvailability.FailDateRule | lib/functions.php:679-688 | The fail date is stamped exactly when Up reaches the threshold with failure count 1, or when the first of several needed failures is seen |
| HostAvailability.Probe.Coerce | lib/functions.php:708-720 | Non-numeric SNMP (ping) samples become 0 in the modes that check SNMP (ping); other samples are untouched |
| HostAvailability.Coerced | lib/functions.php:708-720 | A checked sample is numeric afterwards (0 if it was not); an unchecked one is unchanged |
| HostAvailability.HostRecord.ResponseTime | lib/functions.php:722-740 | The recorded time by mode: the mean of both samples, the SNMP sample, 0, or the ping sample |
| HostAvailability.PingTimeBetweenSamples | lib/functions.php:722-740 | The recorded time is 0 or lies between the samples the mode consults; AVAIL_NONE always gives 0 |
| HostAvailability.HostRecord.RecordTimes | lib/functions.php:743-755 | cur_time is the new time, max and min move only outward so min ≤ cur ≤ max, and the average is the incremental mean over the successful polls |
| HostAvailability.AvgTimeIsRunningMean | lib/functions.php:753-755 | If avg_time was the mean of the earlier successful times, the update makes it the mean of those and the new one |
| HostAvailability.AverageExample | lib/functions.php:754-755 | Total 5, failed 1, average 2.0 and time 4.0 give an average of 2.4 |
| HostAvailability.HostRecord.ApplyUp | lib/functions.php:758-792 | Status, event count, flag and recovery date after an Up poll follow UpTransition |
| HostAvailability.UpCases | lib/functions.php:758-792 | Down becomes Recovering with count 1 and Recovering counts up; either goes Up with count 0 and the event at the recovery count (so a recovery count ≤ 1 takes Down straight to Up); Up and Unknown become Up with count 0 |
| HostAvailability.UpWhileStreaksShort | lib/functions.php:668-689 | From Up, the device stays Up while no streak of failureCount consecutive failures occurs, and its count is the length of the current streak: only consecutive failures add up |
| HostAvailability.DownAtFirstFullStreak | lib/functions.php:668-682 | The device goes Down, with the event, exactly at the poll that completes the first full streak of failures |
| HostAvailability.RecoveringBelowThreshold | lib/functions.php:758-787 | From Down, fewer than recoveryCount consecutive Up polls leave the device Recovering with that many confirmations |
| HostAvailability.UpAtRecoveryThreshold | lib/functions.php:767-780 | From Down, exactly recoveryCount Up polls bring the device Up with a cleared count, and the last one raises the event |
| HostAvailability.StepLandsConsistent | lib/functions.php:642-793 | With thresholds ≥ 1, one poll from any state leaves an Up device below the failure count and a Recovering one between 1 and recoveryCount − 1 |
| HostAvailability.RunKeepsConsistent | lib/functions.php:642-793 | With thresholds ≥ 1, every run keeps an Up device below the failure count and a Recovering one between 1 and recoveryCount − 1 |
| HostAvailability.EventLine | lib/functions.php:823-829 | A line exists iff the flag is set; it is an ERROR iff the device is Down, and an ERROR line ends with the last error |
| HostAvailability.EventSeverityFollowsObservation | lib/functions.php:823-829 | An event raised by a Down poll is always an ERROR, one raised by an Up poll always a NOTICE |
| SampleValidators.IsHexadecimal | lib/functions.php:891-914 | The scan accepts exactly the trimmed strings of HexGroups: two-character chunks holding a hex digit, separated by single ':' |
| SampleValidators.BlankIsHexadecimal | lib/functions.php:892-895 | An empty or all-blank sample is accepted as hexadecimal |
| SampleValidators.HexGroupsLayout | lib/functions.php:895-911 | In an accepted string the indices 2, 5, 8, … hold ':', and a non-empty accepted string never has a length that is a multiple of 3 |
| SampleValidators.JoinedHexPairsAccepted | lib/functions.php:895-911 | Hex-digit pairs joined by ':' (last group one or two digits) are accepted |
| SampleValidators.CutTail | lib/functions.php:874-882 | The backwards scan cuts right after the last digit or 'U', or keeps the string when there is none |
| SampleValidators.StripQuotes | lib/functions.php:868-885 | Whitespace, then quotes, are trimmed; a numeric, hexadecimal or "U" value passes through; anything else is cut after its last digit or 'U' |
| SampleValidators.ValidateResult | lib/functions.php:919-978 | The verdict and the value left behind are the case table Classify: no delimiter and no space ⇒ valid iff numeric, else rewritten to "U"; delimiter and no space ⇒ valid; delimiter and spaces ⇒ valid iff spaces + 1 = delimiters (':' if present, else '!'); spaces only ⇒ valid iff numeric |
| SampleValidators.ClassifyRewritesOnlyToU | lib/functions.php:928-938 | The only rewrite is of an invalid sample, to "U" |
| SampleValidators.ClassifyIdempotent | lib/functions.php:919-978 | Validating the value left behind gives the same verdict and value |
| SampleValidators.NumericSampleIsValid | lib/functions.php:928-931 | A numeric sample is valid and unchanged |
| SampleValidators.DigitSampleIsValid | lib/functions.php:928-931 | A non-empty sample of decimal digits only is valid and unchanged |
| SampleValidators.DigitlessSampleBecomesU | lib/functions.php:928-937 | A sample with no delimiter, space or digit is rewritten to "U" |
| StringHelpers.TitleTrim | lib/functions.php:32-38 | A text within the bound is unchanged; a longer one becomes its first maxLength characters followed by "..." |
| StringHelpers.TitleTrimIdempotent | lib/functions.php:32-38 | Trimming twice with the same bound equals trimming once |
| StringHelpers.StripNewlines | lib/functions.php:430-432 | Same length; each '\n' and '\r' becomes NUL, every other character is kept |
| StringHelpers.StripNewlinesRemovesBreaks | lib/functions.php:430-432 | The result holds no line break; a text without one is unchanged |
| StringHelpers.GraphDefName | lib/functions.php:1346-1356 | One letter a–j per decimal digit of the id, digit d giving the d-th letter |
| StringHelpers.GraphDefNameRoundTrip | lib/functions.php:1346-1356 | Reading the letters back as digits gives the id |
| StringHelpers.GraphDefNameInjective | lib/functions.php:1346-1356 | Different ids get different DEF names |
| StringHelpers.Clean | lib/functions.php:1110-1128 | The three passes leave only allowed characters and never two '_' in a row |
| StringHelpers.CleanUpName | lib/functions.php:1110-1116 | Only letters, digits and single underscores remain |
| StringHelpers.CleanUpFileName | lib/functions.php:1122-1128 | Only letters, digits, '-' and single underscores remain |
| StringHelpers.CleanKeepsAlnum | lib/functions.php:1110-1128 | Every letter and digit of the input is kept, in order |
| StringHelpers.CleanKeepsNameChars | lib/functions.php:1110-1128 | Apart from '_', the result holds exactly the input's allowed characters, in order: letters and digits, and also '-' for file names |
| StringHelpers.CleanJoinsAtSeparatorRun | lib/functions.php:1110-1128 | A run of whitespace and dots between two words of letters and digits becomes exactly one '_' |
| StringHelpers.CleanFixedPoint | lib/functions.php:1110-1128 | A name that is already clean is unchanged |
| StringHelpers.CleanIdempotent | lib/functions.php:1110-1128 | Cleaning a cleaned name changes nothing |
| StringHelpers.StriReplace | lib/functions.php:1093-1104 | The result is `replace` glued between the original-case pieces of the text around the case-insensitive matches |
| StringHelpers.CaseSplitAt | lib/functions.php:1094-1100 | The k-th piece is the stretch of the original text at the offset where explode of the lower-cased text put its k-th piece |
| StringHelpers.CaseSplitLowers | lib/functions.php:1094-1100 | Each piece, lower-cased, is the corresponding piece of explode on the lower-cased text |
| StringHelpers.CaseSplitPieces | lib/functions.php:1094-1100 | No piece holds the needle in any case |
| StringHelpers.CaseSplitWithoutMatch | lib/functions.php:1094-1103 | Without a case-insensitive match the text comes back unchanged |
| StringHelpers.SanitizeCdef | lib/functions.php:2198-2203 | Removing the fourteen characters one after the other equals keeping every other character, in order |
| StringHelpers.SanitizeCdefIdempotent | lib/functions.php:2198-2203 | The result holds none of the dropped characters, and sanitising again changes nothing |
| StringHelpers.GenerateGraphBestCf | lib/functions.php:1255-1275 | The requested CF when the file holds it, else the file's first CF, else AVERAGE (1), and 1 for a non-positive id |
| Php.TrimSet | lib/functions.php:870 | trim returns a stretch of the string with only the given characters before and after it, none at its own ends, and the empty string when every character is given |
| Php.TrimSetUnique | lib/functions.php:870 | Any stretch with only given characters around it and none at its ends is the one trim returns |
| Php.NumericChars | lib/functions.php:930 | A string is_numeric accepts holds a digit and only digits, blanks, signs, '.', 'e' and 'E' |
| Php.CountChar | lib/functions.php:928 | substr_count of one character is at most the length, and 0 exactly when the character is absent |
| Php.Translate | lib/functions.php:431 | strtr of one character replaces exactly that character and keeps the length |
| Php.IndexFrom | lib/functions.php:1094 | The first occurrence of the delimiter at or after a position, or none |
| Php.ExplodeJoin | lib/functions.php:1094 | Joining the pieces of explode with the delimiter gives back the text |
| Php.ExplodePiecesFree | lib/functions.php:1094 | No piece of explode contains the delimiter |
| Php.DecimalDigitsValue | lib/functions.php:1351 | The decimal digits of strval read back as the number |

## Left out

- The database write at lib/functions.php:831-861 is I/O and is not modelled; the method returns the updated record and the event flag instead. As written, that statement has a stray comma before `WHERE` (lib/functions.php:843-844).
- The verbose log lines (lib/functions.php:795-820) and the writing of the event line through `cacti_log` are I/O; the model returns the event line as a value instead.
- `read_config_option` and `date()` are session/database state and the clock; the thresholds and `now` are parameters.
- Floating-point rounding of times and availability is not modelled: the model uses exact reals.
- Availability modes outside the five named constants are not representable; the code sends them down the ping branch, which the model does for every mode that is not AVAIL_NONE or an SNMP mode.
- `is_float` on a string is always false, so its branches in validate_result add nothing and are not modelled.
- Php.IsNumeric: follows the PHP 7 grammar (leading whitespace, sign, decimal digits, point, exponent); hexadecimal and trailing-whitespace forms of other PHP versions are not modelled.
- StringHelpers.CollapseSeparators: `\s` is taken as the ASCII whitespace characters; other whitespace of the regex engine is not modelled.
- StringHelpers.GraphDefName: takes a non-negative id; a negative id (whose '-' has no entry in the lookup table) is not modelled.
- StringHelpers.TitleTrim: takes a non-negative length; PHP's negative-length substr is not modelled.
- StringHelpers.StriReplace: requires a non-empty needle, as explode does.
- StringHelpers.GenerateGraphBestCf: the CFs stored in the RRD file (`get_rrd_cfs`, which runs rrdtool) are a parameter.
- Strings are sequences of characters; PHP byte strings are read as ASCII, and `strtolower` lowers ASCII letters only.
- HostAvailability.HostRecord.UpdateHostStatus: the `$print_data_to_stdout` argument only steers logging and is left out.
- HostAvailability.HostRecord.UpdateHostStatus: requires a stored record with at most as many failed polls as total polls (`Valid`), and preserves it. A record breaking this is not modelled: with failed polls above total polls the code computes a negative availability (lib/functions.php:646), and with failed polls one above total polls its Up path divides by zero (lib/functions.php:754-755).
