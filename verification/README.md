# Clean command of the PHP Telegram games bot, in Dafny

This project models the `/clean` admin command of the bot
(`src/Command/Admin/CleanCommand.php`). The command:

1. picks a staleness threshold: a positive numeric text after the command,
   else the `clean_interval` setting, else one day;
2. asks storage for the stale game sessions;
3. walks them under a time limit:
   - it sends a "typing" signal at most every five seconds;
   - for each stored game that can still run, it edits the game message into
     an "empty session" notice with a *Create* button whose callback data is
     `<game code>;new`, waiting until ten seconds have passed since the
     previous edit;
   - it deletes every visited session and counts the cleaned, edited and
     errored sessions;
4. removes temporary files older than a minute;
5. reports the counts in a fixed sentence.

The modules follow that structure:

- **`SessionSweep`** holds the sweep loop.
  - `Sweep`, its loop `SweepLoop`, one pass `Turn` and the pass body `Advance`.
  - `Visit`, one candidate.
  - `WaitTurn`, the `sleep(1)` throttle.
  - A trace specification:
    - `Run` bundles what a sweep starts from: the candidates, the records and delete count before it, the runnable games, the edit and delete outcomes, `$start_time` and the time limit;
    - `Step` records what happened to one candidate;
    - `Handled` holds the per-candidate rules;
    - `Tally` holds the counters;
    - `StoreAfter` gives the store after the deletes;
    - `Paced` holds the spacing rules.
  - Lemmas on what the counters and the store mean.
- **`Environment`** holds the state the command changes step by step.
  - The clock is a `Clock` class. It is read by `time()`, and `sleep()` advances it.
  - The session storage is a `SessionStore` class over a `map` from inline message id to game code.
- **`TempJanitor`** holds the temporary-directory sweep.
- **`Threshold`**, **`PhpNumeric`** and **`PhpText`** model the threshold resolution, including PHP's:
  - `trim`;
  - `is_numeric` (a character-by-character lexer, proved equal to the numeric-string grammar);
  - `$text > 0` on numeric strings;
  - `empty()`.
- **`Texts`** holds the keyboard, the "Executing…" notice and the summary sentence, with their decoders.
- **`CleanCommand.Execute`** composes the steps in the order `execute()` runs them.

Every `time()` and `strtotime()` call is one `Clock.Time()` reading. How much time passes before each reading is an input (`drift`). The clock keeps a ghost `log` of every reading taken, each paired with the seconds slept in all before it, and a ghost total `slept`. `Clock.Valid()` ties each logged reading to the clock's origin, its own sleep count and the drift of the readings up to it. Every method states exactly which readings it appends to the log, with the sleep count of each, and how many seconds it slept in all: the only sleeps are the throttle's `sleep(1)` calls, one per reading in an edit's `waited` list. The recorded trace names the same readings. So, given the origin, `drift` and the trace's `waited` lists, every recorded reading and every sleep is determined. The outcomes of the calls whose implementation is outside this file are inputs:
- the message edit (`editOk`), indexed by the candidate's position in the list;
- the storage delete (`deleteOk`), indexed by the number of delete calls made before it;
- `unlink` (`unlinkOk`), indexed by the entry's position in the directory listing.

## Model

| member | source | states |
|---|---|---|
| Threshold.Override | src/Command/Admin/CleanCommand.php:45-55 | The override exists exactly when there is a message whose trimmed text is leading whitespace, a well-formed literal with no minus sign and a non-zero mantissa digit, and trailing whitespace. The override is that trimmed text |
| Threshold.ResolveInterval | src/Command/Admin/CleanCommand.php:51-59 | A positive numeric override wins. Otherwise a non-empty `clean_interval` is used as is, and an empty one gives 86400. The result is never empty |
| Threshold.DigitOverrideWins | src/Command/Admin/CleanCommand.php:53-55 | A message of digits, not all zero, overrides whatever is configured |
| Threshold.ZeroDoesNotOverride | src/Command/Admin/CleanCommand.php:53-59 | A message of zeros resolves exactly as no message does |
| Threshold.PositiveTextIsNotEmpty | src/Command/Admin/CleanCommand.php:53-58 | An accepted override is never `empty()`, so the fallback cannot replace it |
| PhpNumeric.NumericIsLiteral | src/Command/Admin/CleanCommand.php:53 | Every string `is_numeric` accepts is leading whitespace, a well-formed literal (sign, digits with an optional dot and at least one digit, optional exponent with digits) and trailing whitespace |
| PhpNumeric.LiteralIsNumeric | src/Command/Admin/CleanCommand.php:53 | Conversely, every such whitespace-literal-whitespace string is accepted, and the scan recovers exactly that literal |
| PhpNumeric.PositiveNumericIsLiteral | src/Command/Admin/CleanCommand.php:53 | `is_numeric($text) && $text > 0` holds exactly when the text is whitespace around a well-formed literal with no minus sign and a non-zero mantissa digit |
| PhpNumeric.DigitsAreNumeric | src/Command/Admin/CleanCommand.php:53 | A non-empty digit string is numeric, and it is greater than zero exactly when one of its digits is non-zero |
| PhpNumeric.PositiveIsNotEmptyString | src/Command/Admin/CleanCommand.php:53-57 | A numeric string greater than zero is neither "" nor "0" |
| PhpText.TrimIdempotent | src/Command/Admin/CleanCommand.php:45 | Trimming an already trimmed text changes nothing |
| PhpText.TrimUntouched | src/Command/Admin/CleanCommand.php:45 | A text that neither starts nor ends with a trimmed character is left as it is |
| PhpText.ParseNatOfNatToString | src/Command/Admin/CleanCommand.php:146 | The decimal text PHP writes for a count reads back as that count |
| PhpText.NatToStringOfParseNat | src/Command/Admin/CleanCommand.php:146 | A canonical digit string is the decimal text of its value |
| PhpText.IntToStringRoundTrip | src/Command/Admin/CleanCommand.php:76 | The decimal text of the time limit, negative or not, reads back as that integer |
| CleanCommand.Execute | src/Command/Admin/CleanCommand.php:34-152 | Ties the run together. It states the threshold passed to the listing (none when the storage class is missing) and `timelimit = max_execution_time - 1`. `start` is the run's first clock reading. The clock log grows by exactly `start`, then the sweep's readings (each candidate's, then the deadline check that stopped it, if one did), then the temp sweep's cutoff readings, each with the seconds slept before it. The run sleeps exactly one second per reading in the throttle loops' `waited` lists, and at no other point. The sweep's guarantees carry over: one delete per handled candidate and no other. With no temporary directory nothing is removed. Otherwise every entry is judged by the temp-file rule against a cutoff read during the run, and `removed` counts the removals. The summary is sent only when there was a message; the "Executing…" notice is always sent. A limit of 1 second or less cleans nothing |
| SessionSweep.Sweep | src/Command/Admin/CleanCommand.php:71-132 | The candidates handled form a prefix of the list. The clock log grows by exactly each handled candidate's readings, in order: its deadline check, the probe, the typing reset, the throttle and edit readings. Each reading is logged with the seconds slept before it: one second per earlier reading in a `waited` list, and no other sleep. If the sweep stopped early, the deadline check that stopped it is the last reading, and that reading is the clock's time when the sweep ends. Each candidate's deadline check reads earlier than `start + timelimit`, at or after every reading of the candidate before it. Each candidate was handled by the rules of `StepFollows` against the records left by the earlier deletes. The sweep stops only on a reading at or past the deadline, or when the list is done. A delete is made for every handled candidate and for no other. The store is the old one less the successful deletes, and the counters are the tally of the outcomes. Each step's "typing" signal and edit follow the rules against the values `$chat_action_start` and `$last_request_time` had at that point. From that, `Paced` holds: each edit is let through more than 10 s after the previous edit returned, and typing signals are more than 5 s apart. When the run starts later than 5 s after the epoch, the first candidate gets a signal. When its first reading is past 10, the first edit has an empty `waited` list, so the log gives its readings the same sleep count as the probe before it: it does not sleep |
| SessionSweep.Advance | src/Command/Admin/CleanCommand.php:82-132 | One loop pass after a deadline check that read `t`. It handles exactly one more candidate, checked at `t`, and appends that candidate's readings to the clock log, each with its sleep count. It sleeps exactly the seconds of that candidate's throttle loop. It keeps the loop invariant `Swept` (rules, tally, timers), together with the store and delete-count correspondence |
| SessionSweep.SweepLoop | src/Command/Admin/CleanCommand.php:82-132 | The `foreach` with its deadline `break`. It stops on a deadline reading exactly when the list is not done, and that reading is at or after every reading of the last candidate handled. It keeps the loop invariant `Swept`, the store and delete-count correspondence, and the clock log: each handled candidate's readings, then the deadline reading, with their sleep counts |
| SessionSweep.Turn | src/Command/Admin/CleanCommand.php:82-132 | One pass: the deadline check. At or past `start + timelimit` it stops on that reading, appends only it to the log and handles nothing. Otherwise it handles exactly the next candidate, appends its readings and keeps `Swept` |
| SessionSweep.Visit | src/Command/Admin/CleanCommand.php:88-131 | For one candidate, the clock log grows by exactly the readings recorded in the step: first the `strtotime` probe, then the typing reset, then the throttle and edit readings. The probe and the typing reset come with no sleep, and the clock sleeps one second per reading in the edit's `waited` list and at no other time. A "typing" signal is sent exactly when `chat_action_start` is less than the probe minus 5, and the window is reset to a later reading. The record is looked up. An edit happens exactly for a stored code whose game can run. It carries the recreate keyboard, goes out more than 10 s after the previous edit, and `last_request_time` is reset to a reading after it. One delete is always attempted, and on success exactly that record goes |
| SessionSweep.WaitTurn | src/Command/Admin/CleanCommand.php:101-104 | The clock log grows by exactly the readings that made it sleep, then the one that let the edit through. One second is slept after each of the former and nowhere else, and the log records that. The last reading is more than 10 s after `last_request_time`. No sleep happens exactly when the first reading already passes, and the first reading is the clock's next drift step after the call |
| SessionSweep.Ping | src/Command/Admin/CleanCommand.php:88-91 | The probe is the next clock reading. A typing signal is sent exactly when `chat_action_start` is less than the probe minus 5; then the clock is read once more and that reading becomes the new window start. Nothing else is read, and nothing is slept |
| SessionSweep.EditTurn | src/Command/Admin/CleanCommand.php:101-116 | The throttle loop's readings, the reading the edit went out on and the reading stored in `$last_request_time`, exactly in the order the log records them, each with its sleep count. The clock slept one second per throttle reading and no more. The first throttle reading is the clock's next drift step after the call. The edit carries the recreate keyboard and goes out more than 10 s after the previous `$last_request_time` |
| SessionSweep.HandledIsPaced | src/Command/Admin/CleanCommand.php:71-116 | From the per-step rules of every handled trace: edits are spaced more than 10 s from the previous edit's return, typing signals more than 5 s apart, and the first candidate signals when the run starts after 5 s. The first edit, while `$last_request_time` is still 0, does not sleep when its first reading is past 10 |
| SessionSweep.TimersBound | src/Command/Admin/CleanCommand.php:88-116 | `$chat_action_start` and `$last_request_time` are at or after every signal and every edit made so far |
| SessionSweep.HandledAt | src/Command/Admin/CleanCommand.php:82-131 | Every handled candidate, at its own position, was checked before the deadline and handled by the rules |
| SessionSweep.ChecksFollow | src/Command/Admin/CleanCommand.php:82-83 | Each candidate's deadline check reads at or after every reading taken for any earlier candidate |
| SessionSweep.LateFinishEndsSweep | src/Command/Admin/CleanCommand.php:83-85 | When a later candidate was handled, every reading of an earlier one came before the deadline. So a candidate whose handling reads the deadline or later is the last one handled |
| SessionSweep.TracePrefix | src/Command/Admin/CleanCommand.php:82 | The readings of the first `k` candidates come first in the readings of the whole sweep |
| SessionSweep.TallyCounts | src/Command/Admin/CleanCommand.php:79-81 | `cleaned`, `edited` and `error` are exactly the numbers of successful deletes, successful edits and failed edits. `edited + error` is the number of edits made |
| SessionSweep.TallyBounds | src/Command/Admin/CleanCommand.php:118-131 | `cleaned <= processed` and `edited + error <= processed` |
| SessionSweep.StoreAfterRemoves | src/Command/Admin/CleanCommand.php:128-131 | After the sweep, the store is the one before it less exactly the sessions whose delete succeeded |
| SessionSweep.EditsOnlyForRunnable | src/Command/Admin/CleanCommand.php:95-125 | An edit is made for a candidate if and only if its record carries a game code whose game can run. Other records are deleted without an edit and without an error |
| SessionSweep.RemovedSessionNotEditedAgain | src/Command/Admin/CleanCommand.php:95-131 | A session deleted earlier in the sweep is found without a code if listed again, so it is not edited a second time |
| Environment.Clock.Time | src/Command/Admin/CleanCommand.php:74 | A reading of the clock never goes backwards. It is appended to the log together with the seconds slept so far, and it sleeps nothing. The log stays consistent with the clock: every logged reading is the origin, plus its own logged sleep count, plus the drift of the readings up to it |
| Environment.Clock.Sleep | src/Command/Admin/CleanCommand.php:103 | `sleep(n)` advances the clock by exactly `n`, adds `n` to the seconds slept, and takes no reading |
| Environment.SessionStore.Select | src/Command/Admin/CleanCommand.php:95-97 | A game code is found exactly when the record exists and carries one |
| Environment.SessionStore.Delete | src/Command/Admin/CleanCommand.php:128 | On success the record is gone and nothing else changes; on failure the records are untouched |
| TempJanitor.TempSweep | src/Command/Admin/CleanCommand.php:134-143 | No directory means zero removed. Otherwise each entry is judged by the rule, against a cutoff of `time() - 60` read while the sweep ran, and `removed` counts the removed entries. The clock log grows by exactly one cutoff reading per plain file, in listing order, and nothing is slept |
| TempJanitor.RemovedAreFiles | src/Command/Admin/CleanCommand.php:137-139 | Only plain files (not directories, not dot entries) that are older than the cutoff and whose unlink succeeded are counted, so `removed` never exceeds the number of entries |
| TempJanitor.StaleFilesGo | src/Command/Admin/CleanCommand.php:137-139 | A plain file already stale when the sweep began goes whenever its unlink succeeds. A file touched within the minute before the sweep ended stays |
| Texts.RecreateKeyboard | src/Command/Admin/CleanCommand.php:161-177 | One row of exactly one button labelled "Create". For a code without `;`, its callback data splits into that code and `new` |
| Texts.RecreateKeyboardInjective | src/Command/Admin/CleanCommand.php:168 | Different game codes get different keyboards |
| Texts.SplitCallbackOf | src/Command/Admin/CleanCommand.php:168 | Callback data `code;action`, with a code free of `;`, splits back into that code and action |
| Texts.ExecutingText | src/Command/Admin/CleanCommand.php:76 | The notice starts with "Executing... (time limit: " and ends with " seconds)" |
| Texts.ExecutingTextInjective | src/Command/Admin/CleanCommand.php:76 | Different time limits give different notices |
| Texts.SummaryRoundTrip | src/Command/Admin/CleanCommand.php:146 | The summary sentence reads back as the cleaned, edited, errored and removed counts, in that order |
| Texts.SummaryInjective | src/Command/Admin/CleanCommand.php:146 | Different counts give different summary sentences |

## Left out

- Telegram calls are not modelled. This covers sending messages, the chat action, the message edit and the empty response. Only their outcomes are inputs, and the notice and summary texts are the modelled replies.
- The edit's HTML text is not modelled: the game title, the translated "This game session is empty." and `parse_mode`. The edit keeps only its timing and keyboard.
- The chat id is not modelled.
- `__()` is not modelled: labels are kept untranslated ("Create").
- `Debug::log` is not modelled.
- `set_time_limit(90)` and `ini_get('max_execution_time')` are reduced to the `ceiling` input.
- Real time is not modelled. How much time passes between clock readings is the `drift` input.
- Storage internals are not part of this model:
  - `listFromStorage`, including its staleness filter, is an input function of the threshold;
  - `class_exists($storage)` is a boolean input;
  - a stored record is reduced to its `game_code`;
  - whether a delete succeeds is the `deleteOk` input, per delete call.
- The `Game` class and its `canRun()` and `getTitle()` are not part of this model. Games that can run are the `runnable` set of game codes.
- `DirectoryIterator`, `is_dir` and `unlink` are reduced to a listing of entries (`None` when there is no directory) and the `unlinkOk` input per entry.
- `getText(true)`'s removal of the command word is not modelled. The message text is taken after that removal.
- Threshold.Override: does not model float overflow or underflow in `$text > 0`. A numeric string counts as positive when it has no minus sign and one of its mantissa digits is non-zero, so "1e-400", which PHP rounds to 0.0, counts as positive here.
- Threshold.ResolveInterval: configuration values are null, booleans, integers and strings. Floats and arrays are left out, and a string override is passed on as a string, as PHP does.
- `PHP_EOL` is taken to be "\n".
- PhpNumeric.IsNumeric: follows PHP 8's numeric strings, where trailing whitespace is allowed. Under PHP 7 a string such as "5\f" (form feed, which `trim` keeps) is not numeric, but here it is.
- With a `max_execution_time` of 0 (no limit), `timelimit` is -1 and no candidate is swept. The model keeps that behaviour (`Execute` ensures nothing is cleaned when `ceiling <= 1`) rather than treating 0 as unlimited.
