# Telegram Sender, modelled in Dafny

This project models the logic under the Tkinter window of a small Telegram bulk-sender. It covers:

- how recipients are collected from a CSV file and from pasted text;
- the three-step validation before sending;
- the append-only CSV send log;
- the batch-send loop;
- parsing a schedule time and computing the timer delay;
- the decisions the window's buttons make.

Each source file is one Dafny module. A module imports the ones it depends on.

| file | module | source |
|---|---|---|
| `wrappers.dfy` | `Wrappers` | `Option` and `Result` |
| `pytext.dfy` | `PyText` | Python's `str.isspace`, `str.strip()`, `str.splitlines()` and `"\n".join` |
| `utils.dfy` | `Utils` | `utils.py` |
| `scheduler.dfy` | `Scheduler` | `scheduler.py` |
| `sender.dfy` | `Sender` | `sender.py` |
| `app.dfy` | `App` | `app.py` |

Modelling choices:

- **Text.** Strings are sequences of Unicode code points. `strip()` removes exactly the characters for which `str.isspace()` holds. `splitlines()` splits at every line boundary Python recognises, and `"\r\n"` counts as one boundary.
- **CSV input.** A CSV file arrives already tokenised, the way `csv.DictReader` yields it: a header (`None` when the file is empty) and one map per row.
  - A row shorter than the header holds `None` for its missing trailing cells (the reader's `restval`). When the `chat_id` cell is one of them, `row.get("chat_id", "").strip()` raises, so loading stops with `ChatIdCellMissing`. A row that is short only in columns after `chat_id` keeps its cell and loads normally.
  - A missing header makes the `"chat_id" not in reader.fieldnames` test raise, modelled as `NoHeader`.
- **Send log.** The file system is a `LogStore` object. It maps each existing path to the rows of that file.
- **Sending.** The transport is an oracle: `server(k)` is what the k-th `send_message` of a batch does. It returns (`Delivered`), raises telethon's `RPCError` (`RpcError`), or raises anything else (`OtherError`).
- **Timestamps.** Log timestamps come from an oracle, `clock(k)`.
- **What a batch does.** The batch's effects are recorded, in order, as a ghost timeline of `Attempt`, `Pause` and `Logged` events.
- **Parsing the schedule time.** `datetime.strptime(text, "%Y-%m-%d %H:%M")` is modelled through the regular expression `strptime` compiles. That includes:
  - one-digit and space-padded fields;
  - any run of whitespace for the space;
  - the "unconverted data remains" error;
  - the date check that follows the match.
- **Time zones.** A datetime's `tzinfo` is `Naive` or a `Zone` with its key and its offset from UTC; `ASIA_SEOUL` is `Zone("Asia/Seoul", 9 * 3600)`. The reading of `now` is always in Asia/Seoul (scheduler.py:21).
- **Delay arithmetic.** As Python subtracts datetimes: a target with the same zone subtracts as a wall-clock time, a target with another zone is compared after both are converted to UTC, and a naive target raises `TypeError` (`None` from `Delay`, and no timer). Times are counted from the proleptic Gregorian ordinal, in whole seconds.
- **Window handlers.** Each handler returns an `Action`: what it would show or start.
  - A warning box is `Rejected(reason)`.
  - `_send(recipients, message)` is `SendNow`.
  - A test send is `SendTest`.
  - A registered timer is `Scheduled`. It is also appended to the app's `Timers` object, as a `Job` that captures the recipients and the message.

**No retry in the batch loop.** sender.py has no retry of its own. Whatever `client.send_message` raises as an `RPCError` is logged as `"failed"`, and the loop moves on to the next recipient. That includes a rate-limit error that reaches the loop. `Sender.BatchAttempts` proves that the loop calls `send_message` at most once per recipient. Any sleeping and re-sending that the client library does inside one `send_message` call is part of what the oracle `server(k)` answers (see "Left out").

## Model

| member | source | states |
|---|---|---|
| `PyText.Strip` | utils.py:23 | `s.strip()` neither starts nor ends with whitespace, and is empty exactly when `s` is whitespace only |
| `PyText.StripTrims` | utils.py:23 | `s.strip()` is `s` with a whitespace prefix and a whitespace suffix removed; with `Strip`'s own contract (no whitespace at either end) this means exactly the surrounding whitespace is removed |
| `PyText.SplitLinesRebuild` | utils.py:23 | the lines `splitlines()` returns, each followed by its boundary, give back the text: no line holds a line-break character, `"\r\n"` is one boundary, empty lines are kept, and a final boundary does not start an empty last line |
| `PyText.LinesOfUnique` | utils.py:23 | any cut of the text with those properties is the one `splitlines()` returns, so the lines are determined by the text |
| `PyText.SplitJoinLines` | utils.py:23 | splitting the newline-join of non-empty, boundary-free lines gives back exactly those lines |
| `Utils.StrippedNonBlank` | utils.py:23 | the comprehension keeps only non-empty, stripped values and never lengthens the list |
| `Utils.StrippedNonBlankMembers` | utils.py:23 | every non-blank line appears in stripped form, and every result is the stripped form of some line |
| `Utils.StrippedNonBlankAppend` | utils.py:23 | the filter works line by line: its result on `a + b` is its result on `a` followed by its result on `b`, so the original order is kept |
| `Utils.StrippedNonBlankFixed` | utils.py:23 | values that are already stripped and non-empty pass through unchanged |
| `Utils.ParseChatIds` | utils.py:22-23 | every chat id is non-empty, stripped and on one line; there are no more ids than lines |
| `Utils.ParseChatIdsIdempotent` | utils.py:22-23 | parsing the newline-joined ids again gives the same list |
| `Utils.EnsureRecipientLimit` | utils.py:26-27 | `(len <= limit, len)`: within the limit exactly when the list is no longer than it, and the count is the length |
| `Utils.ChatIdCells` | utils.py:15-16 | when no row lacks its `chat_id` cell there is one cell per row, in row order |
| `Utils.CsvRecipients` | utils.py:9-14 | a file without a header fails with `NoHeader`; a header without `chat_id` fails with `MissingChatIdColumn` |
| `Utils.RowsRecipientsSpec` | utils.py:15-19 | past the header check, loading fails exactly when some row's `chat_id` cell is missing (`None`); otherwise it yields the stripped, non-empty `chat_id` cells in row order, duplicates kept |
| `Utils.MissingCellAbortsLoad` | utils.py:15-16 | a row whose `chat_id` cell is missing stops the whole load, whatever rows follow it |
| `Utils.LoadRecipientsFromCsv` | utils.py:9-19 | the header checks, then the loop that appends each kept id, compute exactly `CsvRecipients` |
| `Utils.AppendRowsSpec` | utils.py:30-42 | n appends to a missing file give the header plus the n rows; to an existing file, its old rows plus the n rows; the header is written once and only when the file was missing |
| `Utils.AppendAllSpec` | utils.py:30-42 | after any number of `append_log` calls on one path, that file holds what `AppendRowsSpec` says and every other file is as it was |
| `Utils.LogStore.AppendLog` | utils.py:30-42 | one call changes only the file at `log_path`: a missing file becomes header plus row, an existing one gains the four-field row |
| `Scheduler.MatchYearMonth` | scheduler.py:17 | a match of `%Y-%m-` is four digits, a dash, a month token (`1[0-2]`, `0[1-9]` or `[1-9]`) and a second dash, and the values returned are the year and month written there; the day starts right after the second dash |
| `Scheduler.YearMonthFound` | scheduler.py:17 | whenever `%Y-%m-` matches the start of the text, the matcher finds that match and returns the year and month written |
| `Scheduler.MatchTime` | scheduler.py:17 | a match of ` %H:%M` starts with at least one whitespace character, then an hour token, a colon and a minute token, and the values returned are the hour and minute written there |
| `Scheduler.TimeMatchFound` | scheduler.py:17 | whenever ` %H:%M` matches, the matcher finds that match and returns the hour and minute written, taking two minute digits whenever `[0-5]\d` matches |
| `Scheduler.DayFound` | scheduler.py:17 | whenever the day pattern (`3[01]`, `[12]\d`, `0[1-9]`, `[1-9]` or a space and `[1-9]`) matches, the matcher returns the day written |
| `Scheduler.MatchDay` | scheduler.py:17 | a match of `%d` is a space and `[1-9]`, or a whole run of digits forming `3[01]`, `[12]\d`, `0[1-9]` or `[1-9]`; the value returned is the day written there, 1 to 31 |
| `Scheduler.MatchMinute` | scheduler.py:17 | `%M` matches exactly when a digit comes next; it takes two digits when `[0-5]\d` matches and one otherwise, and returns the minute written there, 0 to 59 |
| `Scheduler.MatchFormat` | scheduler.py:16-17 | a successful match ends inside the text, with month 1-12, day 1-31, hour 0-23, minute 0-59 and a four-digit year |
| `Scheduler.ParseScheduleTime` | scheduler.py:16-17 | a parsed time is a valid date and time, with zero seconds and the Asia/Seoul zone attached |
| `Scheduler.ParseWritten` | scheduler.py:16-17 | a text that matches the whole pattern in any of its forms (one-digit or space-padded fields, any run of whitespace) parses to exactly the fields written, or fails with `DateOutOfRange` when that day does not exist |
| `Scheduler.ParseAccepted` | scheduler.py:16-17 | every parsed time is the fields written in a text that matches the whole pattern |
| `Scheduler.ParseFormatRoundTrip` | scheduler.py:16-17 | the zero-padded text of any valid time parses back to that time: the fields are the ones written and the zone is attached, not converted |
| `Scheduler.ParseRejectsTrailingData` | scheduler.py:16-17 | any non-empty text after the zero-padded text of a valid time is rejected as unconverted data, carrying exactly that text |
| `Scheduler.DaysBeforeYearStep` | scheduler.py:22 | the ordinal of January 1 advances by 366 days after a leap year and by 365 days otherwise |
| `Scheduler.WallSecondsMonotone` | scheduler.py:22 | a strictly later wall-clock time has strictly more seconds since the ordinal epoch |
| `Scheduler.Delay` | scheduler.py:20-22 | a naive target, and only a naive one, raises `TypeError`; with a target in Seoul's zone the delay is the wall-clock `target - now` in seconds, positive when the target is later, and 0 when the target is now or past |
| `Scheduler.FiringTime` | scheduler.py:21-22 | for a target in any zone, now plus the delay is the later of the two instants in UTC: the job fires at the target's instant, or at once |
| `Scheduler.DelayAcrossZones` | scheduler.py:22 | a target of 10:00 UTC seen from 09:00 in Seoul is 36000 seconds away: the zones are converted, not ignored |
| `Scheduler.Timers.ScheduleSend` | scheduler.py:20-25 | a naive target raises before any timer starts and registers nothing; any other target registers and returns exactly one job carrying the clamped delay and the given function and arguments |
| `Sender.SingleResult` | sender.py:13-22 | a returning send is `("success", "")`; an RPCError is `("failed", str(exc))`; any other exception propagates |
| `Sender.SendSingle` | sender.py:13-22 | one attempt; the pause follows it unless the send raised something other than RPCError |
| `Sender.FirstRaise` | sender.py:40-43 | the index of the first send raising something other than RPCError, or the count of sends when there is none |
| `Sender.SendAndLog` | sender.py:40-43 | one iteration of the loop: the send to the i-th recipient, then, unless it raised, its row appended to the log, which extends the results, the events and the log by that recipient alone |
| `Sender.SendBatch` | sender.py:25-44 | the batch returns or raises `BatchResult`, and its events are `BatchTimeline`; the files afterwards are the old ones with exactly `BatchRows` appended to the log, even when the batch aborts |
| `Sender.SendMessages` | sender.py:47-74 | the delay, log path and callback default as in sender.py; with no code callback it fails with the ValueError text, and nothing is sent or logged; otherwise it returns the batch's results or the text of the exception that stopped it, with the batch's events and log |
| `Sender.ResultsAt` | sender.py:39-44 | one result triple per recipient, in input order, with that recipient's status and error text |
| `Sender.LogRowsAt` | sender.py:41-42 | the k-th log row of the batch records the k-th result triple |
| `Sender.TimelineAt` | sender.py:40-43 | recipient k is attempted, then paused after, then logged, all before recipient k+1 is attempted |
| `Sender.TimelineCounts` | sender.py:21 | after n completed recipients, the attempts are the first n recipients in order, and there are exactly n pauses |
| `Sender.BatchAttempts` | sender.py:13-43 | no retry: each recipient up to the one that raised is attempted exactly once, in order; every completed attempt is followed by one pause |
| `App.Dedupe` | app.py:80 | `list(dict.fromkeys(xs))` has no duplicates and exactly the elements of `xs` |
| `App.DedupeOrder` | app.py:80 | the de-duplicated list is in order of first occurrence in the input |
| `App.DedupeAppend` | app.py:79-80 | the loaded ids come first, in their own de-duplicated order; everything after them is pasted and was not loaded |
| `App.Collect` | app.py:77-81 | the collected list has no duplicates and holds exactly the loaded ids and the pasted ids |
| `App.Validate` | app.py:83-94 | rejects an empty list, then more than 50 ids with the count, then a whitespace-only message; accepts exactly when 1 to 50 ids and a message that is not blank |
| `App.CountSuccess` | app.py:103 | the success count never exceeds the number of results |
| `App.Summarize` | app.py:96-105 | an exception is shown as its text; otherwise sent plus failed equals the number of results |
| `App.CountSuccessResults` | app.py:103 | the "Sent" count of a batch's results is the number of sends that returned normally |
| `App.BatchReport` | app.py:103-105 | after a batch that ran to the end, the report counts the sends that returned as sent, and every RPCError as failed |
| `App.TestReport` | app.py:125-131 | a test send is reported as a success exactly when the status is `"success"`; otherwise as `Failed:` with the error text, or as the exception's text |
| `App.SenderApp.LoadCsv` | app.py:65-75 | a cancelled dialog, an unreadable file or a bad CSV leaves the recipient list as it was; a good file replaces the list, it does not merge |
| `App.SenderApp.HandleImmediateSend` | app.py:107-112 | sends exactly when validation passes, to exactly the collected list; otherwise shows the first failing check |
| `App.SenderApp.HandleTestSend` | app.py:114-122 | a blank chat id is rejected first, then a blank message; otherwise one test send to the stripped chat id |
| `App.SenderApp.HandleScheduleSend` | app.py:133-149 | the time is parsed first, so a bad time is rejected whatever the recipients; then validation; only when both pass is exactly one job registered, with the delay to the parsed Seoul time, capturing the collected list and the message |
| `App.ImmediateSendIsValid` | app.py:107-112 | a send the window starts always goes to 1 to 50 distinct ids, exactly the loaded and pasted ones, with a message that is not blank |

## Left out

- Telethon's own handling of rate limits is not modelled. With its default `flood_sleep_threshold` of 60 seconds, `send_message` sleeps through a short flood wait and sends again by itself. Only longer waits raise an error that reaches the batch loop. This is all inside the oracle's answer `server(k)`. So `Sender.BatchAttempts` counts `send_message` calls, not network requests.
- The Telethon client is not modelled. That covers the `TelegramClient` session, the login handshake (`client.start` with phone, password and code callback) and `asyncio.run` (sender.py:37-38, 61-74). Each send is an outcome oracle instead.
- `asyncio.sleep` is not timed. The pause is only a recorded `Pause(delay)` event.
- `threading.Timer` never fires in the model (scheduler.py:23-24). Scheduling appends a `Job` to the pending list.
- The current time is a parameter `now`, not a call to `datetime.now(ASIA_SEOUL)`; like that call's result it must carry the Asia/Seoul zone. Its microseconds and the float `total_seconds()` are left out.
- Log timestamps come from an oracle, not from `datetime.now().strftime(...)`.
- `Scheduler.Delay`: the delay is in whole seconds, not the float of `total_seconds()`.
- `Scheduler.Delay`: a zone is one fixed offset from UTC. The daylight-saving rules and historical offsets that `zoneinfo` looks up for each date are not modelled; Asia/Seoul has kept +09:00 since 1988. Two `tzinfo` objects count as the same zone when they are equal values, where Python asks for the same object; for fixed offsets both give the same delay (`Scheduler.FiringTime`).
- `Utils.LogStore.AppendLog` never fails. An `OSError` from `append_log` (sender.py:42) would end the batch and lose the remaining recipients; opening and writing files is not modelled.
- Only ASCII digits are modelled. Python's `strptime` pattern uses `\d`, which also matches other Unicode decimal digits.
- CSV tokenising (quoting, dialects), opening files and their encoding are not modelled. Rows arrive as maps. An error opening the chosen file is an input of `LoadCsv`.
- `App.SenderApp.LoadCsv`: a bad CSV is reported with the model's error value (`NoHeader`, `MissingChatIdColumn`, `ChatIdCellMissing`), not with the exception text the error box shows.
- The Tk widgets, the message-box texts and `mainloop` are not modelled (app.py:18-63, 152-159). Each handler returns an `Action`, and the warning it would show is a `Warning` value.
- app.py imports `load_bot_token` and `send_test_message`, which utils.py and sender.py do not define. It also calls `send_messages(token, ...)` with a signature sender.py does not have. The handlers therefore stop at the decision to send (`SendNow`, `SendTest`), and `LOG_PATH` (app.py:14), which only those calls use, is not carried. `_send` is modelled as `Summarize` over the batch's result, and the test send as `TestReport` over its result.
- `send_messages` passes its client parameters (API id and hash, phone number, password, session name) only to the client, so the model does not carry them.
- The shell `git apply` wrapper around scheduler.py is not part of this model (scheduler.py:1-7, 26-28).
