# TikTok streak bot: a verified model of its decision logic

The bot sends a short direct message once a day to every account on a list, so the
"streak" with each account goes on. A daily run signs in by loading the browser
cookies exported to `cookies.json`. Then every handle listed in `list.txt` gets up to
three attempts: open the profile, deal with a captcha, find and click the Message
button, find the message box, type and send. A scheduler loop triggers the run at
`SEND_TIME` and prints a heartbeat every 15 minutes.

This project models the parts of that program that make decisions, with every
browser, clock and file answer as an input:

- `users.dfy`: the account-list filter of `load_users`.
- `batch.dfy`: the retry and counter loop of `run_streak_bot`. The outcome of each
  attempt comes from an oracle set `delivered`.
- `schedule.dfy`: the send time, the next-run rule and its hours-and-minutes
  countdown, over integer seconds. It also holds the heartbeat as a class that
  updates `last_check`.
- `dom.dfy`, `locate.dfy`, `captcha.dfy`: the ordered "first success wins" searches.
  A page is a function from a named locator to its lookup result. The selector
  texts are kept verbatim in `Dom.Query`.
- `workflow.dfy`: `send_streak_to_user` as the composition of those searches.
- `json.dfy`, `pyint.dfy`, `cookies.dfy`: the translation of cookie-file records into
  the dictionaries given to Selenium's `add_cookie`, and Python's `int()` on the JSON
  values it meets.
- `text.dfy`, `wrappers.dfy`: Python's `strip`, `lstrip`, `lower` and `in` on strings,
  and `Option`.

Loops in the source are methods with loops, each proved against a specification
function. The properties of those functions are proved as lemmas.

## Model

| member | source | states |
|---|---|---|
| Users.LoadUsers | tiktok_auto_forward.py:89 | the list comprehension never yields more entries than there are lines |
| Users.LoadUsersAppend | tiktok_auto_forward.py:89 | loading a concatenation of files is the concatenation of the loads: lines are handled independently and in order |
| Users.LoadUsersMembers | tiktok_auto_forward.py:89 | every entry comes from a kept line, and every kept line contributes its entry |
| Users.LoadUsersHandles | tiktok_auto_forward.py:89 | no entry starts with `@` or ends with whitespace |
| Users.EntryShape | tiktok_auto_forward.py:89 | an entry (`strip()` then `lstrip('@')`) is empty or starts with a non-`@` and ends with a non-space |
| Users.LineWithStrip | tiktok_auto_forward.py:89 | a line is kept iff it is non-blank after `strip()` and its unstripped first character is not `#`; its entry is the stripped text with all leading `@` removed |
| Users.StripMarkers | tiktok_auto_forward.py:89 | `lstrip('@')` removes any run of leading `@` and nothing after it |
| Users.PlainLine | tiktok_auto_forward.py:89 | a plain handle line with its newline is kept as the handle |
| Users.MarkedLine | tiktok_auto_forward.py:89 | a line `@handle` is kept as `handle` |
| Users.LoadUsersSingle | tiktok_auto_forward.py:89 | a one-line file yields that line's entry exactly when it is kept |
| Users.LoadUsersScenario | tiktok_auto_forward.py:89 | a plain handle, a comment, a blank line and an `@` handle give the two handles, in order |
| Users.LoadUsersLoneMarker | tiktok_auto_forward.py:89 | a line holding only `@` yields an empty handle |
| Users.LoadUsersIndentedComment | tiktok_auto_forward.py:89 | an indented `  #x` is kept, as `#x` |
| Users.LoadUsersBlankLine | tiktok_auto_forward.py:89 | a whitespace-only line is dropped |
| Users.LoadUsersSpaceAfterMarker | tiktok_auto_forward.py:89 | `@@ bob` yields ` bob`: the space after the markers is kept |
| Text.StripLeftSpec | tiktok_auto_forward.py:89 | `lstrip()` keeps a suffix, removes only whitespace and leaves no leading whitespace |
| Text.StripRightSpec | tiktok_auto_forward.py:89 | `rstrip()` keeps a prefix, removes only whitespace and leaves no trailing whitespace |
| Text.StripSpec | tiktok_auto_forward.py:89 | `strip()` yields a contiguous part of the line that neither starts nor ends with whitespace |
| Text.StripLeftCharSpec | tiktok_auto_forward.py:89 | `lstrip('@')` keeps a suffix, removes only `@` and leaves no leading `@` |
| Text.StripLeftCharIdempotent | tiktok_auto_forward.py:89 | stripping the markers twice changes nothing |
| Text.StripAround | tiktok_auto_forward.py:89 | whitespace around a text without whitespace at its ends is exactly what `strip()` removes |
| Text.LowerSpec | tiktok_auto_forward.py:197-198 | `lower()` keeps the length and folds each character |
| Text.LowerIdempotent | tiktok_auto_forward.py:197-198 | lowercasing twice is lowercasing once |
| Text.Contains | tiktok_auto_forward.py:198 | `needle in haystack` holds iff the needle occurs at some position |
| Batch.AttemptsFrom | tiktok_auto_forward.py:436-447 | from attempt a on, the number of calls is at least one more than a and at most `MAX_RETRIES`; every call before the last failed; the last succeeded or was call number `MAX_RETRIES` |
| Batch.SuccessCount | tiktok_auto_forward.py:432-438 | at most as many successes as entries |
| Batch.SendWithRetries | tiktok_auto_forward.py:436-447 | the inner loop reports success exactly when some attempt succeeds, and emits exactly the attempt, retry and verdict events of the specification |
| Batch.RunStreakBot | tiktok_auto_forward.py:418-453 | an empty list reports "no users"; otherwise `success_count` counts the succeeding entries, `success_count + fail_count == len(users)`, the event log is the specification's, entry by entry, and it holds exactly `success_count` SUCCESS lines and `fail_count` FAILED lines |
| Batch.AttemptsOutcome | tiktok_auto_forward.py:436-447 | each entry gets 1 to 3 attempts and stops at the first success; an entry succeeds iff its last attempt does; a failing entry used all 3 |
| Batch.SucceedsSpec | tiktok_auto_forward.py:436-440 | an entry succeeds iff one of its attempts below `MAX_RETRIES` succeeds |
| Batch.UserLogShape | tiktok_auto_forward.py:436-447 | one entry's events are its failed rounds (attempt, retry) followed by the deciding attempt and its verdict |
| Batch.FailedRoundsAt | tiktok_auto_forward.py:442-444 | the k-th failed round is a failed attempt then the retry numbered k+1 |
| Batch.RetryBetweenAttempts | tiktok_auto_forward.py:442-444 | a retry pause only ever follows a failed attempt and precedes another attempt: never after the final attempt |
| Batch.CountFailedRounds | tiktok_auto_forward.py:442-444 | failed rounds hold one attempt each and no verdict or pause |
| Batch.UserLogCounts | tiktok_auto_forward.py:436-447 | per entry: attempts as computed, exactly one of SUCCESS and FAILED, no inter-user pause |
| Batch.EntryLogCounts | tiktok_auto_forward.py:435-453 | per entry: 1 to 3 attempts, one verdict matching its success, and one pause iff its name differs from the last entry's name |
| Batch.BatchLogEnds | tiktok_auto_forward.py:450-453 | a run's events end with the last entry's verdict: no pause after the last entry |
| Batch.NoPauseAfterNameOfLast | tiktok_auto_forward.py:450 | an entry carrying the same name as the last entry, wherever it stands, gets no pause |
| Batch.CountAppend | tiktok_auto_forward.py:435-453 | event counts add up over concatenation of the log |
| Batch.EntryPauses | tiktok_auto_forward.py:449-453 | an entry is followed by one pause iff its name differs from `users[-1]` |
| Batch.EntryAttempts | tiktok_auto_forward.py:436-447 | an entry logs 1 to 3 attempts |
| Batch.EntryVerdicts | tiktok_auto_forward.py:436-447 | an entry logs one SUCCESS line iff it succeeds, and one FAILED line iff it does not |
| Batch.CountFlatten | tiktok_auto_forward.py:435-453 | the count of an event kind in the entries' logs, one after the other, is the sum of the per-entry counts |
| Batch.TotalBounds | tiktok_auto_forward.py:436 | n numbers between 1 and 3 sum to between n and 3n |
| Batch.BatchLogFlat | tiktok_auto_forward.py:435-453 | the run's log is the entries' logs one after the other, in list order |
| Batch.SuccessTotal | tiktok_auto_forward.py:432-447 | summing a 1 for each succeeding entry gives `success_count`, and a 1 for each failing entry gives the number of entries minus `success_count` |
| Batch.PauseTotal | tiktok_auto_forward.py:449-453 | summing a 1 for each entry whose name differs from `users[-1]` gives the number of such entries |
| Batch.BatchLogVerdicts | tiktok_auto_forward.py:435-447 | a run logs exactly `success_count` SUCCESS lines and `len(users) - success_count` FAILED lines |
| Batch.BatchLogPauses | tiktok_auto_forward.py:449-453 | a run pauses between users exactly once for each entry whose name differs from `users[-1]` |
| Batch.BatchLogAttempts | tiktok_auto_forward.py:435-447 | a run makes between `len(users)` and `3 * len(users)` attempts |
| Batch.PausedEntriesDistinct | tiktok_auto_forward.py:450 | with pairwise distinct names, each of the first n entries before the last differs from the last |
| Batch.DistinctUsersPauses | tiktok_auto_forward.py:449-453 | a list without repeated names gets a pause after every entry but the last: `len(users) - 1` pauses |
| Schedule.TargetOf | tiktok_auto_forward.py:485-489 | `dt_time(hour, minute)` exists iff 0 ≤ hour < 24 and 0 ≤ minute < 60, and is then that many hours and minutes past midnight |
| Schedule.SendTimeValid | tiktok_auto_forward.py:32 | the configured 21:00 is a valid time, 75600 seconds past midnight |
| Schedule.TimeOfDay | tiktok_auto_forward.py:510 | a time of day is below one day |
| Schedule.DayStart | tiktok_auto_forward.py:508 | `combine(now.date(), …)` starts from the midnight of now's day |
| Schedule.NextRun | tiktok_auto_forward.py:507-514 | the next run lies in (now, now + 1 day], at the target time of day; it is today iff the time of day is strictly before the target, and exactly one day ahead iff it equals the target |
| Schedule.NextRunIsEarliest | tiktok_auto_forward.py:507-514 | no instant after now with the target time of day comes before the next run |
| Schedule.CountdownOf | tiktok_auto_forward.py:516-518 | minutes are below 60 and hours and minutes are the whole hours and whole remaining minutes of the wait |
| Schedule.CountdownBounds | tiktok_auto_forward.py:516-518 | the countdown is at most 24 hours; 24 exactly when now is at the target, and then 0 minutes |
| Schedule.StatusAt | tiktok_auto_forward.py:546-556 | the heartbeat's next run lies in (now, now + 1 day], falls at the target time of day and is the earliest such instant; its countdown has fewer than 60 minutes and at most 24 hours, 24 exactly when now is at the target, and its hours and minutes are the wait rounded down to the minute |
| Schedule.SpacedBound | tiktok_auto_forward.py:535-560 | spaced heartbeats number at most one per 900 seconds since the loop started |
| Schedule.SpacedAppend | tiktok_auto_forward.py:544-560 | a heartbeat 900 seconds after the previous one keeps the history spaced |
| Schedule.Heartbeat.constructor | tiktok_auto_forward.py:535 | `last_check` starts at the loop's start, with no heartbeat yet |
| Schedule.Heartbeat.Poll | tiktok_auto_forward.py:543-560 | once 900 seconds have passed since `last_check` the status is reported and `last_check` moves to now; otherwise nothing changes |
| Schedule.Heartbeat.Rare | tiktok_auto_forward.py:535-560 | the last heartbeat is at `last_check`, and there are at most elapsed/900 of them |
| Dom.FirstUsable | tiktok_auto_forward.py:255-279 | the index of the first lookup that is present and displayed, every earlier one not |
| Dom.Tried | tiktok_auto_forward.py:255-279 | a search that stops at its hit has tried a prefix: up to and including the hit |
| Locate.ButtonInSpec | tiktok_auto_forward.py:242-282 | no button iff no locator of either list gives a displayed element; otherwise the element of the first that does |
| Locate.FindMessageButton | tiktok_auto_forward.py:242-282 | the XPath list then the CSS list is searched in order, returning the first displayed element and looking up nothing after it |
| Locate.FirstWorking | tiktok_auto_forward.py:292-308 | the index of the first click method that does not raise, every earlier one raising |
| Locate.ClicksSpec | tiktok_auto_forward.py:299-311 | the click succeeds iff some click method completes |
| Locate.ClickMessageButton | tiktok_auto_forward.py:285-311 | no button gives False; otherwise True at the first method that completes, with no later method run, and False only when all four raise |
| Locate.LastPresentSpec | tiktok_auto_forward.py:361-370 | the value `message_input` is left with after lookups without a break is `None` iff all timed out, and otherwise the element of a present lookup after which all timed out |
| Locate.InputInSpec | tiktok_auto_forward.py:361-374 | "not found" iff no selector found any element; a hidden element from a later or last successful lookup is kept |
| Locate.FindMessageInput | tiktok_auto_forward.py:355-374 | the loop stops at the first displayed element, otherwise keeps the last element found, and looks up nothing after a break |
| Captcha.AnyIndicatorSpec | tiktok_auto_forward.py:194-198 | detection holds iff some lowercased indicator occurs in the lowercased page text |
| Captcha.FirstClose | tiktok_auto_forward.py:210-219 | the index of the first close button that is displayed and whose own click does not raise |
| Captcha.TryCloseButtons | tiktok_auto_forward.py:203-219 | the close-button loop clicks the first one that works |
| Captcha.CheckAndCloseCaptcha | tiktok_auto_forward.py:193-231 | False when the body lookup raises or no indicator is found; on detection the first working close button is clicked, else ESC; True iff a button or ESC worked |
| Captcha.CheckOutcome | tiktok_auto_forward.py:193-231 | the check returns True iff the body was read, an indicator shows, and ESC or some close button works |
| Captcha.GuardBeforeButton | tiktok_auto_forward.py:332-336 | the check runs 1 to 3 times, every call but the last returned True, it stops at the first False, and it pauses after each True |
| Captcha.GuardCalls | tiktok_auto_forward.py:332-336 | the number of checks is one more than the run of leading Trues, capped at 3 |
| Captcha.LeadingSuccessesSpec | tiktok_auto_forward.py:332-336 | the leading Trues are a run of Trues ended by a False or by the cap |
| Workflow.SendStreakToUser | tiktok_auto_forward.py:318-395 | the profile visited is that of the handle without leading `@`; True iff the outcome is "sent"; the outcome is that of the step-by-step specification; the debug screenshot saved is the one named for that outcome, none on success; the guard made 1 to 3 checks, every one but the last reported a captcha dealt with, and it stopped early only at a check that did not |
| Workflow.SentExactly | tiktok_auto_forward.py:318-395 | an attempt sends iff some button locator gives a displayed element, some click method works on it, some input locator finds an element and typing completes; the message is one of `STREAK_MESSAGES` |
| Workflow.Screenshot | tiktok_auto_forward.py:341-395 | a screenshot is saved iff the attempt did not send |
| PyInt.ParseShow | tiktok_auto_forward.py:170 | `int(str(i)) == i` for every integer, below the digit limit listed under Left out |
| PyInt.ParseSpacedGrouped | tiktok_auto_forward.py:170 | `int()` of a string ignores surrounding whitespace and accepts underscores between digits |
| PyInt.ParseNegative | tiktok_auto_forward.py:170 | `int("-42") == -42` |
| PyInt.ParseRefused | tiktok_auto_forward.py:170 | `int()` refuses a fraction, doubled or leading underscores and the empty string |
| PyInt.Truncate | tiktok_auto_forward.py:170 | `int()` of a float rounds toward zero |
| PyInt.IntOf | tiktok_auto_forward.py:170 | `int()` of a JSON value succeeds exactly on a boolean, an integer, a finite float or a string holding an integer literal; a boolean gives 0 or 1, an integer itself, a float its truncation toward zero, a string its parse |
| Cookies.Translate | tiktok_auto_forward.py:161-174 | the translation fails iff `int()` refuses the expiration date; otherwise name and value are null when missing, the domain is `.tiktok.com` only when absent, each optional key is present iff its source key is, with its value, and `expiry` is the integer value of `expirationDate` |
| Cookies.AsDictShape | tiktok_auto_forward.py:159-170 | the dictionary always has name, value and domain; each optional key is present iff the cookie has it; no other keys |
| Cookies.ExpiryTruncated | tiktok_auto_forward.py:165-166 | a float expiration date such as 1700000000.75 becomes the integer 1700000000 |
| Cookies.AddedBy | tiktok_auto_forward.py:159-178 | a record adds at most one cookie |
| Cookies.AddedAppend | tiktok_auto_forward.py:158-178 | records are independent: the cookies of a file split in two are those of the first part followed by those of the second, each record judged at its own place in the file, so a failing record is skipped without affecting the others |
| Cookies.AddedMembers | tiktok_auto_forward.py:158-178 | every cookie given to the browser was accepted and is the translation of some record, and there are no more of them than records |
| Cookies.RejectedSpec | tiktok_auto_forward.py:176-178 | each record is either added or warned about, never both |
| Cookies.AddCookie | tiktok_auto_forward.py:159-175 | one record's `try` body adds exactly the record's contribution |
| Cookies.LoadCookiesToDriver | tiktok_auto_forward.py:155-180 | the corrected loop gives the browser exactly the specification's cookies and warns exactly about the specification's failing records |
| Cookies.LoadAsWritten | tiktok_auto_forward.py:158-178 | the loop as written runs through the file iff every record is an object; otherwise it stops at a record that is not one, with every earlier record an object; it never adds more cookies than records |
| Cookies.AsWrittenOnObjects | tiktok_auto_forward.py:158-178 | when every record is an object, the loop as written and the corrected loop agree |
| Cookies.AsWrittenAborts | tiktok_auto_forward.py:158-178 | as written, the first record that is not an object ends the whole load, and no later record is added |
| Cookies.AsWrittenCounterexample | tiktok_auto_forward.py:177-178 | a stray string before a session cookie: the loop as written adds nothing, the corrected loop adds the session cookie |

## Left out

- Selenium itself is not modelled: driver setup, the injected script, `driver.get`, `add_cookie`, clicks, typing and screenshots. Their outcomes are oracle inputs, namely the page functions, `works`, `clickWorks`, `escapeWorks`, `accepted`, `typingWorks` and `delivered`. Each oracle answers one call: `clickWorks` is asked with the locator of the close button, `accepted` holds the indices of the records whose `add_cookie` call completes, and `delivered` the (entry, attempt) pairs that send.
- File reading, `json.load` and logging, including `log_activity`'s file appends. `load_users` is modelled over the lines as read, and `load_cookies_to_driver` over the decoded list of records.
- All `time.sleep`, `random.uniform` pauses and `human_type` pacing. The batch log records only *that* a retry or inter-user pause happens, not how long it lasts.
- `random.choice(STREAK_MESSAGES)` is the parameter `pick`.
- The `schedule` library, the `while True` loop with its exception and Ctrl+C handling, and the job it triggers. Only the heartbeat step that updates `last_check` is modelled.
- Schedule.NextRun: uses integer seconds instead of `datetime` floats. A fraction of a second before the target counts in the source as "today", and `total_seconds()` carries microseconds into `int()`. Daylight-saving changes and clock adjustments are not handled by the program either.
- Schedule.TargetOf: the parsing of the `SEND_TIME` string at line 485 is not modelled; the configured hour and minute are constants.
- Text.LowerChar: folds A–Z only. For any text, this decides captcha detection the same way as full Unicode `lower()`, because the indicators are ASCII and contain no `k`. The only non-ASCII characters that lowercase to ASCII are U+212A (to `k`) and U+0130 (to `i` followed by U+0307, which stops a match through that `i`).
- The captcha check after the click (line 351) is not modelled as a step. Its result is ignored and every exception inside it is caught. It can still change the page, by clicking a close button (line 214) or pressing ESC (line 222); that effect is part of the `inputs` oracle, which answers the message-box lookups on the page as it stands after that check.
- Workflow.SendStreakToUser: an exception raised by `driver.get` or by the searches' own waits is not modelled. Only a failure while clicking, typing or sending ends in `Crashed`.
- Batch.RunStreakBot: what happens before the user loop (driver setup, the cookie load) is not part of this method; there the cookie load can abort the run, as described under Findings.
- PyInt.ParseInt: `int()` of a string accepts only ASCII digits here; Python also accepts other Unicode decimal digits. Since Python 3.11, `int()` of a string of more than 4300 digits raises `ValueError` and `str()` of such an integer raises too; the model has no such limit, so `ParseShow` holds in Python only for integers of at most 4300 digits. A JSON object with a repeated key is taken as already reduced to its last value. A top-level cookie file that is not a list is not modelled.
- PyInt.ParseShow: proved for every integer, while Python 3.11 and later refuses `str()` and `int()` beyond 4300 digits, as said for PyInt.ParseInt.
- Cookies.AsDict: the insertion order of the dictionary's keys is not modelled, because Selenium reads the dictionary by key.
- Locator names: the page is asked by the name of a selector, not by its text. The selector texts in `Dom.Query` are pairwise distinct, so nothing is lost.

## Findings

| source | as written | input that shows it | evidently intended | confidence | as-written member | corrected member |
|---|---|---|---|---|---|---|
| tiktok_auto_forward.py:176-178 | the `except` handler calls `cookie.get('name')` again. For a record that is not a JSON object, `.get` raises inside the handler, and that exception leaves `load_cookies_to_driver` and, through the outer `try` of `run_streak_bot`, ends the day's run before any message is sent | a cookie file `["x", {"name": "sessionid", "value": "abc"}]` | log a warning for the bad record and go on with the rest, as for any other record that fails | medium, not executed | Cookies.AsWrittenCounterexample | Cookies.LoadCookiesToDriver |
