# Username monitoring bot, modelled in Dafny

A Telegram bot lets a chat hand it Instagram usernames that are currently unreachable. It keeps
them in a registry, `monitor_list`. The registry maps each lower-cased username to a record: the
start time, a status, the owning chat and, once the account is reachable again, the unban time.

- A background loop runs the existence check on every name still being monitored. It marks a
  name that is found again as unbanned and notifies the owning chat.
- A second loop wakes every day at 08:00 UTC and sends each chat a summary of what it still
  monitors.
- `/status` lists a chat's monitored names.
- `/remove` drops one of them.

This project models the logic of all of these on an immutable `map<Username, Record>`. Each
handler or loop iteration is a pure function with one atomic step. Around them sit the pure
helpers `format_duration` and `get_user_monitored`.

The modules follow the program:

| module | file | models |
|---|---|---|
| `Base` | base.dfy | `Option`, and sequences that list a set exactly once (iteration order of a dict or set) |
| `Text` | text.dfy | the Python string behaviour used: `join`, `split()`, `strip`, `lower`, `str(int)`; also a split at single spaces, used only to read durations back |
| `Duration` | duration.dfy | `format_duration`, with a parser for its output as an independent partner |
| `Tracking` | tracking.dfy | the registry and its records, `get_user_monitored`, listing lines |
| `Usernames` | usernames.dfy | normalising and validating a submitted token |
| `AddCommand` | add_command.dfy | `handle_usernames` |
| `StatusCommand` | status_command.dfy | `/status` |
| `RemoveCommand` | remove_command.dfy | `/remove` |
| `Scanner` | scanner.dfy | one pass of `monitor_accounts` |
| `Digest` | digest.dfy | the deadline and the grouping of `send_daily_summary` |
| `Scenarios` | scenarios.dfy | worked examples on concrete names |

Modelling choices:

- **Time.** Times are whole seconds since the epoch, UTC. The time of day is the remainder
  modulo 86400.
- **Existence check.** `check_instagram_username` is a parameter `Checker = Username -> Probe`.
  A probe is `Found` (status 200), `NotFound` (any other status) or `Raised` (the request
  raised).
- **Iteration order.** The order of a dict or set is a parameter: a sequence that lists the keys
  exactly once (`Enumerates`).
- **Replies and notifications.** These are values: reply datatypes, `Notice`, and listing `Line`s.
  Sending them is left to the transport.

Two behaviours of the code that a user of the bot might not expect:

- **Names owned by another chat.** A name monitored by one chat is not "already monitoring"
  for a different chat. The ownership test compares the chat id (main.py:157). So another
  chat's submission consults the check and, when the account is still missing, replaces the
  first chat's record (`AddCommand.AddTakesOverOtherChat`).
- **The check raising.** A raising existence check is not treated as "still monitoring". Nothing
  catches it (main.py:78, main.py:161).
  - In the monitor loop it ends the pass before the save, and the thread with it. The entries
    unbanned earlier in that pass stay unbanned in memory, unsaved (`Scanner.ScanPass`,
    `Scanner.ScanUpdates`).
  - In `handle_usernames` it ends the handler with neither save nor reply
    (`AddCommand.HandleUsernames`), and the tokens after it are never reached
    (`AddCommand.HandleAnswers`). The names started earlier in that message keep their fresh
    records in memory, unsaved until the next save (`AddCommand.HandleOutcome`).

## Model

| member | source | states |
|---|---|---|
| Duration.Decompose | main.py:51-54 | the three `divmod` steps give hours below 24, minutes below 60 and leftover seconds below 60, adding back up to the input |
| Duration.DecomposeUnique | main.py:51-54 | any breakdown with hours, minutes and seconds in clock range that adds up to the input is the one `format_duration` computes |
| Duration.PartsMeaning | main.py:55-58 | the shown components are non-zero, in the order days, hours, minutes, each at most once, add up to the input less its leftover seconds, and are empty exactly when the input is 0 to 59 seconds |
| Duration.PartsUnique | main.py:55-58 | any components with those properties are exactly the shown ones |
| Duration.FormatLessThanAMinute | main.py:59 | the text is "less than a minute" exactly when the input is 0 to 59 seconds |
| Duration.FormatRoundTrip | main.py:55-59 | reading the text back gives the shown components: single spaces between them, singular unit exactly when the count is 1 |
| Text.SplitOnJoin | main.py:59 | splitting a `' '.join` at spaces gives back the words when none contains a space |
| Text.IntRoundTrip | main.py:56-58 | the count as `str` writes it reads back as the same integer |
| Text.SplitWhitespace | main.py:147 | `split()` yields non-empty tokens without whitespace whose concatenation is the input without its whitespace |
| Text.SplitWhitespaceAfterSpaces | main.py:147 | `split()` ignores any whitespace in front of the text |
| Text.SplitWhitespaceAfterWord | main.py:147 | a non-empty word without whitespace, followed by the end or by whitespace, is exactly one token: tokens are maximal runs |
| Text.SplitWhitespaceJoin | main.py:147 | `split()` gives back the words of a join of non-empty words without whitespace by any non-empty whitespace separator, such as a space or a newline |
| Text.Strip | main.py:151 | `strip` leaves no whitespace at either end, keeps every other character in order, and leaves a string without whitespace unchanged |
| Text.StripSlice | main.py:144-151 | `strip` returns one contiguous slice of its input, and everything cut off on either side is whitespace |
| Tracking.Unban | main.py:93-94 | the unbanned record has status unbanned and unban time now, and keeps start time and chat |
| Tracking.Monitored | main.py:61-65 | `get_user_monitored` holds a name exactly when the chat owns it and it is still monitoring, with the registry's record |
| Tracking.MonitoredNamesMembers | main.py:61-65 | the names listed in registry order are exactly the chat's monitored names, none twice |
| Tracking.MonitoredNamesAppend | main.py:61-65 | `get_user_monitored` keeps the registry's order: the names of a split order are those of its front, then those of its back |
| Tracking.MonitoredNamesExact | main.py:61-65 | in registry order, each of the chat's monitored names is listed once, as many as the filtered dict holds |
| Tracking.ListedEntries | main.py:185-188 | the entry lines of a listing name exactly the names they were made from, in order |
| Usernames.RemoveChar | main.py:153 | `replace(c, '')` keeps exactly the characters other than `c` |
| Usernames.RemoveCharAppend | main.py:153 | `replace(c, '')` distributes over concatenation, so the other characters keep their order and their number of occurrences |
| Usernames.Normalize | main.py:151 | a normalised name has no capital letters |
| Usernames.ValidIff | main.py:153 | a name passes the test exactly when it has a letter or digit and only letters, digits, dots and underscores |
| Usernames.NormalizeToken | main.py:147-151 | for a token cut out by `split()`, the `strip` after `lower` changes nothing |
| AddCommand.AddName | main.py:153-171 | only the submitted name's entry can change; invalid leaves all unchanged; an own name is "already monitoring" without a check; otherwise found means "already active", missing means a fresh record for the caller, and raising is an abort |
| AddCommand.AddPreserves | main.py:165-170 | an add keeps every record's unban time present exactly when unbanned, and no record in the future |
| AddCommand.AddIdempotent | main.py:153-171 | a second submission of the same name changes nothing unless the first reply was "already active", which the new check decides afresh: after a start or on an own name it is "already monitoring" with the first start time, and an invalid name stays invalid |
| AddCommand.AddThenListed | main.py:165-171 | a valid unregistered name whose account is missing is started and listed by `get_user_monitored` with non-negative elapsed time |
| AddCommand.AddTakesOverOtherChat | main.py:157-171 | another chat's submission of an owned name whose account is missing replaces the owner's record, and the owner no longer sees it |
| AddCommand.AddCommutes | main.py:147-150 | two non-raising submissions give the same registry in either order, so the set's order does not matter |
| AddCommand.AddAll | main.py:150-171 | one reply per name unless a check raised, fewer if one did; names not submitted keep their entries; record invariants kept |
| AddCommand.AddAllStops | main.py:150-171 | the batch stops at the first name whose check raises: every answered name passed without a raise, and a cut-short batch stopped at a raising name |
| AddCommand.AddAllRaises | main.py:150-171 | a batch is cut short exactly when some submitted name reaches a raising check |
| AddCommand.AddAllReplies | main.py:150-171 | the replies answer the submitted names in order, "invalid" exactly for the names that fail validation |
| AddCommand.AddAllReplyKinds | main.py:150-171 | each answered name is "already active" exactly when valid, not the caller's and found; "started" exactly when it starts and was not submitted earlier in the batch; otherwise "already monitoring" when the caller owns it or an earlier copy started |
| AddCommand.AddAllFrame | main.py:150-171 | only answered names can change: the names after a raising check keep their entries |
| AddCommand.AddAllOutcome | main.py:150-171 | a submitted name that does not start keeps its entry, even when a check raised; each name answered before any raise that starts (valid, not the caller's, account missing) holds a fresh record of the caller, which stays in memory after a later raise |
| AddCommand.HandleUsernames | main.py:143-174 | each reply names a token lower-cased; the handler stops short of the save and the reply exactly when some token reaches a raising check; only submitted names change |
| AddCommand.HandleOutcome | main.py:143-174 | for each token in the order the set yields them: the reply is "invalid" exactly when its lower-cased form fails validation, a token that does not start leaves its entry alone, one that starts before any raise holds a fresh record of the caller, also after a later raise; a handler cut short stopped at a token whose check raised, all earlier tokens having passed |
| AddCommand.HandleAnswers | main.py:143-174 | each answered token gets the reply its lower-cased name earns against the registry before the message and the tokens answered before it, and tokens after a raising check leave the registry alone |
| AddCommand.InvalidOnlyChangesNothing | main.py:153-155 | names that all fail validation leave the registry unchanged and are each answered "invalid" |
| StatusCommand.StatusReply | main.py:176-190 | no monitored name gives the empty-state line alone; otherwise a header, then one line per monitored name in registry order with its elapsed time |
| StatusCommand.StatusLineReadsBack | main.py:185-188 | a `/status` line is the bullet, the name, a dash, and the elapsed time in words that read back as its components |
| StatusCommand.StatusListsMonitored | main.py:178-188 | the reply lists every monitored name of the chat once and no other name, and is the empty-state line exactly when there is none |
| RemoveCommand.Remove | main.py:192-207 | no argument gives usage and no save; otherwise the lower-cased name is deleted and saved exactly when the caller owns it, and nothing else changes |
| RemoveCommand.RemoveUndoesAdd | main.py:200-203 | removing a name the same chat just started restores the registry |
| RemoveCommand.RemoveByOtherChat | main.py:202-207 | another chat's `/remove` is answered as not monitoring, changes nothing, and the owner still sees the name |
| Scanner.StillMonitored | main.py:74-76 | the snapshot entries that are not skipped are exactly those still monitoring |
| Scanner.Probed | main.py:74-78 | only names still monitoring reach the check, each once, and every check before the last returned (the order is stated by `Scanner.ProbedPrefix`) |
| Scanner.ProbedPrefix | main.py:74-78 | the checked names are a prefix of the monitored names in snapshot order, and all of them unless the last check raised |
| Scanner.ProbedComplete | main.py:74-78 | if no check raised, every name still monitoring was checked |
| Scanner.FoundNames | main.py:80 | the names that transition are exactly the checked names that were found |
| Scanner.UnbanAll | main.py:93-94 | the found names become unbanned now and all other entries are untouched |
| Scanner.UnbanAllChanges | main.py:95-98 | unbanning monitored entries changes the registry exactly when there is at least one |
| Scanner.NoticesFor | main.py:81-89 | one notification per transitioned name, in order, each to its chat with the time since its start |
| Scanner.ScanPass | main.py:71-98 | keys unchanged; only monitored entries checked, once each; a raise ends the pass; otherwise all are checked; saved exactly when the pass finished and the registry changed |
| Scanner.ScanOrder | main.py:74-78 | a pass checks the monitored entries in snapshot order up to the raising one, and all of them when none raised |
| Scanner.NoticeReadsBack | main.py:82-86 | the notification's first line names the account as unbanned, and its second gives the elapsed time in words that read back as its components |
| Scanner.ScanUpdates | main.py:80-95 | a found entry becomes unbanned now with start and chat kept; every other entry is unchanged |
| Scanner.ScanNotices | main.py:80-91 | exactly the found entries are notified, none twice, each to its owner with the time since start |
| Scanner.ScanPreserves | main.py:93-94 | a pass keeps unban times present exactly when unbanned, and no record in the future |
| Scanner.UnbannedAbsorbing | main.py:75-76 | an unbanned entry is never checked nor changed, and no entry returns to monitoring |
| Scanner.NotifiedOnce | main.py:74-95 | over two passes an account is announced at most once and is not checked again |
| Digest.NextDigest | main.py:106-109 | the deadline lies after now and at most one day later, at 08:00 |
| Digest.WaitSeconds | main.py:111 | the wait is positive and at most a day, ends at 08:00, and is a full day when now is 08:00 |
| Digest.NextDigestIsNext | main.py:106-109 | no 08:00 after now comes before the deadline |
| Digest.OneDigestPerDay | main.py:105-112 | waking between one 08:00 and the next gives the next one, so one summary per day |
| Digest.HalfPastEight | main.py:106-109 | at 08:30 the deadline is 08:00 the next day |
| Digest.Subscribers | main.py:114 | the chats considered are exactly those owning any entry, monitored or not |
| Digest.SummaryLayout | main.py:121-125 | a summary is a header, a blank line, then one line per monitored name in registry order with its elapsed time |
| Digest.SummaryLineReadsBack | main.py:122-124 | a summary line is the name, "monitoring for", and the elapsed time in words that read back as its components |
| Digest.SummaryListsMonitored | main.py:117-125 | a summary lists each monitored name of its chat once and no other name |
| Digest.Summaries | main.py:116-121 | messages go only to listed chats with a monitored name, and every such chat gets one |
| Digest.SummariesDistinct | main.py:114-116 | no chat gets two summaries |
| Digest.DailySummary | main.py:114-131 | exactly the chats owning a monitored entry get a summary, one each |
| Scenarios.AliceAdded | main.py:150-171 | `alice_123` is valid and, with its account missing, starts out monitored for the caller |
| Scenarios.AliceFound | main.py:74-98 | the next pass that finds it checks it once, unbans it, sends one notification and saves |
| Scenarios.AliceNotRechecked | main.py:75-76 | later passes no longer check it, notify or save |
| Scenarios.AliceScenario | main.py:74-95 | add, then a pass that finds it, then another pass: started, announced once, then left alone |
| Scenarios.BadNameScenario | main.py:153-155 | `bad!name` is answered as invalid and leaves the registry unchanged |

## Left out

- Telegram: handler wiring, `reply_text`, `send_message` and `asyncio.run`. Replies and notifications are values; a failed send is caught in the source and changes nothing.
- The HTTP request of `check_instagram_username`: an outside collaborator, given as the `Checker` parameter.
- JSON load and save of `monitor_list.json`: file I/O. A save is recorded as a flag, and a corrupt file on startup is not modelled.
- Threads, `time.sleep` (including the 300-second pause between passes, main.py:16 and main.py:100), the unsynchronised sharing of `monitor_list`, and the endless loops. Each handler and each loop iteration is one atomic step.
- `datetime`, ISO-8601 strings and microseconds: times are whole seconds. `int()` truncating a fractional duration is not modelled.
- Emoji and Markdown in messages, and the exact reply wording of `handle_usernames` and `/remove`. These are reply datatypes; `/status`, the summary and the notification keep their text lines.
- `/start` and `main`: fixed greeting text and wiring.
- Usernames.IsAlnum: ASCII letters and digits only, where Python's `isalnum` accepts all Unicode letters and digits.
- Text.Lower: ASCII case folding only, where Python's `lower` folds all of Unicode.
- AddCommand.HandleUsernames: one `now` for the whole message, where the source reads the clock for each added name (main.py:167).
- AddCommand.HandleUsernames: one `Checker` for the whole message, so two tokens that lower-case to the same name (`Alice alice`) get the same check result; the source sends a new request each time (main.py:161).
- StatusCommand.StatusReply: one `now` for the whole reply, where the source reads the clock per line (main.py:187).
- Digest.SummaryLines: one `now` per summary, where the source reads the clock per line (main.py:124).
- Digest.NextDigest: the source wakes at sub-second precision; with whole seconds, a wake-up a fraction before 08:00 is not representable.
