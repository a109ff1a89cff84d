# YSF reflector log watcher — a Dafny model

`ysf-log_watcher.py` tails the log of a YSF reflector. It recognises the lines
on which a station starts and stops transmitting. When a transmission lasted
at least `MIN_DURATION` seconds, and at least `TIMER_DURATION` seconds lie
between the end of the station's last transmission of at least `MIN_DURATION`
and the end of this one, it looks up the station and posts a Telegram message. The message names the talkgroup, taken from a CSV table.

This project models the three pieces of logic in that script and proves what
they promise:

- **Line classifier** (`LogParser`). It reads the two anchored patterns
  `^M: (\S+ \S+) Received data from (\S+)` and
  `^M: (\S+ \S+) Received end of transmission`. The result is
  `Start(ts, cs) | End(ts) | Unrecognized`, and the start pattern is tried first.
  It rests on `Text`, which models Python's whitespace class, a greedy `\S+`
  and `str.strip()`.
- **Transmission tracker** (`Tracker`, `TrackerProperties`). The two
  module-level dicts `active_tx` and `last_activity` become the fields of the
  class `TransmissionTracker`:
  - `active_tx` keeps its key order, as a Python dict iterates;
  - `ProcessLine` is `process_line`;
  - `Monitor` is the line loop of `monitor_logfile`, run over lines already read.

  A ghost log of `Attempt(callsign, startTs, endEpoch)` records every
  `fetch_user_info` + `send_telegram` pair. Each method is proved against pure
  functions (`ApplyLine`, `EndTx`, `ApplyLines`). Those functions are in turn
  proved against reference definitions that do not follow the loop:
  - `Due` and `Expected`: who is notified, and in which order;
  - `LongEnough` and `Refreshed`: what `last_activity` becomes;
  - `AllConvert`: when the end branch raises.
- **Talkgroup table loader** (`Talkgroups`). `load_talkgroup_mapping` runs
  over the rows `csv.DictReader` produces. Each cell is `Absent` (no such
  column, so the default `''`), `Unfilled` (a short row, so `None`) or
  `Text(v)`.

Timestamps are converted by a function `toEpoch: Timestamp -> Option<int>`
that the tracker is given, in integer milliseconds. `None` stands for
`datetime.fromisoformat` raising. That exception escapes `process_line` and
ends the watcher. The model calls this outcome `crashed`. If the start
timestamp of one open transmission does not convert, the loop has already
made its earlier effects: notifications are sent and `last_activity` is
updated. `active_tx` is not emptied, because the pops come after the loop.

Points where the code's behaviour is easy to misread:

- A timestamp written as one token, such as `2024-01-01T10:00:00`, is not
  recognised: the `\S+ \S+` group needs a space inside the timestamp, so such
  start and end lines are unrecognised (`LogParser.SingleTokenTimestamp`). The
  example run is proved with timestamps written `date time`, as the reflector
  writes them.
- An unseen station's last activity is `last_activity.get(cs, 0)`, epoch zero,
  so its first long-enough transmission is notified whenever the end epoch is
  at least `TIMER_DURATION` seconds.
- `last_activity` is assigned, not maxed. The end epoch is written for every
  transmission that is long enough, whether notified or suppressed. Nothing
  keeps it from going back (`TrackerProperties.LastActivityCanGoBack`); it
  never goes back when the end epochs are themselves in order
  (`TrackerProperties.RunNeverLowers`).
- A timestamp `fromisoformat` rejects ends the watcher (`crashed`).

## Model

| member | source | states |
|---|---|---|
| Text.TokenLen | ysf-log_watcher.py:136-137 | what a greedy `\S+` or `\S*` consumes: every character before the returned length is non-whitespace, and the character at it, if any, is whitespace |
| Text.TrimLeft | ysf-log_watcher.py:170 | `lstrip` is no longer than its input, and what it keeps starts with non-whitespace and ends where the input ends; `TrimLeftShape` pins it down |
| Text.TrimRight | ysf-log_watcher.py:170 | `rstrip` is no longer than its input, and what it keeps ends with non-whitespace and starts where the input starts; `TrimRightShape` pins it down |
| Text.Strip | ysf-log_watcher.py:170 | `strip()`, also applied to each cell at lines 78-79, is no longer than its input and neither starts nor ends with whitespace; `StripShape`, `StripOf` and `StripIdempotent` pin it down |
| Text.TrimLeftShape | ysf-log_watcher.py:170 | `lstrip` leaves a suffix of the input; everything it removed is whitespace; what it keeps does not start with whitespace |
| Text.TrimRightShape | ysf-log_watcher.py:170 | `rstrip` leaves a prefix of the input; everything it removed is whitespace; what it keeps does not end with whitespace |
| Text.StripShape | ysf-log_watcher.py:170 | `strip()` keeps a slice of its input that neither starts nor ends with whitespace, and removes only whitespace on either side |
| Text.TrimLeftOf | ysf-log_watcher.py:170 | whitespace in front of text that starts with a non-whitespace character is exactly what `lstrip` removes |
| Text.TrimRightOf | ysf-log_watcher.py:170 | whitespace after text that ends with a non-whitespace character is exactly what `rstrip` removes |
| Text.StripOf | ysf-log_watcher.py:170 | `strip()` of any whitespace + core + whitespace, where the core has non-whitespace borders, is the core |
| Text.StripIdempotent | ysf-log_watcher.py:78-79 | stripping a stripped value changes nothing |
| Text.TokenLenAppend | ysf-log_watcher.py:136 | a greedy run over a token followed by more text covers the token and continues into the text |
| LogParser.Head | ysf-log_watcher.py:136-137 | the shared `^M: (\S+ \S+)` part: when it matches, the line starts with `M: `, both captured parts are tokens and the rest is empty or starts with whitespace; `HeadOf` and `HeadSound` pin it down |
| LogParser.Body | ysf-log_watcher.py:136-143 | what follows the timestamp: a `Start` keeps the timestamp, follows ` Received data from ` and carries a token; an `End` keeps the timestamp and follows ` Received end of transmission`; an unrecognised rest is not the end phrase |
| LogParser.Parse | ysf-log_watcher.py:136-142 | a recognised line starts with `M: ` and a start carries a token callsign; `StartComplete`, `StartSound`, `EndComplete`, `EndSound` and `UnrecognizedSound` pin it down |
| LogParser.HeadOf | ysf-log_watcher.py:136-137 | `M: ` followed by two tokens and text that starts with whitespace is split into exactly those two tokens and that text |
| LogParser.HeadSound | ysf-log_watcher.py:136-137 | whatever the shared `^M: (\S+ \S+)` part accepts is the marker, two tokens with one space between them, and the rest |
| LogParser.StartComplete | ysf-log_watcher.py:136-140 | every line of start shape is a `Start`: the timestamp group is the two tokens, and the callsign is the maximal non-whitespace run after ` Received data from `; trailing text is ignored |
| LogParser.EndComplete | ysf-log_watcher.py:137-143 | every line of end shape is an `End` carrying the two tokens as its timestamp, whatever follows |
| LogParser.StartSound | ysf-log_watcher.py:136-140 | a `Start` result comes from a line of start shape whose captured callsign is followed by whitespace or nothing |
| LogParser.EndSound | ysf-log_watcher.py:137-143 | an `End` result comes from a line of end shape |
| LogParser.UnrecognizedSound | ysf-log_watcher.py:136-142 | a line classified as unrecognised has neither shape |
| LogParser.SingleTokenTimestamp | ysf-log_watcher.py:136-137 | a line whose timestamp is one token, such as an ISO 8601 timestamp with `T`, is never recognised, as a start or as an end |
| LogParser.StartLineRead | ysf-log_watcher.py:136-140 | a start line as the reflector writes it, line break included, is read as that start once `strip()` has run |
| LogParser.EndLineRead | ysf-log_watcher.py:137-143 | an end line as the reflector writes it, line break included, is read as that end once `strip()` has run |
| Tracker.LastOr0 | ysf-log_watcher.py:149 | `last_activity.get(cs, 0)`: the entry if there is one, and 0 otherwise |
| Tracker.Visit | ysf-log_watcher.py:147-153 | one loop body never raises, sets `last_activity[cs]` to the end epoch or leaves it, and attempts at most once, only together with that refresh; `VisitMeaning` pins it down |
| Tracker.CloseEach | ysf-log_watcher.py:146-154 | the loop only appends to the attempt log, at most one attempt per open callsign, removes no `last_activity` key and, once raised, stays raised; `CloseEachMeaning`, `CloseEachFails` and `CloseEachOnlyRefreshes` pin it down |
| Tracker.Without | ysf-log_watcher.py:156 | removing a key from the key order keeps exactly the other keys |
| Tracker.StartTx | ysf-log_watcher.py:140 | `active_tx[cs] = ts` keeps the key order duplicate-free and in step with the keys |
| Tracker.EndTx | ysf-log_watcher.py:143-156 | the end branch keeps the key order in step with the keys, and leaves `active_tx` empty unless it raised |
| Tracker.ApplyLine | ysf-log_watcher.py:135-157 | `process_line` preserves the tracker's invariant |
| Tracker.ApplyLines | ysf-log_watcher.py:165-170 | so does processing a sequence of stripped lines up to the first exception |
| Tracker.CloseEachOnLog | ysf-log_watcher.py:146-154 | the loop over `active_tx` appends to the attempt log and reads nothing from what was already in it |
| Tracker.TransmissionTracker.constructor | ysf-log_watcher.py:53-54 | both dicts start empty and nothing has been attempted |
| Tracker.TransmissionTracker.ProcessLine | ysf-log_watcher.py:135-157 | the new dicts, the attempts made and whether the call raised are those of `ApplyLine` on the old state |
| Tracker.TransmissionTracker.CloseAll | ysf-log_watcher.py:143-156 | the end branch: its new state, attempts and exception are those of `EndTx` |
| Tracker.TransmissionTracker.DecideEach | ysf-log_watcher.py:145-154 | the first loop gives `last_activity`, the attempts and the failure of the `CloseEach` specification; when it does not raise, `to_del` is every key of `active_tx` in order |
| Tracker.TransmissionTracker.VisitOne | ysf-log_watcher.py:147-153 | one loop body: attempt when long enough and out of the window, refresh when long enough, otherwise nothing |
| Tracker.TransmissionTracker.PopAll | ysf-log_watcher.py:155-156 | popping every key of `to_del` empties `active_tx` and its order |
| Tracker.TransmissionTracker.Monitor | ysf-log_watcher.py:165-170 | processing the lines one by one is `ApplyLines`; every line is consumed unless one raised |
| TrackerProperties.Converting | ysf-log_watcher.py:146-147 | how far the loop gets: the start timestamps before that point convert, and the one at it, if any, does not |
| TrackerProperties.Visited | ysf-log_watcher.py:146-147 | the callsigns the loop reaches: a duplicate-free prefix of the `active_tx` order, all of them open |
| TrackerProperties.IndexOf | ysf-log_watcher.py:146 | the position of a callsign in `active_tx` iteration order: where it is, and nowhere before |
| TrackerProperties.VisitMeaning | ysf-log_watcher.py:147-153 | one loop body makes the attempt the reference rule `Due` asks for and refreshes exactly when `LongEnough` holds |
| TrackerProperties.CloseEachMeaning | ysf-log_watcher.py:146-154 | the loop makes exactly the attempts of `Expected` and sets exactly the entries of `Refreshed` for the callsigns it reaches before a start timestamp fails to convert, and raises exactly when it stops early |
| TrackerProperties.CloseEachReach | ysf-log_watcher.py:146-147 | the loop raises exactly when it stops before the end of the order |
| TrackerProperties.CloseEachAttempts | ysf-log_watcher.py:146-152 | the attempts of the loop are `Expected` of the callsigns it reaches |
| TrackerProperties.CloseEachRefreshes | ysf-log_watcher.py:146-153 | the `last_activity` of the loop gains exactly `Refreshed` of the callsigns it reaches |
| TrackerProperties.CloseEachFails | ysf-log_watcher.py:146-147 | the loop raises if and only if some open start timestamp does not convert |
| TrackerProperties.CloseEachOnlyRefreshes | ysf-log_watcher.py:153 | whatever happens, the loop removes no `last_activity` entry and writes only the end epoch into it |
| TrackerProperties.ExpectedFields | ysf-log_watcher.py:150-152 | every expected attempt is for a due open callsign, with its own start and the end epoch |
| TrackerProperties.ExpectedOncePerCallsign | ysf-log_watcher.py:146-152 | each due callsign gets exactly one expected attempt, every other callsign none |
| TrackerProperties.ExpectedFollowsOrder | ysf-log_watcher.py:146 | expected attempts follow the order of `active_tx` |
| TrackerProperties.StartLine | ysf-log_watcher.py:136-141 | a start line sets or overwrites `active_tx[cs]`, keeps existing keys in place and adds a new key last; `last_activity` is unchanged, nothing is attempted and nothing raises |
| TrackerProperties.UnrecognizedLine | ysf-log_watcher.py:138-142 | a line matching neither pattern changes nothing and attempts nothing |
| TrackerProperties.EndLine | ysf-log_watcher.py:142-143 | an end line runs the end branch on its own timestamp |
| TrackerProperties.EndClosesAll | ysf-log_watcher.py:144-156 | the end branch raises if and only if its timestamp or an open start does not convert; if it raises, `active_tx` is kept as it was; otherwise it is empty afterwards |
| TrackerProperties.EndWithNothingOpen | ysf-log_watcher.py:145-156 | with nothing open, an end line whose timestamp converts changes nothing and attempts nothing |
| TrackerProperties.EndReached | ysf-log_watcher.py:144-154 | an end line whose timestamp converts raises exactly when the loop does not reach every open callsign; its attempts are `Expected` and its `last_activity` gains `Refreshed` of the callsigns reached, also when it raises |
| TrackerProperties.AllConvertVisitsAll | ysf-log_watcher.py:146-147 | the loop reaches every open callsign if and only if every open start timestamp converts |
| TrackerProperties.EndDecides | ysf-log_watcher.py:146-153 | when every open start converts, an end line does not raise, its attempts are exactly `Expected` and `last_activity` gains exactly `Refreshed` over all of `active_tx` |
| TrackerProperties.EndAttempts | ysf-log_watcher.py:146-152 | a callsign gets one attempt if the loop reached it, it lasted at least `MIN_DURATION` and is at least `TIMER_DURATION` past `last_activity.get(cs, 0)`, and none otherwise, also when the line raises; when every start converts, "reached" is "open"; every attempt carries an open callsign, its start and the end epoch |
| TrackerProperties.EndAttemptOrder | ysf-log_watcher.py:140-152 | of two attempts for one end line, also one that raises, the earlier is for the callsign inserted into `active_tx` first |
| TrackerProperties.IndexOfPrefix | ysf-log_watcher.py:146 | a callsign of a prefix of the order has the same position in the whole order |
| TrackerProperties.EndLastActivity | ysf-log_watcher.py:148-153 | every long-enough callsign the loop reaches gets the end epoch, notified or not, also when the line raises later; any other callsign keeps its entry, or its absence |
| TrackerProperties.SuppressedStillRefreshes | ysf-log_watcher.py:148-153 | a long-enough transmission the loop reaches inside the window is not notified, yet moves the window to its own end |
| TrackerProperties.ShortIsIgnored | ysf-log_watcher.py:147-148 | an open transmission whose start converts and that is shorter than `MIN_DURATION` is never notified and leaves its last activity alone, whether or not the line raises |
| TrackerProperties.EndNeverLowers | ysf-log_watcher.py:153 | an end line whose epoch is at least every recorded one lowers no entry and leaves every entry at most that epoch, also when it raises |
| TrackerProperties.LastActivityCanGoBack | ysf-log_watcher.py:153 | an end line with an earlier epoch than the recorded one moves that callsign's last activity back |
| TrackerProperties.RunNeverLowers | ysf-log_watcher.py:153-170 | over lines whose end epochs never go backwards, no `last_activity` entry ever decreases |
| TrackerProperties.ApplyLinesAppend | ysf-log_watcher.py:165-170 | lines read in two polls are processed as one stream; after an exception nothing more is processed |
| TrackerProperties.LoneTransmission | ysf-log_watcher.py:135-157 | with nothing open, one start line and one end line close that transmission; they notify when it is long enough and out of the window, and refresh when it is long enough |
| TrackerProperties.TransmissionRun | ysf-log_watcher.py:135-170 | the same for the two lines as the reflector writes them |
| TrackerProperties.ExampleRun | ysf-log_watcher.py:135-170 | with `MIN_DURATION` 4 and `TIMER_DURATION` 900, four transmissions of one station give: notified, too short, suppressed but refreshing, notified again; the final state and both attempts are exact |
| Talkgroups.Cleaned | ysf-log_watcher.py:78-79 | `row.get(..., '').strip()`: the value is already stripped, and a missing column gives the empty string |
| Talkgroups.Entry | ysf-log_watcher.py:78-80 | a row yields a pair if and only if both stripped cells are non-empty, and the pair is then a non-empty stripped number and a non-empty stripped name |
| Talkgroups.Put | ysf-log_watcher.py:80-81 | `m[tg] = name` for a row with an entry: the number now maps to the name, every other number keeps its name; a row without an entry changes nothing |
| Talkgroups.Fill | ysf-log_watcher.py:77-81 | every number in the filled dict comes from some entry carrying that number and that name; `FillLookup` pins it down |
| Talkgroups.TalkgroupMapping | ysf-log_watcher.py:77-87 | every entry of the loaded dict is a stripped, non-empty number mapped to a stripped, non-empty name; `MappingLookup` and `BrokenRowEndsLoad` pin it down |
| Talkgroups.ReadableCount | ysf-log_watcher.py:77-79 | the rows before the first one whose reading raises are readable, and the row at that count raises |
| Talkgroups.LoadTalkgroupMapping | ysf-log_watcher.py:72-87 | the loop with its exception handler returns `TalkgroupMapping` of the rows |
| Talkgroups.LastNaming | ysf-log_watcher.py:80-81 | the position of the last entry for a number: an entry for it, with none after |
| Talkgroups.FillLookup | ysf-log_watcher.py:80-81 | a number is in the dict if and only if some entry is for it; its name is that of the last such entry |
| Talkgroups.FillClean | ysf-log_watcher.py:78-81 | every pair that the filled dict holds is clean |
| Talkgroups.MappingLookup | ysf-log_watcher.py:77-87 | a number is in the loaded dict if and only if a row read before the first broken one has an entry for it; the name is that of the last such row, and no later row names the number; an absent number has no such row |
| Talkgroups.BrokenRowEndsLoad | ysf-log_watcher.py:77-87 | a row whose reading raises ends the load: nothing from it or after it reaches the dict |

## Left out

- Tailing the log file (ysf-log_watcher.py:163-169): `seek` to the end, `readline`, and the 0.5 s sleep. This is blocking I/O. `Monitor` and `ApplyLines` take the lines already read, and `ApplyLinesAppend` shows that splitting them into polls makes no difference.
- The network code (ysf-log_watcher.py:58-70, 89-104, 123-131): `download_talkgroup_list`, `fetch_user_info` with its timeout and fallback values, and the Telegram `send_message`. These are foreign asynchronous calls. Each `fetch_user_info` + `send_telegram` pair is one entry of the ghost `attempts` log. The network parts catch their own exceptions.
- `fromisoformat(...).timestamp()` (ysf-log_watcher.py:144, 147). It produces floating-point seconds in the machine's time zone. It is the `toEpoch` parameter, in integer milliseconds, with `None` for a timestamp it rejects.
- Duration comparisons: made on those integer milliseconds against `MIN_DURATION * 1000` and `TIMER_DURATION * 1000`. Differences below one millisecond, and float rounding, are not modelled.
- `format_local` and the Markdown message (ysf-log_watcher.py:106-122). This is presentation, with a time-zone library. The talkgroup dict the message reads is the one `LoadTalkgroupMapping` builds.
- An exception from `format_local` (ysf-log_watcher.py:107-109, 112): `send_telegram` calls it before its `try`, so a start timestamp that converts for the loop yet overflows in `astimezone` would escape `process_line` after `fetch_user_info` and before `last_activity[cs]` is set. The model treats every attempt as returning normally.
- Configuration, environment, the exit on a missing token, and logging (ysf-log_watcher.py:17-50, and the `logger` calls). The two durations are constructor parameters.
- Reading the CSV file (ysf-log_watcher.py:75-76). The file does not exist: `FileNotFoundError` is caught and the result is the empty dict, the same as `LoadTalkgroupMapping([])`.
- Other errors while reading the CSV (ysf-log_watcher.py:85-86): a CSV syntax error or a decoding error part-way through the file. These also end the load with the rows read so far. The model raises only from an `Unfilled` cell, but `BrokenRowEndsLoad` shows the effect of any row that raises.
- Quoting and header handling inside `csv.DictReader`: a library. Rows are given already split into the two cells the loader reads.
- `monitor_logfile`'s order of calls (ysf-log_watcher.py:160-161), and `main` passing an empty dict (ysf-log_watcher.py:172-174). This is wiring. The downloaded table only feeds the message text.
- The `Monitor` loop ends at the first exception, as the watcher does. It does not model the watcher running forever.
