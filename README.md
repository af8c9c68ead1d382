# API Monitor: a Dafny model of the tray monitor's core

API Monitor is a Windows tray program. It polls one configured HTTP(S) URL on a timer. It reads the XML reply as a result (`success` or `fail`) and an optional message. It shows the outcome as a tray icon and tooltip, and it keeps a bounded history of status changes in the registry. Its settings dialog checks the URL live while the user types.

This project models the decision logic of `main.c` and proves what it does:

- `Text`: the C library behaviour the program relies on. This covers `isspace` and `tolower` in the C locale, `strstr`, `strncpy` truncation, `strcat` stopping at a NUL, `%lu` formatting and `atoi`'s leading-digit read.
- `Status`: the four results and their names.
- `Parser`: `ParseXmlResponse`. It tries the short `<r>` tag first, then the long `<result ...>` element. Each failure has its own diagnostic. The result text is cut to 31 characters, trimmed and lower-cased. The message is taken from `<message>` and right-trimmed in the program's own way.
- `ParserReplies`: round trips showing that well-formed replies of either dialect parse to their result and message.
- `History` and `HistoryRing`: the history ring buffer. `History` has the visible list, most recent first, and the registry blob as values. `HistoryRing` has the ring itself as a class over an array, proved against that list. It covers append, resize, save and load.
- `Url`: how a configured URL is taken apart into host, port, security flag and path. The refresh thread and the URL check share this split.
- `Polling`: one refresh cycle. It covers the retry loop, the bounded accumulation of the body and the status and message the cycle ends with.
- `Monitor`: `UpdateStatus`. It covers when a change enters the history, which refresh period the timer gets, the tooltip text and the tooltip timer, `SetRefreshInterval` and `ApplyConfiguration`.
- `Settings`: the settings dialog as a form. It covers the interval list, URL trimming, refusal of a blank URL and clamping of the history limit.
- `Validation`: the live URL check. It covers the verdict on a reply and the generation protocol that keeps stale checks off the screen.

Where the program interacts with the outside world, the model takes the result as a parameter. The network outcome of each attempt is an `Outcome`. The time stamp of a history entry and the seconds shown in the tooltip are numbers passed in. The text of the URL field is a string passed in.

Behaviour modelled as the code has it, where one might expect otherwise:

- A recognised result without a `<message>` element keeps the parser's initial message, "Invalid XML".
- The message keeps its leading whitespace. Trailing whitespace is removed only when the message has a non-blank character.
- Loading the history writes the saved records onto whatever the ring already holds. It does not clear the ring first.
- The URL check accepts any 200 reply whose body contains `<result` or `<r>`. This is looser than the parser (`Validation.CheckLooserThanPoller`).
- An interval that is not one of 60, 120 or 300 s shows as the first row of the list. Confirming the dialog therefore stores 60 s.

## Model

| member | source | states |
|---|---|---|
| Text.TrimLeft | main.c:1383-1384 | drops exactly the leading C-locale whitespace: the result is a suffix, every dropped character is whitespace, and the result is empty or starts with a non-blank |
| Text.TrimRight | main.c:900-901 | drops exactly the trailing whitespace: the result is a prefix whose last character is not blank, and everything dropped is whitespace |
| Text.TrimEmptyIffAllSpace | main.c:870-873 | trimming (either way) leaves nothing exactly when the text is all whitespace |
| Text.TrimOfPadded | main.c:1383-1386 | a word that neither starts nor ends with whitespace, padded with whitespace on both sides, trims back to the word |
| Text.TrimSplits | main.c:897-901 | the trimmed text is a contiguous slice with whitespace only before and after it |
| Text.TrimIsInfix | main.c:897-901 | trimming removes whitespace from the two ends and nothing else |
| Text.Truncate | main.c:1434-1436 | `strncpy` into an n+1 byte buffer keeps the whole text when it fits and otherwise exactly its first n characters |
| Text.FindFrom | main.c:1322 | `strstr`: returns the first occurrence at or after the start, and none when there is no occurrence |
| Text.FindFromStart | main.c:1322 | a search from the start succeeds exactly when the pattern occurs |
| Text.CStr | main.c:1578-1581 | the part of a chunk that `strcat` copies: the prefix before the first NUL |
| Text.LeadingNumberOfNatToString | main.c:1464-1468 | the `atoi`-style read of a number's decimal text, followed by a non-digit, gives the number back |
| Text.NatToString | main.c:1550 | the decimal text `%lu` writes is non-empty, all digits, and has no leading zero |
| Text.DigitsValueOfNatToString | main.c:1550 | reading back the decimal text of a number gives the number |
| Status.ApiResultToString | main.c:574-582 | each result has a non-empty name |
| Status.ApiResultNamesDistinct | main.c:574-582 | the four names are pairwise different |
| Parser.TrimMessage | main.c:1376-1379 | the message is left alone when all blank, and otherwise loses exactly its trailing whitespace, never its leading whitespace |
| Parser.MessageOf | main.c:1366-1381 | the message never exceeds 255 characters |
| Parser.ParseXmlResponse | main.c:1312-1401 | the parser never reports Error and its message fits 255 characters |
| Parser.ParseEmpty | main.c:1316-1320 | an empty body is Invalid with "Empty response" |
| Parser.ParseNoResultTag | main.c:1337-1342 | a body with neither `<r>` nor `<result` is Invalid with "No result tag" |
| Parser.ParseUnclosedShortTag | main.c:1327-1334 | `<r>` with no `</r>` after it is Invalid with "Unclosed <r> tag" |
| Parser.ParseUnclosedLongTag | main.c:1344-1349 | `<result` with no `</result>` after it is Invalid with "Unclosed <result> tag" |
| Parser.ParseMalformedLongTag | main.c:1351-1356 | no `>` between `<result` and its `</result>` is Invalid with "Malformed <result> tag" |
| Parser.ParseRecognisedNeedsTag | main.c:1322-1358 | a result other than Invalid needs a `</r>` after the end of the first `<r>`; with no `<r>`, it needs the first `<result`, then a `>` after it, then a `</result>` after that |
| Parser.ShortPathClosed | main.c:1322-1335 | on the `<r>` path, a result other than Invalid had a `</r>` starting at or after the end of the first `<r>` |
| Parser.ShortPathOpen | main.c:1322-1335 | a first `<r>` with no `</r>` after it gives Invalid |
| Parser.LongPathClosed | main.c:1337-1358 | with no `<r>`, a result other than Invalid had a `<result`, a `>` after it and a `</result>` after that `>` |
| Parser.LongPathOpen | main.c:1337-1358 | with no `<r>`, a missing `<result`, `</result>` or `>`, or a `>` that is not before the `</result>`, gives Invalid |
| Parser.OpenIsNotBracket | main.c:1351-1352 | the `<result` the search found and a `>` cannot sit at the same index, so the `>` found from it lies strictly after it |
| Parser.ParseShortTag | main.c:1322-1335 | on the short path the result is read from the text between the first `<r>` and the next `</r>`, and the message comes from the whole body |
| Parser.ParseLongTag | main.c:1337-1358 | on the long path the result is read from between the first `>` after `<result` and the next `</result>` |
| Parser.ResultOfCharacterized | main.c:1360-1398 | Success exactly when the first 31 characters are a whitespace-padded, case-insensitive `success`; Fail likewise for `fail`; Invalid otherwise |
| Parser.MessageAbsent | main.c:1313-1314 | without a complete message element the message is "Invalid XML", whatever the result |
| Parser.ResultOf | main.c:1360-1398 | a result text never reads as Error, and a blank one reads as Invalid |
| Parser.MessagePresent | main.c:1366-1380 | with one, the message is the element body cut to 255 characters, right-trimmed when it has a non-blank |
| Parser.CloseTagAfterOpen | main.c:1329 | the closing-tag search from an opening tag cannot match inside the opening tag |
| ParserReplies.ShortReplyRoundTrip | main.c:1322-1398 | `<r>success</r>` or `<r>fail</r>`, with an optional plain message element, parses to that result and message ("Invalid XML" without one) |
| ParserReplies.LongReplyRoundTrip | main.c:1337-1398 | the same for `<result attrs>word</result>` with any attributes free of `<` and `>` |
| ParserReplies.ShortTagPreferred | main.c:1322-1336 | when a long element comes before a short one, the short one decides the result |
| History.ClampCapacity | main.c:585-586 | the capacity is the request clamped to [10, 10000] |
| History.MakeEntry | main.c:619-625 | the entry keeps both results and the stamp, and each message whole when it fits in 255 characters, otherwise exactly its first 255 characters |
| History.Pushed | main.c:615-628 | after one append the new entry shows first, the earlier ones follow in order, and the oldest falls off once the ring is full |
| History.Appended | main.c:615-628 | after appending entries the last one shows first, and the list holds the old entries plus the appended ones, up to the capacity |
| History.TakePushed | main.c:627-628 | pushing onto a list that was already cut is pushing onto the whole list, then cutting |
| History.AppendedIsTake | main.c:615-629 | appending entries in order shows them newest first in front of the old list, keeping at most the capacity |
| History.AppendsToEmpty | main.c:615-636 | after N appends to an empty ring of capacity C there are min(N, C) entries, and position i shows append N-1-i |
| History.Saved | main.c:646-690 | saving writes the list's length as the count and, for a non-empty list, a blob of exactly the list that a load accepts; an empty list writes no data |
| History.Loaded | main.c:692-753 | a rejected load changes nothing; an accepted one puts the first min(count, capacity) saved records, in saved order, in front of the old list and cuts to the capacity |
| History.SizeMatchesIff | main.c:716-722 | the size check accepts exactly blobs made of `count` whole records |
| History.LoadedIsAppended | main.c:738-749 | a load is appending the first min(count, capacity) records oldest first |
| History.LoadRejected | main.c:699-722 | a load is skipped exactly for a zero count, missing data or a size mismatch, and then changes nothing |
| History.SaveLoadRoundTrip | main.c:646-753 | saving then loading into an empty ring at least as large gives the list back |
| History.SaveLoadIntoSmaller | main.c:738-749 | loading into a smaller empty ring keeps the most recent entries that fit |
| HistoryRing.Slot | main.c:634 | the slot of a display position lies inside the array |
| HistoryRing.SlotIsModulo | main.c:634 | the slot of display position i, i places before the slot behind `head` and wrapping once, is the ring's `(head - 1 - i + capacity) % capacity` |
| HistoryRing.NextHead | main.c:627 | the next write position lies inside the array |
| HistoryRing.NextHeadIsModulo | main.c:627 | advancing by one and wrapping to 0 at the capacity is the ring's `(head + 1) % capacity` |
| HistoryRing.PushView | main.c:618-628 | writing at `head` and advancing is exactly a push onto the shown list |
| HistoryRing.CopiedView | main.c:594-604 | the resize copy, oldest first from slot 0 with `head = n % cap`, shows the n most recent entries unchanged |
| HistoryRing.Ring.View | main.c:631-636 | the shown list has `count` entries |
| HistoryRing.Ring.constructor | main.c:98-101 | a new ring has no buffer and shows nothing |
| HistoryRing.Ring.Get | main.c:631-636 | returns the entry at display position i, and none outside [0, count) or without a buffer |
| HistoryRing.Ring.Add | main.c:615-629 | with a buffer, the list becomes the push of the new entry; without one, nothing changes |
| HistoryRing.Ring.Insert | main.c:618-628 | the list becomes the push of the entry, and the buffer and capacity stay |
| HistoryRing.Ring.Init | main.c:584-613 | the capacity becomes the clamped request and the list keeps its most recent entries that fit; the same capacity leaves the ring untouched |
| HistoryRing.Ring.CopyNewest | main.c:594-602 | copies the n most recent entries into the new array, oldest in slot 0 |
| HistoryRing.Ring.Free | main.c:638-644 | afterwards there is no buffer and the list is empty |
| HistoryRing.Ring.Save | main.c:646-690 | writes the count and the list most recent first, or count 0 and no data when empty |
| HistoryRing.Ring.Load | main.c:692-753 | the list becomes the specified load of the store onto the current list |
| HistoryRing.Ring.InsertOldestFirst | main.c:738-749 | inserting records toLoad-1 down to 0 puts them in saved order in front of the list |
| Url.SchemeOf | main.c:1444-1454 | `http://` is recognised first, then `https://`; otherwise there is no scheme |
| Url.Before | main.c:1456-1462 | the text up to the first occurrence of a character, which it does not contain |
| Url.After | main.c:1456-1467 | the rest after the first occurrence exists exactly when the character occurs, and before + c + after is the text |
| Url.SplitUrl | main.c:1434-1476 | the host holds no `/` or `:`, the path starts with `/`, and the request is secure exactly for `https://` |
| Url.CutJoined | main.c:1456-1468 | cutting at the first `c` of `a + c + b`, where `a` has no `c`, gives `a` and `b` |
| Url.HostPortSplits | main.c:1464-1468 | `host:port` splits back into the host and the decimal port; a bare host keeps the default port |
| Url.SplitComposed | main.c:1444-1476 | a URL composed of scheme, host, optional port and optional path splits back into exactly those parts, with defaults 80 and 443 and path `/` |
| Polling.Kept | main.c:1568-1585 | no more chunks are kept than read, and none of them is empty |
| Polling.Joined | main.c:1578-1581 | the joined chunks are no longer than the chunks together and hold no NUL |
| Polling.JoinedAppend | main.c:1581 | joining distributes over concatenation |
| Polling.KeptBounded | main.c:1580-1583 | the kept chunks never take the total to 4095 bytes or more |
| Polling.Body | main.c:1564-1588 | the body always fits the 4096-byte buffer with its NUL and holds no NUL |
| Polling.KeptAllWhenSmall | main.c:1568-1585 | when the non-empty chunks add up to less than 4095 bytes, all are kept |
| Polling.KeptIsSubsequence | main.c:1568-1585 | the kept chunks are chunks read, in the order read, with the dropped ones left out |
| Polling.AccumulateBody | main.c:1564-1588 | the receive loop builds exactly the specified body, shorter than 4095 |
| Polling.Answer | main.c:1544-1624 | an attempt past the network yields a message of at most 255 characters |
| Polling.HttpStatusMessage | main.c:1549-1553 | a non-200 status gives Error with "HTTP <code>" |
| Polling.RunCycle | main.c:1403-1634 | the retry loop yields exactly the specified cycle result |
| Polling.FirstAnswered | main.c:1596-1607 | finds the first of the three attempts that got past the network; all attempts before it failed there |
| Polling.CycleFrom | main.c:1420-1625 | from any attempt on, every attempt before the last one made met a network error, the last one is the third or got past the network, one pause separates each two attempts, and the message has at most 255 characters |
| Polling.Cycle | main.c:1403-1625 | at most three attempts, no attempt exactly when there is no URL, one pause fewer than attempts otherwise, and a message of at most 255 characters |
| Polling.CycleFromAnswered | main.c:1420-1624 | from any attempt, network errors up to an answered attempt k end the cycle with k's answer after k+1 attempts |
| Polling.CycleFromUnanswered | main.c:1596-1606 | network errors to the last attempt end in Error with the last error's text |
| Polling.CycleOutcome | main.c:1403-1634 | the whole cycle: no URL gives "API URL not configured" with no attempt; otherwise the first answered attempt's result, or Error after three network errors; pauses come only between attempts |
| Polling.ErrorOnlyWithoutParse | main.c:1403-1625 | the cycle ends in Error exactly for a missing URL, three network errors or a non-200 status |
| Polling.AnsweredIsLast | main.c:1549-1624 | an attempt that gets any status is the last one |
| Monitor.ShouldRecord | main.c:1638-1640 | a change of result is always recorded; with the same result, a message change is recorded except under Success; nothing is recorded without a change |
| Monitor.RepeatNotRecorded | main.c:1638-1642 | reporting the current status again records nothing |
| Monitor.MessageOnlyChange | main.c:1638-1642 | a message-only change is recorded exactly when the result is not Success |
| Monitor.FirstObservation | main.c:1638-1642 | from the start-up state, Error with an empty message, any other status is recorded |
| Monitor.ElapsedTextReads | main.c:1690-1702 | the text starts "Updated " followed by the decimal seconds, and ends " second ago" for one second and " seconds ago" otherwise |
| Monitor.FullTooltip | main.c:1690-1707 | the two-line text is the elapsed text, followed, when there is a message, by a line break and the message |
| Monitor.TooltipText | main.c:1676-1716 | the tooltip never exceeds 63 characters |
| Monitor.TruncateAppend | main.c:1703-1707 | cutting, appending and cutting again equals appending and cutting once |
| Monitor.TooltipOfResult | main.c:1682-1716 | for Success and Fail the tooltip is "Updated N second(s) ago", plus the message on a second line, when that fits 63 characters, and its first 60 characters with "..." otherwise |
| Monitor.TooltipOfProblem | main.c:1678-1681 | Error and Invalid show fixed texts |
| Monitor.Monitor.constructor | main.c:79-90 | the status starts as Error with an empty message and a 60 s interval |
| Monitor.Monitor.UpdateStatus | main.c:1636-1674 | stores the status with the message cut to 255 characters, pushes a history entry exactly when the change is recordable, redraws the tooltip with 0 seconds elapsed, since the update time is taken just before, and sets the timer to the configured interval after Success and to 10 s otherwise |
| Monitor.Monitor.TooltipTick | main.c:1738-1747 | the tooltip timer redraws the tooltip with the elapsed seconds unless the status is Error or Invalid, and changes nothing else |
| Monitor.Monitor.SetRefreshInterval | main.c:1279-1293 | a user setting is stored and takes effect only under Success; an internal one always resets the timer |
| Monitor.Monitor.ApplyConfiguration | main.c:755-762 | restarts the timer with the configured interval |
| Settings.SelectionFor | main.c:834-837 | an interval in the list selects its row; any other selects row 0 |
| Settings.IntervalAt | main.c:914-916 | a valid row gives its interval; anything else gives 60 s |
| Settings.FieldUrl | main.c:892-901 | the URL read is the field's first 511 characters with only leading and trailing whitespace removed; it starts and ends with a non-blank and is empty exactly when the field is blank |
| Settings.Submit | main.c:889-941 | OK refuses exactly a blank URL; otherwise it stores the trimmed URL, the interval of the selected row (60 s when no row is valid) and the logging box, and clamps the history limit to [10, 10000] and re-sizes the ring when the field reads as a number, keeping the old limit when it does not |
| Settings.SelectionRoundTrip | main.c:834-916 | a listed interval survives opening and confirming the dialog; any other becomes 60 s |
| Settings.SubmitStorable | main.c:889-930 | whatever OK stores is a trimmed, non-blank URL, a listed interval and a limit in range |
| Settings.OpenSubmitUnchanged | main.c:821-941 | opening the dialog on such a configuration and pressing OK unedited stores it unchanged |
| Settings.FieldUrlOfStored | main.c:892-901 | a URL that is already trimmed and fits the buffer reads back from the field unchanged |
| Settings.BlankRefused | main.c:904-907 | a blank URL is refused whatever the rest of the form says |
| Validation.Verdict | main.c:1090-1126 | a check passes exactly when the status is 200 and the buffered body contains `<result` or `<r>` |
| Validation.RecognisedPasses | main.c:1124-1126 | every 200 body the poller reads as Success or Fail passes the check |
| Validation.CheckLooserThanPoller | main.c:1124-1126 | a body holding only `<r>` passes the check but parses as Invalid |
| Validation.Validator.constructor | main.c:110 | the generation counter starts at 0 with nothing in flight |
| Validation.Validator.StartValidation | main.c:802-813 | takes a new generation and launches a check of the URL cut to 511 characters; every earlier check and report becomes stale |
| Validation.Validator.Open | main.c:821-861 | clears the status line and, for a configured URL, shows "Checking..." and launches a check |
| Validation.BlankField | main.c:869-873 | the field counts as blank exactly when its first 511 characters are all whitespace |
| Validation.BumpStales | main.c:878 | taking a new generation keeps the validator consistent and leaves every check in flight and every report behind it |
| Validation.LaunchKeeps | main.c:802-813 | launching a check under the next generation keeps the validator consistent |
| Validation.Validator.Edit | main.c:865-886 | a blank field clears the status, stops the timer and takes a new generation, so that nothing pending can report; otherwise "Checking..." and the timer restarts |
| Validation.Validator.DebounceFired | main.c:951-967 | stops the timer and launches a check of the trimmed URL when it is not blank |
| Validation.Validator.Close | main.c:889-1003 | OK, Cancel and closing stop the timer |
| Validation.Validator.Finish | main.c:1133-1137 | a finished check posts its verdict only while its generation is the latest, which only the newest check in flight can be |
| Validation.Validator.Deliver | main.c:971-982 | a report changes the status line to Valid or Invalid only when its generation is still the latest, and that generation was a launched check |

## Left out

- Win32 user interface: tray icon, menus, the history list window, dialog layout, colours, display-change handling and DPI. These are presentation only.
- WinHTTP: the network is an input. Each attempt is an `Outcome`: a network error with its diagnostic text, an unreadable status, or a status with the chunks the reads returned.
- Registry and INI I/O, first-launch detection and configuration persistence, apart from the history blob's layout. These are external stores.
- Logging and log-file rotation. They have no effect on state.
- Threads and timers: the refresh thread runs as one sequential cycle, and the 2-second sleep is counted rather than performed. Races between the refresh thread and the user interface are not modelled. The URL check's threads are a sequence of checks in flight, and messages are a FIFO queue.
- The attempt tooltip "Updating API contents [n/3]..." shown during a cycle. It is display only.
- Clocks: the history time stamp and the tooltip timer's elapsed seconds are parameters.
- A missing main window, which disables timers. The model assumes the window exists.
- Allocation failures: `calloc` and `malloc` returning null.
- Polling.Cycle: requires an outcome for each of the three attempts, even those never made.
- Polling.Answer: the "HTTP <code>" message is cut to 255 characters. This only matters beyond 32-bit status codes (`Polling.HttpStatusMessage`).
- Url.SplitComposed: requires that a URL without a scheme does not itself start with `http://` or `https://`.
- Url.SplitUrl: `atoi`'s sign and leading-whitespace handling is not modelled, and neither is the 16-bit port cast. The port is read as leading digits.
- Validation.Validator: the 32-bit wrap-around of the generation counter is not modelled. The counter is unbounded.
- HistoryRing.Ring: the 32-bit byte-count arithmetic of save and load (count times 536 bytes) is not modelled.
- The history dialog's clear command: main.c has no handler for it. The history list's formatting of time stamps is left out because it is display only.
- Text: strings are characters. UTF-8 conversion to wide strings for WinHTTP is not modelled.
