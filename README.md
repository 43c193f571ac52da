# Replika command-line client: turn logic

`replika.py` drives the Replika web chat from a terminal. Each line the user
types is one turn. A turn checks for the exit words, sends the message, and
appends `You: <message>` to the transcript. It then takes the companion's reply:
the last text reply on the page, or, when there is none, the last image
attachment, after which the user picks "Send another one" or "Stop". The
reply is logged as `Replika: <text>` or `Replika (image): <src>`. Transcript
lines read `HH:MM:SS: <stripped message>` and go to
`conversations/<date>/<turn start>.txt`, where `<date>` is the date at the
moment that line is written and `<turn start>` the time the turn began. The interactive loop skips blank
lines and ends on `exit` or `quit`.

The model replaces the browser and the clock by their answers. One turn gets
a `TurnEnv` value holding:
- whether the input box appeared and whether the echo wait matched a bubble;
- the chat rows scanned for replies;
- the image attachments;
- the follow-up line typed;
- the controls present;
- the clock readings.

The transcript is a `Log` object whose `records` field the methods append to.

Modules, in dependency order:
- `Wrappers`: the `Option` type.
- `Text`: Python's `str.strip()` over the full `isspace()` set, and lower-casing.
- `Responses`: the row filter of `get_bot_responses`, as a loop proved against `Collect`.
- `Transcript`: `add_message`, the line format and the file a line goes to.
- `Exchange`: one turn. It is both the function `Turn` and the method `ReplikaInteraction`, which mirrors the code's statement order.
- `Session`: the prompt loop of `main`. It is both the method `RunSession` and the function `SessionRecords`.

`Turn` takes a `Revision`. `AsWritten` is the code as it stands, and it is
what `ReplikaInteraction` and `RunSession` run. `Intended` applies the two
corrections listed under "## Findings". Both are defined so that each
finding can be shown on the code as written and proved fixed on the
corrected code. Lemmas that take `rev` hold for both.

Two places where the documented behaviour and the code differ; the model follows the code in both:
- A send whose echo never appears is reported as failed by `send_message`. The turn then returns before `add_message`, so no `You:` line is written.
- A trailing companion row with blank text is skipped by the row filter. The reply is then the last earlier row with text, not "no reply".

## Model

| member | source | states |
|---|---|---|
| Text.Strip | replika.py:168-169 | the result begins and ends with a non-space character, and is empty exactly when every character is whitespace |
| Text.StripIsInfix | replika.py:168-169 | the stripped text is the part of the input between a whitespace-only prefix and a whitespace-only suffix |
| Text.StripLabelled | replika.py:121 | a `You: `/`Replika: ` tag followed by a non-empty stripped text survives `strip()` unchanged |
| Text.Lower | replika.py:200 | definition: `lower()` on each character (ASCII letters only, see "## Left out") |
| Text.LowerMatches | replika.py:200 | a string lower-cases to a lower-case word exactly when it spells that word in some mix of letter cases |
| Text.LowerIsOne | replika.py:227-230 | a line lower-cases to "1" exactly when it is "1" |
| Responses.RowReply | replika.py:161-169 | definition: a row yields the stripped text of its span when it has the role cell, the span exists and the text is not blank |
| Responses.Collect | replika.py:158-173 | at most one reply per row, and every reply is non-empty and stripped |
| Responses.BotResponses | replika.py:142-180 | definition: the replies of the scanned rows, and none when no row appeared or the scan raised |
| Responses.GetBotResponses | replika.py:142-180 | the scan loop returns exactly the replies of the rows in page order, and an empty list when no row appeared or the scan raised |
| Responses.CollectAppend | replika.py:158-173 | the replies of two consecutive stretches of rows are the first stretch's followed by the second's |
| Responses.CollectMembership | replika.py:158-173 | a text is collected iff some row yields exactly that text |
| Responses.CollectEmpty | replika.py:158-173 | nothing is collected iff no row yields a reply |
| Responses.CollectLast | replika.py:158-173 | the last collected text is the reply of the last row that yields one, whatever non-yielding rows follow it |
| Responses.SkippedRowsContributeNothing | replika.py:161-171 | a row that yields no reply (no role cell, no span, or blank text) changes nothing, wherever it stands |
| Responses.BlankLastRowFallsBack | replika.py:168-169 | with a blank last companion row, the earlier row's text is still the one collected |
| Transcript.FormatLine | replika.py:121 | definition: the clock, `: `, the stripped message and a newline |
| Transcript.ParseFormatLine | replika.py:111-121 | a written line reads back as the 8-character clock and the stripped message |
| Transcript.FormatLabelled | replika.py:121 | a tagged, already stripped message is written as clock, `: `, tag, text and a newline, with nothing stripped |
| Transcript.MessageRecord | replika.py:111-118 | definition, as written: the directory is the date of this call's clock reading, the file name the turn's start stamp |
| Transcript.IntendedMessageRecord | replika.py:111-118 | definition, corrected: the directory is the turn's start date as well |
| Transcript.AsWrittenSplitsTurnAtMidnight | replika.py:111-118 | two lines of one turn logged either side of midnight share a file name but go to different directories |
| Transcript.Log.AddMessage | replika.py:109-121 | appends exactly the as-written record of one call and changes nothing else |
| Exchange.IsExitCommand | replika.py:200 | definition: the message lower-cases to `exit` or `quit` |
| Exchange.ExitCommandIff | replika.py:200-202 | a message is an exit word exactly when it spells `exit` or `quit` in any mix of letter cases, with nothing around it |
| Exchange.ExitCommandExamples | replika.py:200-202 | concrete spellings: `exit`, `QUIT`, `eXiT` end the session; ` exit`, `exits` and the empty string do not |
| Exchange.ChooseFollowUp | replika.py:227-235 | "Send another one" is chosen exactly when the typed line strips to "1"; every other line chooses "Stop" |
| Exchange.ImageProbe | replika.py:182-194 | definition: the source of the last image, possibly absent, and nothing when there are no images |
| Exchange.BreaksEchoQuery | replika.py:134 | definition: a message with no apostrophe and an odd number of double quotes, for which the echo expression cannot be well formed |
| Exchange.Delivered | replika.py:123-140 | definition: `send_message` reports success when the box was found and the echo matched, and, as written, the echo expression is well formed |
| Exchange.Turn | replika.py:196-239 | definition: the turn's outcome and its records, for either revision |
| Exchange.ReplikaInteraction | replika.py:196-239 | the turn's steps in the code's order; its outcome and appended records are those of the as-written `Turn` |
| Exchange.TerminateIff | replika.py:200-202 | a turn terminates exactly on an exit word, and then logs nothing |
| Exchange.SendFailedLogsNothing | replika.py:205-206 | for a non-exit message, the turn reports a failed send and logs nothing exactly when `send_message` reports failure |
| Exchange.BrokenQueryLogsNothing | replika.py:132-140 | as written, a non-exit message that breaks the echo expression logs nothing, whatever the page shows |
| Exchange.QuotedExample | replika.py:134 | the message `5"` breaks the echo expression and is not an exit word |
| Exchange.QuotedMessageDropped | replika.py:134 | typed and echoed, `5"` logs nothing as written and is logged with the corrected echo test |
| Exchange.IntendedLogsEveryConfirmedMessage | replika.py:134 | with the corrected echo test, every confirmed non-exit message is logged first as its `You:` line |
| Exchange.OutboundFirstAndOnce | replika.py:205-224 | after a successful send the `You:` record comes first and only once; a second record exists exactly for a text or image reply |
| Exchange.TextWins | replika.py:214-218 | with any text reply, the outcome is the last collected text and the log is the `You:` and `Replika:` lines; images, follow-up line and controls do not matter |
| Exchange.TextReplyIsLastRowText | replika.py:214-218 | the reply is the stripped text of the last row that yields one |
| Exchange.ImageFallback | replika.py:219-237 | with no text and a non-empty last image source, that source is the reply and is logged; the follow-up is the choice's; a missing control changes nothing that is logged |
| Exchange.NoReplyLogsOutboundOnly | replika.py:219-239 | with no text and no usable last image source, only the `You:` line is logged |
| Exchange.ReplyKindIff | replika.py:214-239 | a text reply iff some row yields text; an image reply iff none does and the last image has a non-empty source; otherwise no reply |
| Exchange.AsWrittenTurnFiles | replika.py:111-118 | as written, every record of a turn has the file name of the turn's start, and each sits in the directory of the date it was written on |
| Exchange.AsWrittenTurnSplitsAtMidnight | replika.py:111-118 | as written, a turn whose reply is written on a later date than its `You:` line puts the two in different directories |
| Exchange.TurnRecordsShareFile | replika.py:118 | with the corrected directory, every record of a turn goes to the one directory and file named by the turn's start |
| Exchange.OutboundLineExact | replika.py:208 | for a stripped, non-empty message the logged line is `<clock>: You: <message>` exactly |
| Exchange.TextLineExact | replika.py:216-218 | the logged reply line is `<clock>: Replika: <reply>` exactly |
| Session.Step | replika.py:264-269 | definition: a blank line adds nothing, an exit line ends the records, any other line puts its turn's records first |
| Session.SessionRecords | replika.py:264-269 | definition: the records the lines of a session append, in order |
| Session.RunSession | replika.py:264-269 | the loop ends by exit exactly when some line strips to an exit word, and the transcript grows by exactly `SessionRecords` of the lines |
| Session.SkipBlank | replika.py:266-268 | a line that strips to nothing is skipped and does not end the session |
| Session.Advance | replika.py:269 | a non-exit turn appends its own records, and the lines after it pick up from there |
| Session.StopAtExit | replika.py:200-202 | an exit line appends nothing, and nothing is appended after it |
| Session.BlankLineSkipped | replika.py:266-268 | inserting a blank line anywhere leaves the session's records unchanged |
| Session.NothingAfterExit | replika.py:200-202 | lines typed after an exit line change nothing that is logged |
| Session.ExitCommandNotBlank | replika.py:266-268 | an exit word is never blank, so the skip cannot swallow it |
| Session.SessionAppend | replika.py:264-269 | before any exit, a session's records are the records of its first stretch of lines followed by those of the rest |
| Session.StepAppend | replika.py:264-269 | a line that does not end the session puts its records in front of whatever follows |

## Left out

- Selenium is left out: driver start-up, Chrome profile paths (`initialize_driver`) and login (`login_to_replika`). The page is a parameter of each turn.
- The fixed sleeps are left out. They only pace the page.
- `.env` loading and colorama are left out. The console messages are output only.
- Creating the conversations directories is left out. The filesystem is the `Log` record list; directory and file are fields of each record.
- The clock is left out. Each `datetime.now()` reading is a `Reading` parameter, already rendered in the three formats the code uses.
- Responses.GetBotResponses: the timeout and every other exception of the scan are one case, a `None` snapshot. The code returns `[]` for both and only prints different messages.
- Text.Lower: lower-cases ASCII letters only. The model uses it solely to compare with "exit", "quit" and "1", and no other character lower-cases to a single one of their letters.
- Exchange.Delivered: XPath is not parsed. The model derives a failure only for messages with no apostrophe and an odd number of double quotes, which can never give a well-formed expression. For every other message, quoted or not, whether the echo wait succeeds is the input `echoMatched`. That includes messages such as `say "hi"`, whose expression is also malformed, and ones such as `") or ("`, whose expression parses but tests something else.
- The single-argument mode (`python replika.py "<message>"`) is not modelled as its own loop. It is one call of `Turn` on the argument unstripped; `Exchange.ExitCommandIff` shows that a padded exit word does not end it.
- Ctrl-C and end of input are left out, as are the `driver.quit()` that follows them and `sys.exit`. The session simply ends.
- The ordering of the wait inside `handle_image_response` is left out. The model receives the images present, or none when the wait timed out.

## Findings

| source | as written | input that shows it | evidently intended | confidence | as-written member | corrected member |
|---|---|---|---|---|---|---|
| replika.py:134 | the echo check puts the message between the double quotes of an XPath literal. A message with no apostrophe and an odd number of `"` then gives a malformed expression. The exception is caught and the send is reported failed, so the turn logs nothing although the message was typed | the message `5"`, typed into the box and echoed by the page | a typed and echoed message is confirmed and logged whatever characters it holds | not executed; high | Exchange.QuotedMessageDropped | Exchange.IntendedLogsEveryConfirmedMessage |
| replika.py:111-118 | `add_message` takes the date directory from the clock at each call, while the file name comes from the turn's start | a turn starting 2026-10-14 23:59:58 whose reply is logged at 2026-10-15 00:00:04 | all lines of one turn go to the one file named by its start | not executed; medium | Exchange.AsWrittenTurnSplitsAtMidnight | Exchange.TurnRecordsShareFile |
