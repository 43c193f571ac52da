/**
  One turn of `replika_interaction`: test for the exit words, send, log the
  outbound line, pick the reply (text first, then image), log it, and for an
  image run the follow-up choice. The browser is replaced by what it returned
  during the turn, gathered in a `TurnEnv`.
*/
module Exchange {
  import opened Wrappers
  import opened Text
  import opened Responses
  import opened Transcript

  /** The two controls offered after an image reply. */
  datatype FollowUp = SendAnother | Stop

  /** One rendered image attachment; `src` is `None` when it has no source. */
  datatype Image = Image(src: Option<string>)

  /** What the outside world supplied during one turn:
      - `start`: the clock when the turn began (its stamp names the transcript file);
      - `boxFound`: the message input box appeared within its wait;
      - `echoMatched`: the echo wait found a matching message bubble, whenever
        its expression is well formed (what the page answers is not modelled);
      - `snapshot`: the chat rows scanned for replies (`None`: none appeared, or the scan raised);
      - `sentAt`, `repliedAt`: the clock when each line is appended;
      - `images`: the image attachments present (empty: the wait for one timed out);
      - `choice`: the line typed at the follow-up prompt;
      - `buttons`: the follow-up controls present on the page. */
  datatype TurnEnv = TurnEnv(
    start: Reading,
    boxFound: bool,
    echoMatched: bool,
    snapshot: Option<seq<Row>>,
    sentAt: Reading,
    images: seq<Image>,
    repliedAt: Reading,
    choice: string,
    buttons: set<FollowUp>)

  /** How a turn ended. In `ImageReply`, `clicked` says whether the chosen
      follow-up control was found; a missing control is reported and the turn
      still ends normally. */
  datatype Outcome =
    | Terminate
    | SendFailed
    | TextReply(text: string)
    | ImageReply(src: string, followUp: FollowUp, clicked: bool)
    | NoReply

  datatype TurnResult = TurnResult(outcome: Outcome, records: seq<Record>)

  /** Which behaviour a turn follows: the code as it stands, or the code with
      the echo test quoting the message safely and with every line of a turn
      written under the turn's own date. */
  datatype Revision = AsWritten | Intended

  /** The words that end the session, in any letter case. */
  predicate IsExitCommand(message: string) {
    Lower(message) == "exit" || Lower(message) == "quit"
  }

  /** A message ends the session exactly when it spells `exit` or `quit` in
      some mix of letter cases, with nothing around it. */
  lemma ExitCommandIff(message: string)
    ensures IsExitCommand(message)
            <==> MatchesIgnoringCase(message, "exit") || MatchesIgnoringCase(message, "quit")
  {
    LowerMatches(message, "exit");
    LowerMatches(message, "quit");
  }

  /** Concrete spellings: mixed cases end the session; a padded, longer or
      empty word does not. */
  lemma ExitCommandExamples()
    ensures IsExitCommand("exit") && IsExitCommand("QUIT") && IsExitCommand("eXiT")
    ensures !IsExitCommand(" exit") && !IsExitCommand("exits") && !IsExitCommand("")
  {
    ExitCommandIff("exit");
    ExitCommandIff("QUIT");
    ExitCommandIff("eXiT");
    ExitCommandIff(" exit");
    assert |Lower("exits")| == 5;
  }

  /** The follow-up choice: "1", after stripping and lower-casing, asks for
      another image; any other line stops. */
  function ChooseFollowUp(choice: string): (f: FollowUp)
    ensures f == SendAnother <==> Strip(choice) == "1"
  {
    LowerIsOne(Strip(choice));
    if Lower(Strip(choice)) == "1" then SendAnother else Stop
  }

  /** What `handle_image_response` returns: the source of the last image,
      which may itself be absent, and nothing when there are no images. */
  function ImageProbe(images: seq<Image>): Option<string> {
    if images == [] then None else images[|images| - 1].src
  }

  /** The number of double quotes in `s`. */
  function QuoteCount(s: string): nat {
    if s == [] then 0 else (if s[0] == '"' then 1 else 0) + QuoteCount(s[1..])
  }

  /** The echo expression of `send_message` puts the message between the
      double quotes of an XPath string literal; its fixed part holds four
      double quotes and no apostrophe. Without an apostrophe every double
      quote must delimit a literal, so a message holding no apostrophe and an
      odd number of double quotes cannot give a well-formed expression. Other
      quoted messages may or may not parse; for those the page's answer is
      `echoMatched`. */
  predicate BreaksEchoQuery(message: string) {
    '\'' !in message && QuoteCount(message) % 2 == 1
  }

  /** `send_message` reports success: the box was found and the echo wait
      matched, and, as the code stands, the echo expression was well formed
      (a malformed one raises, which is caught and reported as a failure). */
  predicate Delivered(rev: Revision, message: string, env: TurnEnv) {
    env.boxFound && env.echoMatched && (rev == Intended || !BreaksEchoQuery(message))
  }

  /** The outbound and reply lines, as `replika_interaction` builds them. */
  function OutboundLine(message: string): string { "You: " + message }
  function TextLine(text: string): string { "Replika: " + text }
  function ImageLine(src: string): string { "Replika (image): " + src }

  /** The record of one `add_message` call of the turn, made at `now`. */
  function Logged(rev: Revision, line: string, env: TurnEnv, now: Reading): Record {
    if rev == AsWritten then MessageRecord(line, env.start.stamp, now)
    else IntendedMessageRecord(line, env.start, now)
  }

  /** One turn of `replika_interaction`: its outcome and the records it appends. */
  function Turn(rev: Revision, message: string, env: TurnEnv): TurnResult {
    if IsExitCommand(message) then TurnResult(Terminate, [])
    else if !Delivered(rev, message, env) then TurnResult(SendFailed, [])
    else
      var out := Logged(rev, OutboundLine(message), env, env.sentAt);
      var responses := BotResponses(env.snapshot);
      if responses != [] then
        var latest := responses[|responses| - 1];
        TurnResult(TextReply(latest), [out, Logged(rev, TextLine(latest), env, env.repliedAt)])
      else
        var url := ImageProbe(env.images);
        if url.Some? && url.value != [] then
          var f := ChooseFollowUp(env.choice);
          TurnResult(ImageReply(url.value, f, f in env.buttons),
                     [out, Logged(rev, ImageLine(url.value), env, env.repliedAt)])
        else TurnResult(NoReply, [out])
  }

  /** `replika_interaction` as the code stands, against the transcript: the
      same steps, in the same order, with each line appended as it is
      produced. */
  method ReplikaInteraction(log: Log, message: string, env: TurnEnv) returns (outcome: Outcome)
    modifies log
    ensures outcome == Turn(AsWritten, message, env).outcome
    ensures log.records == old(log.records) + Turn(AsWritten, message, env).records
  {
    var initialTime := env.start.stamp;
    if IsExitCommand(message) {
      return Terminate;
    }
    if !Delivered(AsWritten, message, env) {
      return SendFailed;
    }
    log.AddMessage(OutboundLine(message), initialTime, env.sentAt);
    var responses := GetBotResponses(env.snapshot);
    if |responses| > 0 {
      var latest := responses[|responses| - 1];
      log.AddMessage(TextLine(latest), initialTime, env.repliedAt);
      outcome := TextReply(latest);
    } else {
      var url := ImageProbe(env.images);
      if url.Some? && url.value != [] {
        log.AddMessage(ImageLine(url.value), initialTime, env.repliedAt);
        var f := ChooseFollowUp(env.choice);
        outcome := ImageReply(url.value, f, f in env.buttons);
      } else {
        outcome := NoReply;
      }
    }
  }

  /** The exit words end the session before any send and before any line is
      logged, and nothing else ends it. */
  lemma TerminateIff(rev: Revision, message: string, env: TurnEnv)
    ensures Turn(rev, message, env).outcome == Terminate <==> IsExitCommand(message)
    ensures IsExitCommand(message) ==> Turn(rev, message, env).records == []
  {
  }

  /** A send reported as failed logs nothing at all, and it is the only way a
      non-exit turn logs nothing. */
  lemma SendFailedLogsNothing(rev: Revision, message: string, env: TurnEnv)
    requires !IsExitCommand(message)
    ensures Turn(rev, message, env).outcome == SendFailed <==> !Delivered(rev, message, env)
    ensures Turn(rev, message, env).records == [] <==> !Delivered(rev, message, env)
  {
  }

  /** As the code stands, a message whose quotes break the echo expression is
      reported as not sent, so its turn logs nothing, whatever the page shows. */
  lemma BrokenQueryLogsNothing(message: string, env: TurnEnv)
    requires !IsExitCommand(message) && BreaksEchoQuery(message)
    ensures Turn(AsWritten, message, env).outcome == SendFailed
    ensures Turn(AsWritten, message, env).records == []
  {
  }

  /** `5"` holds one double quote and no apostrophe, and is not an exit word. */
  lemma QuotedExample()
    ensures BreaksEchoQuery("5\"") && !IsExitCommand("5\"")
  {
    var message := "5\"";
    assert |Lower(message)| == 2;
    assert message[1..] == "\"" && message[1..][1..] == [];
  }

  /** The message `5"` (five inches), typed and echoed, is dropped from the
      transcript as the code stands, and logged with the intended echo test. */
  lemma QuotedMessageDropped(env: TurnEnv)
    requires env.boxFound && env.echoMatched
    ensures Turn(AsWritten, "5\"", env).records == []
    ensures Turn(Intended, "5\"", env).records != []
  {
    QuotedExample();
    BrokenQueryLogsNothing("5\"", env);
    IntendedLogsEveryConfirmedMessage("5\"", env);
  }

  /** With the intended echo test every message the page confirms is logged,
      whatever characters it holds, and its `You:` line comes first. */
  lemma IntendedLogsEveryConfirmedMessage(message: string, env: TurnEnv)
    requires !IsExitCommand(message) && env.boxFound && env.echoMatched
    ensures Turn(Intended, message, env).records != []
    ensures Turn(Intended, message, env).records[0]
            == IntendedMessageRecord(OutboundLine(message), env.start, env.sentAt)
  {
  }

  /** After a successful send exactly one outbound line is logged, first, and
      at most one reply line follows it. */
  lemma OutboundFirstAndOnce(rev: Revision, message: string, env: TurnEnv)
    requires !IsExitCommand(message) && Delivered(rev, message, env)
    ensures var rs := Turn(rev, message, env).records;
            1 <= |rs| <= 2
            && rs[0] == Logged(rev, OutboundLine(message), env, env.sentAt)
            && (|rs| == 2 <==> Turn(rev, message, env).outcome.TextReply? || Turn(rev, message, env).outcome.ImageReply?)
  {
  }

  /** When any companion row carries text, the reply is the last collected
      text, the log ends with its `Replika:` line, and the images, the
      follow-up line and the controls play no part. */
  lemma TextWins(rev: Revision, message: string, env: TurnEnv, images: seq<Image>, choice: string, buttons: set<FollowUp>)
    requires !IsExitCommand(message) && Delivered(rev, message, env)
    requires BotResponses(env.snapshot) != []
    ensures var rs := BotResponses(env.snapshot);
            var latest := rs[|rs| - 1];
            Turn(rev, message, env).outcome == TextReply(latest)
            && Turn(rev, message, env).records
               == [Logged(rev, OutboundLine(message), env, env.sentAt),
                   Logged(rev, TextLine(latest), env, env.repliedAt)]
    ensures Turn(rev, message, env.(images := images, choice := choice, buttons := buttons)) == Turn(rev, message, env)
  {
    var env' := env.(images := images, choice := choice, buttons := buttons);
    assert env'.snapshot == env.snapshot && env'.start == env.start;
    assert env'.sentAt == env.sentAt && env'.repliedAt == env.repliedAt;
    assert Delivered(rev, message, env');
  }

  /** The text reply is the stripped text of the last companion row that has
      one, even when companion rows with blank text (or rows of earlier turns)
      surround it. */
  lemma TextReplyIsLastRowText(rev: Revision, message: string, env: TurnEnv, k: nat)
    requires !IsExitCommand(message) && Delivered(rev, message, env)
    requires env.snapshot.Some? && k < |env.snapshot.value|
    requires RowReply(env.snapshot.value[k]).Some?
    requires forall j :: k < j < |env.snapshot.value| ==> RowReply(env.snapshot.value[j]).None?
    ensures Turn(rev, message, env).outcome == TextReply(Strip(env.snapshot.value[k].text.value))
  {
    var rows := env.snapshot.value;
    CollectLast(rows, k);
    var rs := BotResponses(env.snapshot);
    assert rs == Collect(rows) && rs != [];
    assert rs[|rs| - 1] == Strip(rows[k].text.value);
  }

  /** With no text, the source of the last image (when present and not empty)
      is the reply and is logged as a `Replika (image):` line; the follow-up
      is the one the typed choice selects, and whether its control was found
      changes neither the outcome's kind nor the log. */
  lemma ImageFallback(rev: Revision, message: string, env: TurnEnv)
    requires !IsExitCommand(message) && Delivered(rev, message, env)
    requires BotResponses(env.snapshot) == []
    requires env.images != [] && env.images[|env.images| - 1].src.Some?
    requires env.images[|env.images| - 1].src.value != []
    ensures var src := env.images[|env.images| - 1].src.value;
            var f := ChooseFollowUp(env.choice);
            Turn(rev, message, env).outcome == ImageReply(src, f, f in env.buttons)
            && Turn(rev, message, env).records
               == [Logged(rev, OutboundLine(message), env, env.sentAt),
                   Logged(rev, ImageLine(src), env, env.repliedAt)]
    ensures Turn(rev, message, env.(buttons := {})).records == Turn(rev, message, env).records
  {
  }

  /** With neither text nor a usable image source only the outbound line is
      logged. The last image decides: one without a source hides earlier
      images that have one. */
  lemma NoReplyLogsOutboundOnly(rev: Revision, message: string, env: TurnEnv)
    requires !IsExitCommand(message) && Delivered(rev, message, env)
    requires BotResponses(env.snapshot) == []
    requires env.images == [] || env.images[|env.images| - 1].src in {None, Some([])}
    ensures Turn(rev, message, env).outcome == NoReply
    ensures Turn(rev, message, env).records == [Logged(rev, OutboundLine(message), env, env.sentAt)]
  {
  }

  /** The reply kind: text exactly when some row yields text; an image exactly
      when no row does and the last image has a non-empty source; otherwise
      none. */
  lemma ReplyKindIff(rev: Revision, message: string, env: TurnEnv)
    requires !IsExitCommand(message) && Delivered(rev, message, env)
    ensures var rows := if env.snapshot.Some? then env.snapshot.value else [];
            var hasText := exists k :: 0 <= k < |rows| && RowReply(rows[k]).Some?;
            var hasImage := env.images != [] && env.images[|env.images| - 1].src.Some?
                            && env.images[|env.images| - 1].src.value != [];
            && (Turn(rev, message, env).outcome.TextReply? <==> hasText)
            && (Turn(rev, message, env).outcome.ImageReply? <==> !hasText && hasImage)
            && (Turn(rev, message, env).outcome.NoReply? <==> !hasText && !hasImage)
  {
    var rows := if env.snapshot.Some? then env.snapshot.value else [];
    CollectEmpty(rows);
  }

  /** As the code stands, every line of a turn goes to the file named by the
      turn's start, but in the directory of the date at which that line is
      written. */
  lemma AsWrittenTurnFiles(message: string, env: TurnEnv)
    ensures var rs := Turn(AsWritten, message, env).records;
            (forall r :: r in rs ==> r.file == env.start.stamp + ".txt")
            && (|rs| >= 1 ==> rs[0].dir == env.sentAt.date)
            && (|rs| == 2 ==> rs[1].dir == env.repliedAt.date)
  {
  }

  /** As the code stands, a turn whose reply is written on a later date than
      its outbound line splits across two directories. */
  lemma AsWrittenTurnSplitsAtMidnight(message: string, env: TurnEnv)
    requires |Turn(AsWritten, message, env).records| == 2
    requires env.sentAt.date != env.repliedAt.date
    ensures var rs := Turn(AsWritten, message, env).records;
            rs[0].dir != rs[1].dir && rs[0].file == rs[1].file
  {
    AsWrittenTurnFiles(message, env);
  }

  /** With the intended directory, every record of a turn goes to the one file
      named by the turn's start. */
  lemma TurnRecordsShareFile(message: string, env: TurnEnv)
    ensures forall r :: r in Turn(Intended, message, env).records ==>
              r.dir == env.start.date && r.file == env.start.stamp + ".txt"
  {
  }

  /** From the interactive prompt the message is already stripped and not
      empty, so the outbound line holds it exactly. */
  lemma OutboundLineExact(rev: Revision, message: string, env: TurnEnv)
    requires !IsExitCommand(message) && Delivered(rev, message, env)
    requires message != [] && IsStripped(message)
    ensures Line(Turn(rev, message, env).records[0]) == env.sentAt.clock + ": " + "You: " + message + "\n"
  {
    var t := Turn(rev, message, env);
    assert t.records[0] == Logged(rev, OutboundLine(message), env, env.sentAt);
    FormatLabelled(env.sentAt.clock, "You: ", message);
  }

  /** A text reply line holds the reply exactly: the reply is already
      stripped, so logging strips nothing from it. */
  lemma TextLineExact(rev: Revision, message: string, env: TurnEnv)
    requires !IsExitCommand(message) && Delivered(rev, message, env)
    requires Turn(rev, message, env).outcome.TextReply?
    ensures Line(Turn(rev, message, env).records[1])
            == env.repliedAt.clock + ": " + "Replika: " + Turn(rev, message, env).outcome.text + "\n"
  {
    var t := Turn(rev, message, env);
    var rs := BotResponses(env.snapshot);
    assert rs != [];
    var latest := rs[|rs| - 1];
    assert latest != [] && IsStripped(latest);
    assert t.outcome.text == latest;
    assert t.records[1] == Logged(rev, TextLine(latest), env, env.repliedAt);
    FormatLabelled(env.repliedAt.clock, "Replika: ", latest);
  }
}
