/**
  The conversation transcript that `add_message` appends to: one line per
  message, `<time>: <stripped message>` and a newline, in the file
  `conversations/<date of this line>/<turn start>.txt`.
*/
module Transcript {
  import opened Wrappers
  import opened Text

  /** One reading of the wall clock, as the three renderings the program makes
      of it: `date` ("%Y-%m-%d", the directory), `clock` ("%H:%M:%S", the line
      prefix) and `stamp` ("%m-%d-%Y_%H-%M-%S", the file name). */
  datatype Reading = Reading(date: string, clock: string, stamp: string)

  /** One call of `add_message`: the file it appends to, the clock it read
      and the message it was given. */
  datatype Record = Record(dir: string, file: string, clock: string, message: string)

  /** "%H:%M:%S" always renders as eight characters. */
  const ClockWidth := 8

  /** The text written for one message. */
  function FormatLine(clock: string, message: string): string {
    clock + ": " + Strip(message) + "\n"
  }

  /** The text a record appends to its file. */
  function Line(r: Record): string {
    FormatLine(r.clock, r.message)
  }

  /** Reads a transcript line back into its time and its message. */
  function ParseLine(line: string): Option<(string, string)> {
    if |line| >= ClockWidth + 3 && line[ClockWidth..ClockWidth + 2] == ": "
       && line[|line| - 1] == '\n'
    then Some((line[..ClockWidth], line[ClockWidth + 2..|line| - 1]))
    else None
  }

  /** Every line reads back as the clock it was written at and the message
      with its surrounding whitespace removed. */
  lemma ParseFormatLine(clock: string, message: string)
    requires |clock| == ClockWidth
    ensures ParseLine(FormatLine(clock, message)) == Some((clock, Strip(message)))
  {
    var line := FormatLine(clock, message);
    assert line[ClockWidth..ClockWidth + 2] == ": ";
    assert line[..ClockWidth] == clock;
    assert line[ClockWidth + 2..|line| - 1] == Strip(message);
  }

  /** A message made of a tag that opens with a non-space character and a
      non-empty stripped text is written out unchanged. */
  lemma FormatLabelled(clock: string, tag: string, text: string)
    requires tag != [] && !IsSpace(tag[0])
    requires text != [] && IsStripped(text)
    ensures FormatLine(clock, tag + text) == clock + ": " + tag + text + "\n"
  {
    StripLabelled(tag, text);
    assert clock + ": " + (tag + text) == clock + ": " + tag + text;
  }

  /** The record `add_message` writes: the directory is the date of the clock
      reading taken for this very line, the file name the turn's start stamp
      `initialTime`. */
  function MessageRecord(message: string, initialTime: string, now: Reading): Record {
    Record(now.date, initialTime + ".txt", now.clock, message)
  }

  /** The record as intended: the directory, too, comes from the turn's start,
      so every line of a turn lands in one file. */
  function IntendedMessageRecord(message: string, turnStart: Reading, now: Reading): Record {
    Record(turnStart.date, turnStart.stamp + ".txt", now.clock, message)
  }

  /** Two lines of one turn, logged either side of midnight, go to two
      different directories under the same file name. */
  lemma AsWrittenSplitsTurnAtMidnight()
    ensures var start := Reading("2026-10-14", "23:59:58", "10-14-2026_23-59-58");
            var reply := Reading("2026-10-15", "00:00:04", "10-15-2026_00-00-04");
            var out := MessageRecord("You: hello", start.stamp, start);
            var back := MessageRecord("Replika: hi", start.stamp, reply);
            out.dir != back.dir && out.file == back.file
  {
  }

  /** The append-only transcript sink: the records written so far, in order. */
  class Log {
    var records: seq<Record>

    constructor ()
      ensures records == []
    {
      records := [];
    }

    /** `add_message`: appends one record and changes nothing else. */
    method AddMessage(message: string, initialTime: string, now: Reading)
      modifies this
      ensures records == old(records) + [MessageRecord(message, initialTime, now)]
    {
      records := records + [MessageRecord(message, initialTime, now)];
    }
  }
}
