/**
  The interactive loop of `main`: read a line, strip it, skip it when blank,
  otherwise run one turn; the exit words end the loop.
*/
module Session {
  import opened Text
  import opened Transcript
  import opened Exchange

  /** One line typed at the prompt, with what the browser and the clock supply
      if that line becomes a turn. */
  datatype Entry = Entry(line: string, env: TurnEnv)

  /** The line ends the session once stripped. */
  predicate EndsSession(e: Entry) {
    IsExitCommand(Strip(e.line))
  }

  /** Some line in `entries` ends the session. */
  predicate HasExit(entries: seq<Entry>) {
    exists k :: 0 <= k < |entries| && EndsSession(entries[k])
  }

  /** What one typed line adds in front of the records of the lines after it:
      nothing for a blank line, and nothing more at all after an exit word. */
  function Step(e: Entry, rest: seq<Record>): seq<Record> {
    var message := Strip(e.line);
    if message == [] then rest
    else
      var t := Turn(AsWritten, message, e.env);
      if t.outcome == Terminate then [] else t.records + rest
  }

  /** The records the lines `entries[i..]` append, in order. */
  function RecordsFrom(entries: seq<Entry>, i: nat): seq<Record>
    decreases |entries| - i
  {
    if i >= |entries| then [] else Step(entries[i], RecordsFrom(entries, i + 1))
  }

  /** The records a session over `entries` appends, in order. */
  function SessionRecords(entries: seq<Entry>): seq<Record> {
    RecordsFrom(entries, 0)
  }

  /** The loop of `main` over the lines typed, until one ends the session or
      the lines run out. */
  method RunSession(log: Log, entries: seq<Entry>) returns (terminated: bool)
    modifies log
    ensures terminated <==> HasExit(entries)
    ensures log.records == old(log.records) + SessionRecords(entries)
  {
    terminated := false;
    var i := 0;
    while i < |entries|
      invariant 0 <= i <= |entries|
      invariant forall k :: 0 <= k < i ==> !EndsSession(entries[k])
      invariant old(log.records) + SessionRecords(entries) == log.records + RecordsFrom(entries, i)
    {
      var message := Strip(entries[i].line);
      if message != [] {
        ghost var before := log.records;
        var outcome := ReplikaInteraction(log, message, entries[i].env);
        if outcome == Terminate {
          StopAtExit(entries, i);
          return true;
        }
        Advance(entries, i, before, log.records);
      } else {
        SkipBlank(entries, i);
      }
      NoExitExtends(entries, i);
      i := i + 1;
    }
  }

  /** No line before `i + 1` ends the session once none before `i` does and
      line `i` does not. */
  lemma NoExitExtends(entries: seq<Entry>, i: nat)
    requires i < |entries| && !EndsSession(entries[i])
    requires forall k :: 0 <= k < i ==> !EndsSession(entries[k])
    ensures forall k :: 0 <= k < i + 1 ==> !EndsSession(entries[k])
  {
  }

  /** A blank line is skipped and does not end the session. */
  lemma SkipBlank(entries: seq<Entry>, i: nat)
    requires i < |entries| && Strip(entries[i].line) == []
    ensures RecordsFrom(entries, i) == RecordsFrom(entries, i + 1)
    ensures !EndsSession(entries[i])
  {
  }

  /** A line that runs a turn other than an exit appends that turn's records
      and leaves the rest of the session to the lines after it. */
  lemma Advance(entries: seq<Entry>, i: nat, before: seq<Record>, after: seq<Record>)
    requires i < |entries|
    requires Strip(entries[i].line) != []
    requires Turn(AsWritten, Strip(entries[i].line), entries[i].env).outcome != Terminate
    requires after == before + Turn(AsWritten, Strip(entries[i].line), entries[i].env).records
    ensures before + RecordsFrom(entries, i) == after + RecordsFrom(entries, i + 1)
    ensures !EndsSession(entries[i])
  {
    var t := Turn(AsWritten, Strip(entries[i].line), entries[i].env);
    var rest := RecordsFrom(entries, i + 1);
    assert RecordsFrom(entries, i) == t.records + rest;
    Associative(before, t.records, rest);
    TerminateIff(AsWritten, Strip(entries[i].line), entries[i].env);
  }

  lemma Associative(a: seq<Record>, b: seq<Record>, c: seq<Record>)
    ensures a + (b + c) == a + b + c
  {
  }

  /** A line that ends the session appends nothing, and neither do the lines
      after it. */
  lemma StopAtExit(entries: seq<Entry>, i: nat)
    requires i < |entries|
    requires Turn(AsWritten, Strip(entries[i].line), entries[i].env).outcome == Terminate
    ensures RecordsFrom(entries, i) == []
    ensures Turn(AsWritten, Strip(entries[i].line), entries[i].env).records == []
    ensures EndsSession(entries[i])
  {
    TerminateIff(AsWritten, Strip(entries[i].line), entries[i].env);
  }

  /** The records of the lines from `i` on depend on those lines only. */
  lemma {:induction false} RecordsFromSuffix(x: seq<Entry>, i: nat, y: seq<Entry>, j: nat)
    requires i <= |x| && j <= |y| && x[i..] == y[j..]
    ensures RecordsFrom(x, i) == RecordsFrom(y, j)
    decreases |x| - i
  {
    if i < |x| {
      assert x[i] == x[i..][0] == y[j..][0] == y[j];
      assert x[i + 1..] == x[i..][1..] == y[j..][1..] == y[j + 1..];
      RecordsFromSuffix(x, i + 1, y, j + 1);
    }
  }

  /** A blank line contributes nothing, wherever it stands. */
  lemma BlankLineSkipped(a: seq<Entry>, e: Entry, b: seq<Entry>)
    requires Strip(e.line) == []
    ensures SessionRecords(a + [e] + b) == SessionRecords(a + b)
  {
    BlankLineSkippedFrom(a, e, b, 0);
  }

  lemma {:induction false} BlankLineSkippedFrom(a: seq<Entry>, e: Entry, b: seq<Entry>, i: nat)
    requires Strip(e.line) == [] && i <= |a|
    ensures RecordsFrom(a + [e] + b, i) == RecordsFrom(a + b, i)
    decreases |a| - i
  {
    var x, y := a + [e] + b, a + b;
    if i == |a| {
      assert x[i] == e;
      SkipBlank(x, i);
      assert x[i + 1..] == b == y[i..];
      RecordsFromSuffix(x, i + 1, y, i);
    } else {
      assert x[i] == a[i] == y[i];
      BlankLineSkippedFrom(a, e, b, i + 1);
    }
  }

  /** Nothing typed after a line that ends the session is logged. */
  lemma NothingAfterExit(a: seq<Entry>, e: Entry, b: seq<Entry>)
    requires EndsSession(e)
    ensures SessionRecords(a + [e] + b) == SessionRecords(a + [e])
  {
    NothingAfterExitFrom(a, e, b, 0);
  }

  lemma {:induction false} NothingAfterExitFrom(a: seq<Entry>, e: Entry, b: seq<Entry>, i: nat)
    requires EndsSession(e) && i <= |a|
    ensures RecordsFrom(a + [e] + b, i) == RecordsFrom(a + [e], i)
    decreases |a| - i
  {
    var x, y := a + [e] + b, a + [e];
    if i == |a| {
      assert x[i] == e == y[i];
      TerminateIff(AsWritten, Strip(e.line), e.env);
      StopAtExit(x, i);
      StopAtExit(y, i);
      assert RecordsFrom(x, i) == RecordsFrom(y, i);
    } else {
      assert x[i] == a[i] == y[i];
      NothingAfterExitFrom(a, e, b, i + 1);
      assert RecordsFrom(x, i) == Step(x[i], RecordsFrom(x, i + 1));
      assert RecordsFrom(y, i) == Step(y[i], RecordsFrom(y, i + 1));
      assert RecordsFrom(x, i) == RecordsFrom(y, i);
    }
  }

  /** An exit word is never blank. */
  lemma ExitCommandNotBlank(message: string)
    requires IsExitCommand(message)
    ensures message != []
  {
  }

  /** Before any exit word, the session logs each stretch of lines turn after
      turn, with no turn's records interleaved with another's. */
  lemma SessionAppend(a: seq<Entry>, b: seq<Entry>)
    requires !HasExit(a)
    ensures SessionRecords(a + b) == SessionRecords(a) + SessionRecords(b)
  {
    SessionAppendFrom(a, b, 0);
  }

  lemma {:induction false} SessionAppendFrom(a: seq<Entry>, b: seq<Entry>, i: nat)
    requires !HasExit(a) && i <= |a|
    ensures RecordsFrom(a + b, i) == RecordsFrom(a, i) + SessionRecords(b)
    decreases |a| - i
  {
    var x := a + b;
    if i == |a| {
      assert x[i..] == b[0..];
      RecordsFromSuffix(x, i, b, 0);
    } else {
      assert x[i] == a[i];
      assert !EndsSession(a[i]);
      SessionAppendFrom(a, b, i + 1);
      StepAppend(a[i], RecordsFrom(a, i + 1), SessionRecords(b));
    }
  }

  /** A line that does not end the session puts its records in front of
      whatever follows. */
  lemma StepAppend(e: Entry, r1: seq<Record>, r2: seq<Record>)
    requires !EndsSession(e)
    ensures Step(e, r1 + r2) == Step(e, r1) + r2
  {
    var m := Strip(e.line);
    if m != [] {
      TerminateIff(AsWritten, m, e.env);
    }
  }
}
