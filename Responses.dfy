/**
  Reply selection: which texts `get_bot_responses` collects from the chat rows
  the page has rendered.
*/
module Responses {
  import opened Wrappers
  import opened Text

  /** One rendered chat row. `hasRoleCell` says whether the row holds the
      companion's role cell (the rows the companion wrote); `text` is the
      content of its live-region text span, `None` when the row has none. */
  datatype Row = Row(hasRoleCell: bool, text: Option<string>)

  /** The text one row contributes: the stripped span text of a companion row,
      when that is not empty. */
  function RowReply(row: Row): Option<string> {
    if row.hasRoleCell && row.text.Some? && Strip(row.text.value) != [] then
      Some(Strip(row.text.value))
    else None
  }

  /** The replies of `rows`, in rendered order. */
  function Collect(rows: seq<Row>): (r: seq<string>)
    ensures |r| <= |rows|
    ensures forall k :: 0 <= k < |r| ==> r[k] != [] && IsStripped(r[k])
  {
    if rows == [] then []
    else
      var last := RowReply(rows[|rows| - 1]);
      Collect(rows[..|rows| - 1]) + (if last.Some? then [last.value] else [])
  }

  /** What `get_bot_responses` returns: `None` stands for the wait for a first
      row timing out or the driver raising during the scan, both of which make
      the function return an empty list. */
  function BotResponses(snapshot: Option<seq<Row>>): seq<string> {
    if snapshot.Some? then Collect(snapshot.value) else []
  }

  /** The scan of `get_bot_responses`: one pass over the rows, appending each
      reply. */
  method GetBotResponses(snapshot: Option<seq<Row>>) returns (responses: seq<string>)
    ensures responses == BotResponses(snapshot)
  {
    responses := [];
    if snapshot.None? {
      return;
    }
    var rows := snapshot.value;
    var i := 0;
    while i < |rows|
      invariant 0 <= i <= |rows|
      invariant responses == Collect(rows[..i])
    {
      var row := rows[i];
      if row.hasRoleCell && row.text.Some? {
        var text := Strip(row.text.value);
        if text != [] {
          responses := responses + [text];
        }
      }
      assert rows[..i + 1][..i] == rows[..i];
      i := i + 1;
    }
    assert rows[..i] == rows;
  }

  /** Collecting is compositional: the replies of two consecutive stretches of
      rows are those of the first followed by those of the second. */
  lemma {:induction false} CollectAppend(a: seq<Row>, b: seq<Row>)
    ensures Collect(a + b) == Collect(a) + Collect(b)
    decreases |b|
  {
    if b == [] {
      assert a + b == a;
    } else {
      var b' := b[..|b| - 1];
      assert (a + b)[..|a + b| - 1] == a + b';
      assert (a + b)[|a + b| - 1] == b[|b| - 1];
      CollectAppend(a, b');
    }
  }

  /** A text is collected exactly when some row contributes it. */
  lemma {:induction false} CollectMembership(rows: seq<Row>, t: string)
    ensures t in Collect(rows) <==> exists k :: 0 <= k < |rows| && RowReply(rows[k]) == Some(t)
  {
    if rows != [] {
      var init := rows[..|rows| - 1];
      CollectMembership(init, t);
      assert forall k :: 0 <= k < |init| ==> init[k] == rows[k];
      if RowReply(rows[|rows| - 1]) == Some(t) {
        assert t in Collect(rows);
      }
    }
  }

  /** Nothing is collected exactly when no row contributes a reply. */
  lemma {:induction false} CollectEmpty(rows: seq<Row>)
    ensures Collect(rows) == [] <==> forall k :: 0 <= k < |rows| ==> RowReply(rows[k]).None?
  {
    if rows != [] {
      var init := rows[..|rows| - 1];
      CollectEmpty(init);
      assert forall k :: 0 <= k < |init| ==> init[k] == rows[k];
    }
  }

  /** The last collected text is the reply of the last row that contributes
      one, whatever rows follow it, even when those are companion rows whose
      text is blank. */
  lemma {:induction false} CollectLast(rows: seq<Row>, k: nat)
    requires k < |rows| && RowReply(rows[k]).Some?
    requires forall j :: k < j < |rows| ==> RowReply(rows[j]).None?
    ensures Collect(rows) != []
    ensures Collect(rows)[|Collect(rows)| - 1] == RowReply(rows[k]).value
  {
    var head, tail := rows[..k + 1], rows[k + 1..];
    assert rows == head + tail;
    CollectAppend(head, tail);
    CollectEmpty(tail);
    assert head[..|head| - 1] == rows[..k];
  }

  /** A row that yields no reply (no role cell, no text span, or a span whose
      text is blank) contributes nothing wherever it appears. */
  lemma SkippedRowsContributeNothing(a: seq<Row>, row: Row, b: seq<Row>)
    requires RowReply(row).None?
    ensures Collect(a + [row] + b) == Collect(a + b)
  {
    CollectAppend(a + [row], b);
    CollectAppend(a, b);
    assert (a + [row])[..|a + [row]| - 1] == a;
  }

  /** A companion row whose text is blank does not hide an earlier reply: the
      earlier text is still the last one collected. */
  lemma BlankLastRowFallsBack()
    ensures var rows := [Row(true, Some("hi")), Row(true, Some("  "))];
            Collect(rows) == ["hi"]
  {
    var rows := [Row(true, Some("hi")), Row(true, Some("  "))];
    assert Strip("  ") == [];
    assert Strip("hi") == "hi" by { StripStripped("hi"); }
    assert rows[..1] == [Row(true, Some("hi"))];
    assert rows[..1][..0] == [];
  }
}
