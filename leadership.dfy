/** The leadership chart (assets/js/plotly-leadership.js): every chairing
    period of the leadership CSV becomes a horizontal bar, a two-point line
    trace from its start to its end at the height of its affiliation.
    Periods whose start and end strings are equal are dropped. */
module Leadership {
  import opened Seqs
  import opened Rows

  /** The width of every bar. */
  const LineWidth: nat := 25

  datatype Line = Line(color: string, width: nat)

  /** `{type, mode, line: {color, width}, name, text, x, y}`. */
  datatype LineTrace = LineTrace(
    kind: string,
    mode: string,
    line: Line,
    name: string,
    text: string,
    x: seq<string>,
    y: seq<string>)

  /** A row is drawn when its start and end strings differ. */
  predicate Kept(r: Row) {
    r.datetimeMin != r.datetimeMax
  }

  /** The trace pushed for a kept row, coloured by `colorOf`, the
      colour of an affiliation. */
  function TraceOf(r: Row, colorOf: string -> string): LineTrace {
    LineTrace(
      "scatter",
      "lines",
      Line(colorOf(r.affiliation), LineWidth),
      r.affiliation,
      r.name,
      [r.datetimeMin, r.datetimeMax],
      [r.affiliation, r.affiliation])
  }

  /** The traces of the kept rows of `rows`, in row order. */
  function LineTraces(rows: seq<Row>, colorOf: string -> string): seq<LineTrace> {
    if rows == [] then []
    else
      var last := rows[|rows| - 1];
      LineTraces(rows[..|rows| - 1], colorOf) + (if Kept(last) then [TraceOf(last, colorOf)] else [])
  }

  /** The row loop: the traces are exactly those of the kept rows, in
      row order. */
  method BuildTraces(rows: seq<Row>, colorOf: string -> string) returns (traces: seq<LineTrace>)
    ensures traces == LineTraces(rows, colorOf)
  {
    traces := [];
    for i := 0 to |rows|
      invariant traces == LineTraces(rows[..i], colorOf)
    {
      assert rows[..i + 1][..i] == rows[..i];
      var hexcolor := colorOf(rows[i].affiliation);
      var datetimeMin, datetimeMax := rows[i].datetimeMin, rows[i].datetimeMax;
      if datetimeMin != datetimeMax {
        traces := traces + [LineTrace(
          "scatter",
          "lines",
          Line(hexcolor, LineWidth),
          rows[i].affiliation,
          rows[i].name,
          [datetimeMin, datetimeMax],
          [rows[i].affiliation, rows[i].affiliation])];
      }
    }
    assert rows[..|rows|] == rows;
  }

  /** The traces follow the kept rows: there is one trace per kept row and
      none for any other row, so there are at most as many traces as rows;
      trace k is the trace of the k-th kept row, and traces appear in the
      order of their rows. */
  lemma {:induction false} LineTracesOrder(rows: seq<Row>, colorOf: string -> string)
    ensures var ix := FilterIndices(rows, Kept);
      && |LineTraces(rows, colorOf)| == |ix| <= |rows|
      && (forall k :: 0 <= k < |ix| ==>
           ix[k] < |rows| && LineTraces(rows, colorOf)[k] == TraceOf(rows[ix[k]], colorOf))
      && (forall k, l :: 0 <= k < l < |ix| ==> ix[k] < ix[l])
      && (forall i :: 0 <= i < |rows| ==> (Kept(rows[i]) <==> i in ix))
  {
    FilterOrder(rows, Kept);
    if rows != [] {
      var init := rows[..|rows| - 1];
      LineTracesOrder(init, colorOf);
      assert forall i :: 0 <= i < |init| ==> rows[i] == init[i];
    }
  }

  /** Every trace is a two-point scatter line of width 25 in the colour of
      its affiliation, running between two different moments at the
      height of its affiliation, which is also its name. */
  lemma LineTracesShape(rows: seq<Row>, colorOf: string -> string)
    ensures forall t :: t in LineTraces(rows, colorOf) ==>
      && t.kind == "scatter" && t.mode == "lines"
      && t.line == Line(colorOf(t.name), LineWidth)
      && |t.x| == 2 && t.x[0] != t.x[1]
      && t.y == [t.name, t.name]
  {
    LineTracesOrder(rows, colorOf);
    var ix := FilterIndices(rows, Kept);
    forall t | t in LineTraces(rows, colorOf)
      ensures && t.kind == "scatter" && t.mode == "lines"
              && t.line == Line(colorOf(t.name), LineWidth)
              && |t.x| == 2 && t.x[0] != t.x[1]
              && t.y == [t.name, t.name]
    {
      var k :| 0 <= k < |ix| && LineTraces(rows, colorOf)[k] == t;
      assert Kept(rows[ix[k]]);
    }
  }

  /** When every row's start and end are different strings every row is
      drawn; when every row's start and end are the same string, none is. */
  lemma {:induction false} LineTracesExtremes(rows: seq<Row>, colorOf: string -> string)
    ensures (forall r :: r in rows ==> Kept(r)) ==> |LineTraces(rows, colorOf)| == |rows|
    ensures (forall r :: r in rows ==> !Kept(r)) ==> LineTraces(rows, colorOf) == []
  {
    if rows != [] {
      var init := rows[..|rows| - 1];
      LineTracesExtremes(init, colorOf);
      assert forall r :: r in init ==> r in rows;
    }
  }
}
