/**
 * The row-delimiter scan shared by the search-page and detail-page parsers:
 * a line containing `<tr>` opens a row (dropping any row left open), a line
 * containing `</tr>` closes the open row, and the lines in between are the
 * row's lines. The state is the triple of variables the parsers keep
 * (`insideRow`, `currentRow`, and the rows closed so far).
 */
module RowScan {
  import opened Text
  import opened Patterns

  datatype Scan = Scan(insideRow: bool, currentRow: seq<string>, rows: seq<seq<string>>)

  /** The state before the first line. */
  const Start := Scan(false, [], [])

  predicate OpensRow(line: string) {
    Contains(line, "<tr>")
  }

  predicate ClosesRow(line: string) {
    Contains(line, "</tr>")
  }

  /** A line that neither opens nor closes a row. */
  predicate Inner(line: string) {
    !OpensRow(line) && !ClosesRow(line)
  }

  /** A row body none of whose lines opens or closes a row. */
  predicate InnerRow(body: seq<string>) {
    forall l :: l in body ==> Inner(l)
  }

  /** One iteration of the parsers' `for line in lines` loop. */
  function Step(st: Scan, line: string): Scan {
    if OpensRow(line) then Scan(true, [], st.rows)
    else if ClosesRow(line) && st.insideRow then Scan(false, st.currentRow, st.rows + [st.currentRow])
    else if st.insideRow then Scan(true, st.currentRow + [line], st.rows)
    else st
  }

  /** The state after scanning `lines`, starting from `st`. */
  function ScanFrom(st: Scan, lines: seq<string>): Scan
    decreases |lines|
  {
    if lines == [] then st else Step(ScanFrom(st, lines[..|lines| - 1]), lines[|lines| - 1])
  }

  /** The closed rows of a document, in document order. */
  function Rows(lines: seq<string>): seq<seq<string>> {
    ScanFrom(Start, lines).rows
  }

  /** Scanning two pieces one after the other is scanning their concatenation. */
  lemma {:induction false} ScanAppend(st: Scan, a: seq<string>, b: seq<string>)
    ensures ScanFrom(st, a + b) == ScanFrom(ScanFrom(st, a), b)
    decreases |b|
  {
    if b == [] {
      assert a + b == a;
    } else {
      assert (a + b)[..|a + b| - 1] == a + b[..|b| - 1];
      ScanAppend(st, a, b[..|b| - 1]);
    }
  }

  /** Rows, once closed, are never changed or removed: later lines only append. */
  lemma {:induction false} RowsGrow(st: Scan, lines: seq<string>)
    ensures |st.rows| <= |ScanFrom(st, lines).rows|
    ensures ScanFrom(st, lines).rows[..|st.rows|] == st.rows
    decreases |lines|
  {
    if lines != [] {
      RowsGrow(st, lines[..|lines| - 1]);
    }
  }

  /** No line of a row opens or closes a row: the delimiter lines are not part of it. */
  lemma {:induction false} RowLinesInner(st: Scan, lines: seq<string>)
    requires forall r, l :: r in st.rows && l in r ==> Inner(l)
    requires forall l :: l in st.currentRow ==> Inner(l)
    ensures forall r, l :: r in ScanFrom(st, lines).rows && l in r ==> Inner(l)
    ensures forall l :: l in ScanFrom(st, lines).currentRow ==> Inner(l)
    decreases |lines|
  {
    if lines != [] {
      RowLinesInner(st, lines[..|lines| - 1]);
    }
  }

  /** Every line of every row of a document is an inner line. */
  lemma RowsAreInner(lines: seq<string>)
    ensures forall r, l :: r in Rows(lines) && l in r ==> Inner(l)
  {
    RowLinesInner(Start, lines);
  }

  /** Inner lines of an open row are collected verbatim, in order. */
  lemma {:induction false} CollectInner(st: Scan, body: seq<string>)
    requires st.insideRow
    requires forall l :: l in body ==> Inner(l)
    ensures ScanFrom(st, body) == Scan(true, st.currentRow + body, st.rows)
    decreases |body|
  {
    if body == [] {
      assert st.currentRow + body == st.currentRow;
    } else {
      var last := body[|body| - 1];
      assert last in body;
      CollectInner(st, body[..|body| - 1]);
      assert forall l :: l in body[..|body| - 1] ==> l in body;
      assert st.currentRow + body == st.currentRow + body[..|body| - 1] + [body[|body| - 1]];
    }
  }

  /** The lines `<tr>`, `body` and `</tr>` of one well-formed row. */
  function Render(body: seq<string>): seq<string> {
    ["<tr>"] + body + ["</tr>"]
  }

  /** A document of well-formed rows, one after the other. */
  function RenderAll(bodies: seq<seq<string>>): seq<string> {
    if bodies == [] then [] else RenderAll(bodies[..|bodies| - 1]) + Render(bodies[|bodies| - 1])
  }

  lemma DelimitersRecognised()
    ensures OpensRow("<tr>") && ClosesRow("</tr>") && !OpensRow("</tr>")
  {
    ContainsAt("<tr>", "<tr>", 0);
    ContainsAt("</tr>", "</tr>", 0);
    forall i | 0 <= i <= |"</tr>"| ensures !StartsAt("</tr>", "<tr>", i) {
      if i == 0 {
        assert "</tr>"[1] != "<tr>"[1];
      } else if i == 1 {
        assert "</tr>"[1] != "<tr>"[0];
      }
    }
    NotContains("</tr>", "<tr>");
  }

  /** Outside a row, one well-formed row is scanned into exactly its body. */
  lemma ScanOneRow(st: Scan, body: seq<string>)
    requires !st.insideRow
    requires InnerRow(body)
    ensures ScanFrom(st, Render(body)) == Scan(false, body, st.rows + [body])
  {
    DelimitersRecognised();
    ScanAppend(st, ["<tr>"] + body, ["</tr>"]);
    ScanAppend(st, ["<tr>"], body);
    assert ScanFrom(st, ["<tr>"]) == Scan(true, [], st.rows);
    CollectInner(Scan(true, [], st.rows), body);
    assert [] + body == body;
  }

  /**
   * A document of `N` well-formed rows scans into exactly those `N` row
   * bodies, in document order.
   */
  lemma {:induction false} RowsOfRendered(bodies: seq<seq<string>>)
    requires forall k :: 0 <= k < |bodies| ==> InnerRow(bodies[k])
    ensures Rows(RenderAll(bodies)) == bodies
    ensures !ScanFrom(Start, RenderAll(bodies)).insideRow
    decreases |bodies|
  {
    if bodies != [] {
      var init, last := bodies[..|bodies| - 1], bodies[|bodies| - 1];
      RowsOfRendered(init);
      RenderedSnoc(init, last);
      assert init + [last] == bodies;
    }
  }

  /** One more well-formed row after a document of them adds its body. */
  lemma RenderedSnoc(init: seq<seq<string>>, last: seq<string>)
    requires Rows(RenderAll(init)) == init
    requires !ScanFrom(Start, RenderAll(init)).insideRow
    requires InnerRow(last)
    ensures Rows(RenderAll(init + [last])) == init + [last]
    ensures !ScanFrom(Start, RenderAll(init + [last])).insideRow
  {
    assert RenderAll(init + [last]) == RenderAll(init) + Render(last) by {
      assert (init + [last])[..|init + [last]| - 1] == init;
    }
    ScanAppend(Start, RenderAll(init), Render(last));
    ScanOneRow(ScanFrom(Start, RenderAll(init)), last);
  }

  /**
   * A row that is still open when the next `<tr>` arrives leaves no trace:
   * the document scans as if its lines were not there.
   */
  lemma UnclosedRowDropped(st: Scan, opener: string, unclosed: seq<string>, rest: seq<string>)
    requires OpensRow(opener) && rest != [] && OpensRow(rest[0])
    requires forall l :: l in unclosed ==> !ClosesRow(l)
    ensures ScanFrom(st, [opener] + unclosed + rest) == ScanFrom(st, rest)
  {
    var mid := ScanFrom(st, [opener] + unclosed);
    ScanAppend(st, [opener] + unclosed, rest);
    RowsOfOpenRow(st, [opener] + unclosed);
    ScanAppend(mid, [rest[0]], rest[1..]);
    ScanAppend(st, [rest[0]], rest[1..]);
    assert [rest[0]] + rest[1..] == rest;
    assert ScanFrom(mid, [rest[0]]) == Step(mid, rest[0]);
    assert ScanFrom(st, [rest[0]]) == Step(st, rest[0]);
  }

  /** While no row closes, the closed rows stay as they are. */
  lemma {:induction false} RowsOfOpenRow(st: Scan, lines: seq<string>)
    requires forall l :: l in lines ==> !ClosesRow(l) || OpensRow(l)
    ensures ScanFrom(st, lines).rows == st.rows
    decreases |lines|
  {
    if lines != [] {
      RowsOfOpenRow(st, lines[..|lines| - 1]);
    }
  }

  /** A `</tr>` line outside a row is ignored. */
  lemma StrayCloseIgnored(st: Scan, line: string, rest: seq<string>)
    requires !st.insideRow && !OpensRow(line)
    ensures ScanFrom(st, [line] + rest) == ScanFrom(st, rest)
  {
    ScanAppend(st, [line], rest);
    assert ScanFrom(st, [line]) == Step(ScanFrom(st, []), line);
  }
}
