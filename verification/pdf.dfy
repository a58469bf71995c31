/** The layout arithmetic of `create_pdf_file`: the title, one numbered
    line per shopping-list entry, 20 points apart, and a page break when
    the next line would reach y = 780. The canvas is reduced to the
    sequence of calls made on it. */
module PdfLayout {
  import opened Wrappers
  import opened Text
  import opened Shopping

  const Title: string := "Список покупок:"
  const TitleFontSize := 22
  const LineFontSize := 16
  const TopY := 20
  const LineStep := 20
  const PageBottom := 780
  const LinesPerPage := 38

  /** A call on the canvas: `setFont`, `drawString` or `showPage`. */
  datatype Op = SetFont(size: int) | DrawString(x: int, y: int, text: string) | ShowPage

  /** `str()` of an integer. */
  function IntToString(i: int): string {
    if i < 0 then "-" + NatToString(-i) else NatToString(i)
  }

  /** The text of line `n`: "{n}. {name}, {sum} {unit}." */
  function LineText(n: nat, e: Entry): string {
    Concat([NatToString(n), ". ", e.name, ", ", IntToString(e.total), " ", e.unit, "."])
  }

  /** Where the `i`-th entry (from 0) is drawn: the pages hold 38 lines each. */
  function LineY(i: nat): int {
    TopY + LineStep * (i % LinesPerPage)
  }

  function Header(): seq<Op> {
    [SetFont(TitleFontSize), DrawString(200, 5, Title), SetFont(LineFontSize)]
  }

  /** The calls for the `i`-th entry: its line, then a page break after
      every 38th line. */
  function ItemOps(es: seq<Entry>, i: nat): seq<Op>
    requires i < |es|
  {
    [DrawString(10, LineY(i), LineText(i + 1, es[i]))]
      + (if (i + 1) % LinesPerPage == 0 then [ShowPage, SetFont(LineFontSize)] else [])
  }

  /** The calls for the first `n` entries. */
  function Body(es: seq<Entry>, n: nat): seq<Op>
    requires n <= |es|
  {
    if n == 0 then [] else Body(es, n - 1) + ItemOps(es, n - 1)
  }

  /** The whole document, closed with a final `showPage`. */
  function Render(es: seq<Entry>): seq<Op> {
    Header() + Body(es, |es|) + [ShowPage]
  }

  /** One step of `down_param`: it breaks exactly after a page's 38th line,
      and otherwise moves 20 down. */
  lemma NextLine(i: nat)
    ensures LineY(i) + LineStep >= PageBottom <==> (i + 1) % LinesPerPage == 0
    ensures (i + 1) % LinesPerPage == 0 ==> LineY(i + 1) == TopY
    ensures (i + 1) % LinesPerPage != 0 ==> LineY(i + 1) == LineY(i) + LineStep
  {
  }

  /** `create_pdf_file`'s drawing loop over the aggregated entries. */
  method CreatePdfFile(shoppingCart: seq<Entry>) returns (ops: seq<Op>)
    ensures ops == Render(shoppingCart)
  {
    ops := [SetFont(TitleFontSize), DrawString(200, 5, Title), SetFont(LineFontSize)];
    var downParam := TopY;
    var number := 1;
    var i := 0;
    while i < |shoppingCart|
      invariant 0 <= i <= |shoppingCart|
      invariant number == i + 1
      invariant downParam == LineY(i)
      invariant ops == Header() + Body(shoppingCart, i)
    {
      NextLine(i);
      ghost var prev := ops;
      ops := ops + [DrawString(10, downParam, LineText(number, shoppingCart[i]))];
      downParam := downParam + LineStep;
      if downParam >= PageBottom {
        downParam := TopY;
        ops := ops + [ShowPage, SetFont(LineFontSize)];
      }
      assert ops == Header() + Body(shoppingCart, i + 1) by {
        assert ops == prev + ItemOps(shoppingCart, i);
      }
      number := number + 1;
      i := i + 1;
    }
    ops := ops + [ShowPage];
  }

  /** A string drawn on the page. */
  datatype Line = Line(x: int, y: int, text: string)

  /** The strings drawn, in order. */
  function Drawn(ops: seq<Op>): seq<Line> {
    if ops == [] then []
    else (if ops[0].DrawString? then [Line(ops[0].x, ops[0].y, ops[0].text)] else []) + Drawn(ops[1..])
  }

  lemma {:induction false} DrawnAppend(a: seq<Op>, b: seq<Op>)
    ensures Drawn(a + b) == Drawn(a) + Drawn(b)
  {
    if a != [] {
      assert (a + b)[0] == a[0] && (a + b)[1..] == a[1..] + b;
      DrawnAppend(a[1..], b);
    } else {
      assert a + b == b;
    }
  }

  /** The number of pages ended so far. */
  function PageBreaks(ops: seq<Op>): nat {
    if ops == [] then 0 else (if ops[0] == ShowPage then 1 else 0) + PageBreaks(ops[1..])
  }

  lemma {:induction false} PageBreaksAppend(a: seq<Op>, b: seq<Op>)
    ensures PageBreaks(a + b) == PageBreaks(a) + PageBreaks(b)
  {
    if a != [] {
      assert (a + b)[0] == a[0] && (a + b)[1..] == a[1..] + b;
      PageBreaksAppend(a[1..], b);
    } else {
      assert a + b == b;
    }
  }

  /** The line drawn for the `k`-th entry (from 0). */
  function EntryLine(es: seq<Entry>, k: nat): Line
    requires k < |es|
  {
    Line(10, LineY(k), LineText(k + 1, es[k]))
  }

  /** One entry's calls draw its line and end a page after every 38th line. */
  lemma ItemOpsShape(es: seq<Entry>, i: nat)
    requires i < |es|
    ensures Drawn(ItemOps(es, i)) == [EntryLine(es, i)]
    ensures PageBreaks(ItemOps(es, i)) == if (i + 1) % LinesPerPage == 0 then 1 else 0
  {
    var line := [DrawString(10, LineY(i), LineText(i + 1, es[i]))];
    var tail := if (i + 1) % LinesPerPage == 0 then [ShowPage, SetFont(LineFontSize)] else [];
    DrawnAppend(line, tail);
    PageBreaksAppend(line, tail);
    if (i + 1) % LinesPerPage == 0 {
      assert tail[1..] == [SetFont(LineFontSize)] && tail[1..][1..] == [];
      assert Drawn(tail) == [];
      assert PageBreaks(tail) == 1;
    }
    assert line[1..] == [];
    assert Drawn(line) == [Line(10, LineY(i), LineText(i + 1, es[i]))];
  }

  lemma DivStep(n: nat)
    requires n > 0
    ensures (n - 1) / LinesPerPage + (if n % LinesPerPage == 0 then 1 else 0) == n / LinesPerPage
  {
  }

  /** The body draws the entries in input order, numbered from 1, at x = 10
      and y = LineY(k). */
  lemma {:induction false} BodyLines(es: seq<Entry>, n: nat)
    requires n <= |es|
    ensures |Drawn(Body(es, n))| == n
    ensures forall k :: 0 <= k < n ==> Drawn(Body(es, n))[k] == EntryLine(es, k)
  {
    if n > 0 {
      var prev := Body(es, n - 1);
      BodyLines(es, n - 1);
      DrawnAppend(prev, ItemOps(es, n - 1));
      ItemOpsShape(es, n - 1);
      var d := Drawn(Body(es, n));
      assert d == Drawn(prev) + [EntryLine(es, n - 1)];
      forall k | 0 <= k < n ensures d[k] == EntryLine(es, k) {
        if k < n - 1 {
          assert d[k] == Drawn(prev)[k];
        }
      }
    }
  }

  /** The title is drawn first and once; then one line per entry, numbered
      1, 2, 3, … in input order, each in the "{n}. {name}, {sum} {unit}."
      format. */
  lemma RenderLines(es: seq<Entry>)
    ensures |Drawn(Render(es))| == |es| + 1
    ensures Drawn(Render(es))[0] == Line(200, 5, Title)
    ensures forall k :: 0 <= k < |es| ==> Drawn(Render(es))[k + 1] == Line(10, LineY(k), LineText(k + 1, es[k]))
  {
    var d := Drawn(Render(es));
    var body := Drawn(Body(es, |es|));
    assert d == [Line(200, 5, Title)] + body by {
      DrawnAppend(Header() + Body(es, |es|), [ShowPage]);
      DrawnAppend(Header(), Body(es, |es|));
      assert Drawn(Header()) == [Line(200, 5, Title)];
      assert Drawn([ShowPage]) == [];
    }
    BodyLines(es, |es|);
    forall k | 0 <= k < |es| ensures d[k + 1] == Line(10, LineY(k), LineText(k + 1, es[k])) {
      assert d[k + 1] == body[k] == EntryLine(es, k);
    }
  }

  /** Every item line is drawn within y in [20, 760]. */
  lemma LineYBounds(i: nat)
    ensures TopY <= LineY(i) <= PageBottom - LineStep
  {
  }

  /** Before the `k`-th entry's line, k / 38 pages have been ended: a page
      carries the entries 38p, …, 38p + 37, so at most 38 lines, and a new
      page starts again at y = 20. */
  lemma {:induction false} BodyPageBreaks(es: seq<Entry>, n: nat)
    requires n <= |es|
    ensures PageBreaks(Body(es, n)) == n / LinesPerPage
  {
    if n > 0 {
      BodyPageBreaks(es, n - 1);
      PageBreaksAppend(Body(es, n - 1), ItemOps(es, n - 1));
      ItemOpsShape(es, n - 1);
      DivStep(n);
    }
  }

  /** The document has |es| / 38 + 1 pages: the breaks inside the body
      and the closing `showPage`. */
  lemma RenderPages(es: seq<Entry>)
    ensures PageBreaks(Render(es)) == |es| / LinesPerPage + 1
  {
    PageBreaksAppend(Header() + Body(es, |es|), [ShowPage]);
    PageBreaksAppend(Header(), Body(es, |es|));
    BodyPageBreaks(es, |es|);
  }

  /** When the number of entries is a positive multiple of 38, the break
      after the last line and the closing `showPage` leave a final page
      with no line on it. */
  lemma TrailingBlankPage(es: seq<Entry>)
    requires |es| > 0 && |es| % LinesPerPage == 0
    ensures Render(es)[|Render(es)| - 3..] == [ShowPage, SetFont(LineFontSize), ShowPage]
  {
    var n := |es|;
    var last := ItemOps(es, n - 1);
    assert last == [DrawString(10, LineY(n - 1), LineText(n, es[n - 1])), ShowPage, SetFont(LineFontSize)];
    var front := Header() + Body(es, n - 1) + [last[0]];
    assert Render(es) == front + [ShowPage, SetFont(LineFontSize), ShowPage];
  }

  /** A line starts with its number followed by '.'. */
  lemma LineStartsWithNumber(n: nat, e: Entry)
    ensures |NatToString(n)| < |LineText(n, e)|
    ensures LineText(n, e)[..|NatToString(n)|] == NatToString(n)
    ensures LineText(n, e)[|NatToString(n)|] == '.'
  {
    var parts := [NatToString(n), ". ", e.name, ", ", IntToString(e.total), " ", e.unit, "."];
    assert parts[1..][1..] == parts[2..];
    var rest := Concat(parts[1..]);
    assert rest == ". " + Concat(parts[2..]);
    assert LineText(n, e) == NatToString(n) + rest;
  }

  /** The line number can be read back from the text: it is the run of
      digits before the first '.'. */
  lemma LineNumberReadBack(n: nat, e: Entry)
    ensures FindFirst(LineText(n, e), ".") == Some(|NatToString(n)|)
    ensures ParseDigits(LineText(n, e)[..|NatToString(n)|]) == n
  {
    var digits := NatToString(n);
    var s := LineText(n, e);
    var m := |digits|;
    LineStartsWithNumber(n, e);
    assert OccursAt(s, ".", m) by {
      assert s[m..m + 1] == [s[m]];
    }
    forall j | 0 <= j < m ensures !OccursAt(s, ".", j) {
      assert s[j] == s[..m][j];
    }
    FindFirstIs(s, ".", m);
    ParseNatToString(n);
  }
}
