/** `document/markdown.py`: snippets of GitHub Flavored Markdown put on the
    clipboard. The table generator writes a pipe table (section 4.10,
    "Tables (extension)", of the GitHub Flavored Markdown specification);
    dimensions are typed as `NxM`; a Mermaid example is picked by number.
    The clipboard payload is the result. */
module Markdown {
  import opened Strings

  // ---------------------------------------------------------------------
  // generate_table
  // ---------------------------------------------------------------------

  /** `len(range(n))`. */
  function Count(n: int): nat { if n < 0 then 0 else n }

  /** One table line: `"| " + " | ".join(cells) + " |"`. */
  function Row(cells: seq<string>): string
  {
    "| " + Join(cells, " | ") + " |"
  }

  function HeaderCells(cols: int): (r: seq<string>)
    ensures |r| == Count(cols)
  {
    seq(Count(cols), j requires 0 <= j < Count(cols) => "Header" + NatToString(j + 1))
  }

  function SeparatorCells(cols: int): (r: seq<string>)
    ensures |r| == Count(cols)
  {
    seq(Count(cols), j requires 0 <= j < Count(cols) => "---")
  }

  /** The placeholder of row `i` (0-based) and column `j`. */
  function CellName(i: nat, j: nat): string
  {
    "Cell" + NatToString(i + 1) + NatToString(j + 1)
  }

  function BodyCells(i: nat, cols: int): (r: seq<string>)
    ensures |r| == Count(cols)
  {
    seq(Count(cols), j requires 0 <= j < Count(cols) => CellName(i, j))
  }

  function BodyRows(rows: int, cols: int): (r: seq<string>)
    ensures |r| == Count(rows)
  {
    seq(Count(rows), i requires 0 <= i < Count(rows) => Row(BodyCells(i, cols)))
  }

  /** `generate_table(rows, cols)`: header, separator and body joined with
      newlines; the body is the rows joined with newlines. With at least one
      row the table has `rows + 2` lines: header, separator, then one line
      per row. */
  function GenerateTable(rows: int, cols: int): (r: string)
    ensures rows >= 1 ==> Lines(r) == [Row(HeaderCells(cols)), Row(SeparatorCells(cols))] + BodyRows(rows, cols)
    ensures rows >= 1 ==> |Lines(r)| == rows + 2
  {
    TableLines(rows, cols);
    Join([Row(HeaderCells(cols)), Row(SeparatorCells(cols)), Join(BodyRows(rows, cols), "\n")], "\n")
  }

  // ---------------------------------------------------------------------
  // reading a table back, as a GFM processor does
  // ---------------------------------------------------------------------

  /** The lines of a text. */
  function Lines(text: string): seq<string> { Split(text, '\n') }

  /** The cells of a table line with a leading and a trailing pipe: the
      pieces between pipes, each stripped of surrounding whitespace. */
  function RowCells(line: string): (r: seq<string>)
  {
    var pieces := Split(line, '|');
    if |pieces| < 2 then []
    else
      var inner := pieces[1..|pieces| - 1];
      seq(|inner|, k requires 0 <= k < |inner| => Strip(inner[k]))
  }

  /** A cell text a row can hold and give back: not empty, no pipe, no line
      break, no whitespace at its ends. */
  predicate PlainCell(c: string)
  {
    && c != "" && '|' !in c && '\n' !in c
    && !IsSpace(c[0]) && !IsSpace(c[|c| - 1])
  }

  function Padded(cells: seq<string>): (r: seq<string>)
    ensures |r| == |cells|
  {
    seq(|cells|, k requires 0 <= k < |cells| => " " + cells[k] + " ")
  }

  lemma {:induction false} JoinPadded(cells: seq<string>)
    requires |cells| >= 1
    ensures Join(Padded(cells), "|") == " " + Join(cells, " | ") + " "
    decreases |cells|
  {
    if |cells| > 1 {
      JoinPadded(cells[1..]);
      assert Padded(cells)[1..] == Padded(cells[1..]);
    }
  }

  lemma StripPadded(c: string)
    requires PlainCell(c)
    ensures Strip(" " + c + " ") == c
  {
    TrimEndSuffix(" " + c, " ", IsSpace);
    TrimStartSuffix(" " + c, IsSpace);
    assert (" " + c)[1..] == c;
  }

  /** A row's pieces between pipes are its padded cells. */
  lemma RowSplit(cells: seq<string>)
    requires |cells| >= 1 && forall k :: 0 <= k < |cells| ==> PlainCell(cells[k])
    ensures Split(Row(cells), '|') == [""] + Padded(cells) + [""]
  {
    var p := Padded(cells);
    JoinPadded(cells);
    JoinSnoc([""] + p, "|", "");
    assert ([""] + p)[1..] == p;
    assert Join([""] + p, "|") == "|" + Join(p, "|");
    assert Row(cells) == Join([""] + p + [""], "|");
    SplitJoin([""] + p + [""], '|');
  }

  /** Reading a generated row back gives its cells: the GFM cell parse and
      `Row` are inverse on plain cells. */
  lemma RowCellsRoundTrip(cells: seq<string>)
    requires |cells| >= 1 && forall k :: 0 <= k < |cells| ==> PlainCell(cells[k])
    ensures RowCells(Row(cells)) == cells
  {
    RowSplit(cells);
    var pieces := [""] + Padded(cells) + [""];
    assert pieces[1..|pieces| - 1] == Padded(cells);
    forall k | 0 <= k < |cells| ensures RowCells(Row(cells))[k] == cells[k] {
      StripPadded(cells[k]);
    }
  }

  /** A row holds no line break when its cells hold none. */
  lemma RowOneLine(cells: seq<string>)
    requires forall k :: 0 <= k < |cells| ==> '\n' !in cells[k]
    ensures '\n' !in Row(cells)
  {
    JoinExcludes(cells, " | ", '\n');
  }

  /** Decimal numbers are plain cell material. */
  lemma NumberedCell(prefix: string, n: string)
    requires prefix != "" && !IsSpace(prefix[0]) && '|' !in prefix && '\n' !in prefix
    requires AllDigits(n)
    ensures PlainCell(prefix + n)
  {
    DigitsHaveNo(n, '|');
    DigitsHaveNo(n, '\n');
    DigitNotSpace(n[|n| - 1]);
  }

  lemma HeaderCellsPlain(cols: int)
    ensures forall j :: 0 <= j < |HeaderCells(cols)| ==> PlainCell(HeaderCells(cols)[j])
  {
    forall j | 0 <= j < Count(cols) ensures PlainCell(HeaderCells(cols)[j]) {
      NumberedCell("Header", NatToString(j + 1));
    }
  }

  lemma BodyCellsPlain(i: nat, cols: int)
    ensures forall j :: 0 <= j < |BodyCells(i, cols)| ==> PlainCell(BodyCells(i, cols)[j])
  {
    forall j | 0 <= j < Count(cols) ensures PlainCell(BodyCells(i, cols)[j]) {
      var a := NatToString(i + 1);
      NumberedCell("Cell", a);
      NumberedCell("Cell" + a, NatToString(j + 1));
      assert CellName(i, j) == ("Cell" + a) + NatToString(j + 1);
    }
  }

  /** The lines of the joined table are its header, its separator and its
      body rows, none of which holds a newline. */
  lemma TableLines(rows: int, cols: int)
    ensures var table := Join([Row(HeaderCells(cols)), Row(SeparatorCells(cols)), Join(BodyRows(rows, cols), "\n")], "\n");
            rows >= 1 ==> Lines(table) == [Row(HeaderCells(cols)), Row(SeparatorCells(cols))] + BodyRows(rows, cols)
  {
    if rows < 1 { return; }
    var h, s, b := Row(HeaderCells(cols)), Row(SeparatorCells(cols)), BodyRows(rows, cols);
    var j := Join(b, "\n");
    var parts := [h, s] + b;
    JoinThree(h, s, j);
    assert parts[1..] == [s] + b && ([s] + b)[1..] == b;
    assert Join(parts, "\n") == h + "\n" + (s + "\n" + j);
    HeaderCellsPlain(cols);
    RowOneLine(HeaderCells(cols));
    RowOneLine(SeparatorCells(cols));
    forall i | 0 <= i < |b| ensures '\n' !in b[i] {
      BodyCellsPlain(i, cols);
      RowOneLine(BodyCells(i, cols));
    }
    SplitJoin(parts, '\n');
  }

  /** With no row (or a negative count), the body is empty and the table
      ends in a newline after the separator. */
  lemma TableWithoutRows(rows: int, cols: int)
    requires rows <= 0
    ensures GenerateTable(rows, cols) == Row(HeaderCells(cols)) + "\n" + Row(SeparatorCells(cols)) + "\n"
  {
    var h, s := Row(HeaderCells(cols)), Row(SeparatorCells(cols));
    assert BodyRows(rows, cols) == [];
    JoinThree(h, s, "");
  }

  lemma JoinThree(a: string, b: string, c: string)
    ensures Join([a, b, c], "\n") == a + "\n" + (b + "\n" + c)
  {
    assert [a, b, c][1..] == [b, c] && [b, c][1..] == [c];
    assert Join([c], "\n") == c;
    assert Join([b, c], "\n") == b + "\n" + c;
  }

  /** Read back as GFM, the header line names `Header1`..`Header{cols}`. */
  lemma TableHeader(rows: int, cols: int)
    requires rows >= 1 && cols >= 1
    ensures var lines := Lines(GenerateTable(rows, cols));
            |lines| == rows + 2 && RowCells(lines[0]) == HeaderCells(cols)
  {
    HeaderCellsPlain(cols);
    RowCellsRoundTrip(HeaderCells(cols));
  }

  /** Read back as GFM, the delimiter row has `cols` cells of `---`. */
  lemma TableDelimiter(rows: int, cols: int)
    requires rows >= 1 && cols >= 1
    ensures var lines := Lines(GenerateTable(rows, cols));
            |lines| == rows + 2 && RowCells(lines[1]) == SeparatorCells(cols)
  {
    SeparatorCellsPlain(cols);
    RowCellsRoundTrip(SeparatorCells(cols));
  }

  lemma SeparatorCellsPlain(cols: int)
    requires cols >= 1
    ensures |SeparatorCells(cols)| >= 1
    ensures forall k :: 0 <= k < |SeparatorCells(cols)| ==> PlainCell(SeparatorCells(cols)[k])
  {
    var d := SeparatorCells(cols);
    assert forall k :: 0 <= k < |d| ==> d[k] == "---";
  }

  /** Read back as GFM, body row `i`, column `j` holds `Cell{i+1}{j+1}`. */
  lemma TableBody(rows: int, cols: int, i: nat)
    requires cols >= 1 && i < rows
    ensures var lines := Lines(GenerateTable(rows, cols));
            |lines| == rows + 2 && RowCells(lines[i + 2]) == BodyCells(i, cols)
  {
    TableBodyLine(rows, cols, i);
    BodyCellsPlain(i, cols);
    RowCellsRoundTrip(BodyCells(i, cols));
  }

  /** Line `i + 2` of the table is body row `i`. */
  lemma TableBodyLine(rows: int, cols: int, i: nat)
    requires i < rows
    ensures var lines := Lines(GenerateTable(rows, cols));
            |lines| == rows + 2 && lines[i + 2] == Row(BodyCells(i, cols))
  {
    var b := BodyRows(rows, cols);
    assert ([Row(HeaderCells(cols)), Row(SeparatorCells(cols))] + b)[i + 2] == b[i];
  }

  /** The placeholders carry no separator between the two numbers, so from
      eleven rows or columns on two cells can share a name. */
  lemma CellNamesCanCollide()
    ensures CellName(0, 10) == CellName(10, 0)
  {
    assert NatToString(11) == "11";
  }

  // ---------------------------------------------------------------------
  // create_table
  // ---------------------------------------------------------------------

  /** `map(int, dimensions.split('x'))` unpacked into two names: exactly
      two pieces, both integers. */
  function ParseDimensions(dimensions: string): (r: Option<(int, int)>)
    ensures r.Some? ==> |Split(dimensions, 'x')| == 2
  {
    var pieces := Split(dimensions, 'x');
    if |pieces| == 2 && ParseInt(pieces[0]).Some? && ParseInt(pieces[1]).Some? then
      Some((ParseInt(pieces[0]).value, ParseInt(pieces[1]).value))
    else None
  }

  /** `str(rows) + "x" + str(cols)` reads back as the two numbers. */
  lemma ParseDimensionsRoundTrip(rows: int, cols: int)
    ensures ParseDimensions(IntToString(rows) + "x" + IntToString(cols)) == Some((rows, cols))
  {
    var a, b := IntToString(rows), IntToString(cols);
    NoX(rows);
    NoX(cols);
    SplitJoin([a, b], 'x');
    assert Join([a, b], "x") == a + "x" + b;
    ParseIntToString(rows);
    ParseIntToString(cols);
  }

  lemma NoX(n: int)
    ensures 'x' !in IntToString(n)
  {
    var m := if n < 0 then -n else n;
    DigitsHaveNo(NatToString(m), 'x');
  }

  /** Input without an 'x', or with more than one, is refused. */
  lemma ParseDimensionsNeedsOneX(dimensions: string)
    requires 'x' !in dimensions
    ensures ParseDimensions(dimensions).None?
  {
    SplitNoSep(dimensions, 'x');
  }

  /** `create_table`: the table that is copied, or nothing on a format
      error. */
  function CreateTable(dimensions: string): (r: Option<string>)
    ensures r.Some? <==> ParseDimensions(dimensions).Some?
    ensures r.Some? ==> r.value == GenerateTable(ParseDimensions(dimensions).value.0, ParseDimensions(dimensions).value.1)
  {
    match ParseDimensions(dimensions)
    case None => None
    case Some((rows, cols)) => Some(GenerateTable(rows, cols))
  }

  // ---------------------------------------------------------------------
  // create_mermaid
  // ---------------------------------------------------------------------

  const FlowChart :=
    "```mermaid\ngraph TD;\n    A-->B;\n    A-->C;\n    B-->D;\n    C-->D;\n```"

  const SequenceDiagram :=
    "```mermaid\nsequenceDiagram\n    participant Alice\n    participant Bob\n"
    + "    Alice->>John: Hello John, how are you?\n    loop HealthCheck\n"
    + "        John->>John: Fight against hypochondria\n    end\n"
    + "    Note right of John: Rational thoughts <br/>prevail!\n    John-->>Alice: Great!\n"
    + "    John->>Bob: How about you?\n    Bob-->>John: Jolly good!\n```"

  const GanttDiagram :=
    "```mermaid\ngantt\ndateFormat  YYYY-MM-DD\ntitle Adding GANTT diagram to mermaid\n"
    + "excludes weekdays 2014-01-10\n\nsection A section\n"
    + "Completed task            :done,    des1, 2014-01-06,2014-01-08\n"
    + "Active task               :active,  des2, 2014-01-09, 3d\n"
    + "Future task               :         des3, after des2, 5d\n"
    + "Future task2               :         des4, after des3, 5d\n```"

  const ClassDiagram :=
    "```mermaid\nclassDiagram\nClass01 <|-- AveryLongClass : Cool\nClass03 *-- Class04\n"
    + "Class05 o-- Class06\nClass07 .. Class08\nClass09 --> C2 : Where am i?\n"
    + "Class09 --* C3\nClass09 --|> Class07\nClass07 : equals()\n"
    + "Class07 : Object[] elementData\nClass01 : size()\nClass01 : int chimp\n"
    + "Class01 : int gorilla\nClass08 <--> C2: Cool label\n```"

  const MermaidDiagrams: map<string, string> :=
    map["1" := FlowChart, "2" := SequenceDiagram, "3" := GanttDiagram, "4" := ClassDiagram]

  /** `create_mermaid`: the diagram copied for the choice, or nothing. */
  function CreateMermaid(choice: string): (r: Option<string>)
    ensures r.Some? <==> choice in {"1", "2", "3", "4"}
  {
    if choice in MermaidDiagrams then Some(MermaidDiagrams[choice]) else None
  }
}
