/** The table callback: a LaTeX `table` environment holding a `tabular`
    becomes a MyST `table` directive with a Markdown pipe table. The caption
    (or the short caption, with the long one printed after the table) is the
    directive's title and the label its `:name:`. The column specification
    (`l`, `c`, `r`, anything else) becomes the alignment row; the first row
    without `\hline` among the first two is the header and the later rows are
    copied, skipping empty rows, commented-out rows and `\hline` rows. The
    regular expression that finds the environment is not modelled: its
    groups are the input. */
module Tables {
  import opened Strings
  import opened LinePasses

  /** The groups of a table match: the column specification (group 4), the
      rows (group 5), the caption (group 9, present exactly when group 6 is),
      whether the caption had brackets (group 7), the short caption inside
      them (group 8) and the label name (group 11, present exactly when group
      10 is). */
  datatype TableMatch = TableMatch(
    spec: string, body: string, caption: Option<string>,
    shortBracket: bool, short: Option<string>, labelName: Option<string>)

  // ---------------------------------------------------------------------------
  // The alignment row

  /** The cell of the alignment row for one letter of the column
      specification. */
  function AlignCell(letter: char): string {
    if letter == 'l' then " :--- |"
    else if letter == 'c' then " :--: |"
    else if letter == 'r' then " ---: |"
    else " ---- |"
  }

  /** The alignment cells for a run of letters. */
  function AlignCells(letters: string): string {
    if letters == [] then "" else AlignCell(letters[0]) + AlignCells(letters[1..])
  }

  /** The alignment cells for the pieces of the specification between `|`. */
  function ColumnCells(pieces: seq<string>): string {
    if pieces == [] then "" else AlignCells(pieces[0]) + ColumnCells(pieces[1..])
  }

  /** The pieces of the column specification between `|`, without an empty
      last and then an empty first piece; an empty specification leaves no
      piece to look at and fails. */
  function MakeupPieces(spec: string): Option<seq<string>> {
    var p := SplitOn(spec, "|");
    var q := if p[|p| - 1] == "" then p[..|p| - 1] else p;
    if q == [] then None else Some(if q[0] == "" then q[1..] else q)
  }

  /** The alignment row of the table. */
  function MakeupRow(spec: string): Option<string> {
    match MakeupPieces(spec)
    case None => None
    case Some(pieces) => Some("|" + ColumnCells(pieces))
  }

  /** The alignment row is missing exactly for an empty specification. */
  lemma MakeupFails(spec: string)
    ensures MakeupRow(spec).None? <==> spec == ""
  {
    var p := SplitOn(spec, "|");
    if |p| == 1 {
      assert JoinWith(p, "|") == p[0];
    }
  }

  lemma {:induction false} AlignCellsAppend(a: string, b: string)
    ensures AlignCells(a + b) == AlignCells(a) + AlignCells(b)
    decreases |a|
  {
    if a == [] {
      assert a + b == b;
    } else {
      assert (a + b)[1..] == a[1..] + b;
      AlignCellsAppend(a[1..], b);
    }
  }

  lemma {:induction false} ColumnCellsConcat(pieces: seq<string>)
    ensures ColumnCells(pieces) == AlignCells(Concat(pieces))
    decreases |pieces|
  {
    if pieces != [] {
      ColumnCellsConcat(pieces[1..]);
      AlignCellsAppend(pieces[0], Concat(pieces[1..]));
    }
  }

  lemma {:induction false} ColumnCellsSnoc(pieces: seq<string>, p: string)
    ensures ColumnCells(pieces + [p]) == ColumnCells(pieces) + AlignCells(p)
    decreases |pieces|
  {
    if pieces == [] {
      assert [] + [p] == [p];
    } else {
      assert (pieces + [p])[1..] == pieces[1..] + [p];
      ColumnCellsSnoc(pieces[1..], p);
    }
  }

  lemma AlignCellsSnoc(w: string, c: char)
    ensures AlignCells(w + [c]) == AlignCells(w) + AlignCell(c)
  {
    AlignCellsAppend(w, [c]);
    assert [c][1..] == [];
  }

  lemma {:induction false} ConcatSnoc(ss: seq<string>, s: string)
    ensures Concat(ss + [s]) == Concat(ss) + s
    decreases |ss|
  {
    if ss == [] {
      assert [] + [s] == [s];
    } else {
      assert (ss + [s])[1..] == ss[1..] + [s];
      ConcatSnoc(ss[1..], s);
    }
  }

  /** Whatever the `|` separators, the alignment row is one cell per letter
      of the specification with the `|` taken out. */
  lemma MakeupAlignment(spec: string)
    requires spec != ""
    ensures MakeupRow(spec) == Some("|" + AlignCells(Without(spec, '|')))
  {
    MakeupFails(spec);
    var p := SplitOn(spec, "|");
    var q := if p[|p| - 1] == "" then p[..|p| - 1] else p;
    var pieces := MakeupPieces(spec).value;
    assert Concat(q) == Concat(p) by {
      if p[|p| - 1] == "" {
        ConcatSnoc(p[..|p| - 1], "");
        assert p[..|p| - 1] + [""] == p;
      }
    }
    assert Concat(pieces) == Concat(q);
    ConcatOfSplitIsWithout(spec, '|');
    ColumnCellsConcat(pieces);
  }

  /** The alignment row `|` + cells is seven characters per letter, and the
      cell at each position is the one for that letter. */
  lemma {:induction false} AlignCellsShape(w: string)
    ensures |AlignCells(w)| == 7 * |w|
    ensures forall k :: 0 <= k < |w| ==> AlignCells(w)[7 * k..7 * k + 7] == AlignCell(w[k])
    decreases |w|
  {
    if w != [] {
      AlignCellsShape(w[1..]);
      var c := AlignCell(w[0]);
      var a := AlignCells(w[1..]);
      assert |c| == 7;
      forall k | 0 <= k < |w| ensures AlignCells(w)[7 * k..7 * k + 7] == AlignCell(w[k]) {
        if k > 0 {
          assert (c + a)[7 * k..7 * k + 7] == a[7 * (k - 1)..7 * (k - 1) + 7];
          assert w[k] == w[1..][k - 1];
        } else {
          assert (c + a)[0..7] == c;
        }
      }
    }
  }

  /** The alignment row as the source builds it: one loop over the pieces
      between `|`, one over the letters of each. */
  method Makeup(spec: string) returns (r: Option<string>)
    ensures r == MakeupRow(spec)
  {
    var p := SplitOn(spec, "|");
    if p[|p| - 1] == "" {
      p := p[..|p| - 1];
    }
    if p == [] {
      return None;
    }
    if p[0] == "" {
      p := p[1..];
    }
    var row := "|";
    for i := 0 to |p|
      invariant row == "|" + ColumnCells(p[..i])
    {
      var column := p[i];
      for j := 0 to |column|
        invariant row == "|" + ColumnCells(p[..i]) + AlignCells(column[..j])
      {
        var letter := column[j];
        ghost var before := row;
        if letter == 'l' {
          row := row + " :--- |";
        } else if letter == 'c' {
          row := row + " :--: |";
        } else if letter == 'r' {
          row := row + " ---: |";
        } else {
          row := row + " ---- |";
        }
        assert row == before + AlignCell(letter);
        MakeupStep("|" + ColumnCells(p[..i]), column, j);
      }
      assert column[..|column|] == column;
      MakeupColumnStep(p, i);
    }
    assert p[..|p|] == p;
    r := Some(row);
  }

  lemma MakeupStep(head: string, column: string, j: nat)
    requires j < |column|
    ensures head + AlignCells(column[..j]) + AlignCell(column[j]) == head + AlignCells(column[..j + 1])
  {
    AlignCellsSnoc(column[..j], column[j]);
    assert column[..j + 1] == column[..j] + [column[j]];
    Associate(head, AlignCells(column[..j]), AlignCell(column[j]));
  }

  lemma MakeupColumnStep(p: seq<string>, i: nat)
    requires i < |p|
    ensures "|" + ColumnCells(p[..i]) + AlignCells(p[i]) == "|" + ColumnCells(p[..i + 1])
  {
    ColumnCellsSnoc(p[..i], p[i]);
    assert p[..i + 1] == p[..i] + [p[i]];
    Associate("|", ColumnCells(p[..i]), AlignCells(p[i]));
  }

  // ---------------------------------------------------------------------------
  // Rows

  /** One cell: the entry without its trailing backslashes (the `\\` that
      ends a LaTeX row). */
  function Cell(entry: string): string {
    RStripChar(entry, '\\')
  }

  /** The cells of a row, each followed by `|`. */
  function CellsText(columns: seq<string>): string {
    if columns == [] then "" else Cell(columns[0]) + "|" + CellsText(columns[1..])
  }

  /** The `&`-separated columns of a stripped row. */
  function Columns(line: string): seq<string> {
    SplitOn(Strip(line), "&")
  }

  /** A Markdown table row for a LaTeX row. */
  function Row(line: string): string {
    "| " + CellsText(Columns(line))
  }

  lemma {:induction false} CellsTextSnoc(columns: seq<string>, c: string)
    ensures CellsText(columns + [c]) == CellsText(columns) + Cell(c) + "|"
    decreases |columns|
  {
    if columns == [] {
      assert [] + [c] == [c];
    } else {
      assert (columns + [c])[1..] == columns[1..] + [c];
      CellsTextSnoc(columns[1..], c);
    }
  }

  /** A row as the source builds it, cell by cell. */
  method FormatRow(line: string) returns (r: string)
    ensures r == Row(line)
  {
    var columns := SplitOn(Strip(line), "&");
    r := "| ";
    for i := 0 to |columns|
      invariant r == "| " + CellsText(columns[..i])
    {
      RowStep(columns, i);
      r := r + RStripChar(columns[i], '\\') + "|";
    }
    assert columns[..|columns|] == columns;
  }

  lemma RowStep(columns: seq<string>, i: nat)
    requires i < |columns|
    ensures "| " + CellsText(columns[..i]) + Cell(columns[i]) + "|" == "| " + CellsText(columns[..i + 1])
  {
    CellsTextSnoc(columns[..i], columns[i]);
    assert columns[..i + 1] == columns[..i] + [columns[i]];
    RegroupFour("| ", CellsText(columns[..i]), Cell(columns[i]), "|");
  }

  lemma SplitPipeCons(head: string, rest: string)
    requires '|' !in head
    ensures SplitOn(head + "|" + rest, "|") == [head] + SplitOn(rest, "|")
  {
    var s := head + "|" + rest;
    assert OccursAt(s, "|", |head|) by { assert s[|head|..|head| + 1] == "|"; }
    forall j | 0 <= j < |head| ensures !OccursAt(s, "|", j) {
      assert s[j] == head[j] && head[j] in head;
    }
    IndexOfFirst(s, "|", 0, |head|);
    assert s[..|head|] == head;
    assert s[|head| + 1..] == rest;
  }

  lemma {:induction false} CellsSplit(columns: seq<string>)
    requires forall i :: 0 <= i < |columns| ==> '|' !in Cell(columns[i])
    ensures SplitOn(CellsText(columns), "|") == Cells(columns) + [""]
    decreases |columns|
  {
    if columns == [] {
      forall k ensures !OccursAt("", "|", k) { }
    } else {
      CellsSplit(columns[1..]);
      SplitPipeCons(Cell(columns[0]), CellsText(columns[1..]));
    }
  }

  /** The cells of a row, in order. */
  function Cells(columns: seq<string>): (r: seq<string>)
    ensures |r| == |columns|
    ensures forall i :: 0 <= i < |r| ==> r[i] == Cell(columns[i])
  {
    if columns == [] then [] else [Cell(columns[0])] + Cells(columns[1..])
  }

  /** A Markdown row, split at its `|`, gives back the cells of the LaTeX
      row (the first after the space that opens the row), as long as no cell
      holds a `|` of its own. */
  lemma RowCells(line: string)
    requires forall i :: 0 <= i < |Columns(line)| ==> '|' !in Cell(Columns(line)[i])
    ensures var cs := Cells(Columns(line));
      SplitOn(Row(line), "|") == ["", " " + cs[0]] + cs[1..] + [""]
  {
    var columns := Columns(line);
    var first := Cell(columns[0]);
    var tail := CellsText(columns[1..]);
    CellsSplit(columns[1..]);
    assert Cells(columns)[1..] == Cells(columns[1..]);
    assert Row(line) == "| " + (first + "|" + tail);
    RowSplitLayout(first, tail, Cells(columns[1..]));
  }

  lemma RowSplitLayout(first: string, tail: string, rest: seq<string>)
    requires '|' !in first
    requires SplitOn(tail, "|") == rest + [""]
    ensures SplitOn("| " + (first + "|" + tail), "|") == ["", " " + first] + rest + [""]
  {
    assert '|' !in " " + first;
    RowRegroup(first, tail);
    SplitPipeCons("", (" " + first) + "|" + tail);
    SplitPipeCons(" " + first, tail);
  }

  lemma RowRegroup(first: string, tail: string)
    ensures "| " + (first + "|" + tail) == "" + "|" + ((" " + first) + "|" + tail)
  {
    var x := first + "|" + tail;
    assert "| " == "|" + " ";
    Associate("|", " ", x);
    RegroupFour(" ", first, "|", tail);
    assert "" + "|" + (" " + x) == "|" + (" " + x);
  }

  // ---------------------------------------------------------------------------
  // The body of the table

  /** The rows the copy loop skips: empty after stripping, commented out, or
      holding a `\hline`. */
  predicate Skipped(line: string) {
    var current := Strip(line);
    |current| == 0 || Take(current, 4) == "<!--" || Contains(current, "\\hline")
  }

  /** The Markdown text of the rows after the header. */
  function BodyRows(rows: seq<string>): string {
    Joined(RowText, rows)
  }

  /** The text one row contributes. */
  function RowText(line: string): string {
    if Skipped(line) then "" else Row(line) + "\n"
  }

  /** The Markdown rows of the kept rows, in order. */
  function KeptRows(rows: seq<string>): seq<string> {
    Gathered(KeptRow, rows)
  }

  function KeptRow(line: string): seq<string> {
    if Skipped(line) then [] else [Row(line)]
  }

  /** The texts of the rows one after the other. */
  function Joined(f: string -> string, rows: seq<string>): string {
    if rows == [] then "" else f(rows[0]) + Joined(f, rows[1..])
  }

  /** The lines of the rows one after the other. */
  function Gathered(g: string -> seq<string>, rows: seq<string>): seq<string> {
    if rows == [] then [] else g(rows[0]) + Gathered(g, rows[1..])
  }

  lemma {:induction false} JoinedSnoc(f: string -> string, rows: seq<string>, line: string)
    ensures Joined(f, rows + [line]) == Joined(f, rows) + f(line)
    decreases |rows|
  {
    if rows == [] {
      assert [] + [line] == [line];
    } else {
      assert (rows + [line])[1..] == rows[1..] + [line];
      JoinedSnoc(f, rows[1..], line);
    }
  }

  /** A row contributes nothing, or one line that ends with a newline. */
  predicate OneLineOrNothing(f: string -> string, g: string -> seq<string>, x: string) {
    (f(x) == "" && g(x) == []) || (|g(x)| == 1 && '\n' !in g(x)[0] && f(x) == g(x)[0] + "\n")
  }

  /** Rows that each contribute nothing or one newline-terminated line are
      read back as those lines. */
  lemma {:induction false} JoinedLines(f: string -> string, g: string -> seq<string>, rows: seq<string>, t: string)
    requires forall i :: 0 <= i < |rows| ==> OneLineOrNothing(f, g, rows[i])
    ensures Lines(Joined(f, rows) + t) == Gathered(g, rows) + Lines(t)
    decreases |rows|
  {
    if rows != [] {
      forall i | 0 <= i < |rows[1..]| ensures OneLineOrNothing(f, g, rows[1..][i]) {
        assert rows[1..][i] == rows[i + 1];
      }
      JoinedLines(f, g, rows[1..], t);
      JoinedLinesCons(f, g, rows, t);
    } else {
      assert Joined(f, rows) + t == t;
      assert Gathered(g, rows) + Lines(t) == Lines(t);
    }
  }

  /** The step of `JoinedLines`: one more row in front. */
  lemma JoinedLinesCons(f: string -> string, g: string -> seq<string>, rows: seq<string>, t: string)
    requires rows != [] && OneLineOrNothing(f, g, rows[0])
    requires Lines(Joined(f, rows[1..]) + t) == Gathered(g, rows[1..]) + Lines(t)
    ensures Lines(Joined(f, rows) + t) == Gathered(g, rows) + Lines(t)
  {
    var x := rows[0];
    assert Joined(f, rows) == f(x) + Joined(f, rows[1..]);
    assert Gathered(g, rows) == g(x) + Gathered(g, rows[1..]);
    if f(x) == "" && g(x) == [] {
      Unchanged(Joined(f, rows[1..]), Gathered(g, rows[1..]));
    } else {
      var l := g(x)[0];
      assert g(x) == [l] && f(x) == l + "\n";
      OneMoreLine(l, Joined(f, rows[1..]), Gathered(g, rows[1..]), t);
    }
  }

  lemma Unchanged(rest: string, later: seq<string>)
    ensures "" + rest == rest && [] + later == later
  {
  }

  lemma OneMoreLine(l: string, rest: string, later: seq<string>, t: string)
    requires '\n' !in l
    requires Lines(rest + t) == later + Lines(t)
    ensures Lines(l + "\n" + rest + t) == [l] + later + Lines(t)
  {
    assert l + "\n" + rest + t == l + "\n" + (rest + t);
    LinesCons(l, rest + t);
    ListAssociate([l], later, Lines(t));
  }

  lemma ListAssociate(a: seq<string>, b: seq<string>, c: seq<string>)
    ensures a + (b + c) == (a + b) + c
  {
  }

  lemma JoinedStep(head: string, f: string -> string, rows: seq<string>, first: nat, i: nat)
    requires first <= i < |rows|
    ensures head + Joined(f, rows[first..i]) + f(rows[i]) == head + Joined(f, rows[first..i + 1])
  {
    JoinedSnoc(f, rows[first..i], rows[i]);
    assert rows[first..i + 1] == rows[first..i] + [rows[i]];
    Associate(head, Joined(f, rows[first..i]), f(rows[i]));
  }

  lemma JoinKeepsOut(parts: seq<string>, sep: string, c: char)
    requires c !in JoinWith(parts, sep)
    ensures forall i :: 0 <= i < |parts| ==> c !in parts[i]
    decreases |parts|
  {
    if |parts| > 1 {
      assert JoinWith(parts, sep) == parts[0] + (sep + JoinWith(parts[1..], sep));
      JoinKeepsOut(parts[1..], sep, c);
      forall i | 0 <= i < |parts| ensures c !in parts[i] {
        if i > 0 { assert parts[i] == parts[1..][i - 1]; }
      }
    }
  }

  lemma {:induction false} CellsKeepOut(columns: seq<string>, c: char)
    requires forall i :: 0 <= i < |columns| ==> c !in columns[i]
    requires c != '|'
    ensures c !in CellsText(columns)
    decreases |columns|
  {
    if columns != [] {
      CellsKeepOut(columns[1..], c);
      assert c !in columns[0];
      assert Cell(columns[0]) == columns[0][..|Cell(columns[0])|];
    }
  }

  /** A row without a newline gives one Markdown line. */
  lemma RowNoNewline(line: string)
    requires '\n' !in line
    ensures '\n' !in Row(line)
  {
    StripKeepsOut(line, '\n');
    JoinKeepsOut(Columns(line), "&", '\n');
    CellsKeepOut(Columns(line), '\n');
  }

  /** Each kept row becomes exactly one line of the Markdown table, in
      order, and the skipped rows leave nothing. */
  lemma BodyLines(rows: seq<string>, t: string)
    requires forall i :: 0 <= i < |rows| ==> '\n' !in rows[i]
    ensures Lines(BodyRows(rows) + t) == KeptRows(rows) + Lines(t)
  {
    forall i | 0 <= i < |rows| ensures OneLineOrNothing(RowText, KeptRow, rows[i]) {
      RowNoNewline(rows[i]);
    }
    JoinedLines(RowText, KeptRow, rows, t);
  }

  // ---------------------------------------------------------------------------
  // The whole table

  /** The title of the directive: the short caption when the caption has
      brackets, otherwise the caption, and nothing when there is no caption.
      Brackets without a short caption make the source concatenate `None`
      and fail. */
  function Title(m: TableMatch): Option<string> {
    if m.caption.None? then Some("")
    else if m.shortBracket then (if m.short.None? then None else Some(m.short.value))
    else Some(m.caption.value)
  }

  /** The long caption, printed after the table when a short one is used. */
  function Footer(m: TableMatch): string {
    if m.caption.Some? && m.shortBracket then m.caption.value + "\n" else ""
  }

  function NameLine(m: TableMatch): string {
    if m.labelName.Some? then ":name: " + m.labelName.value + "\n" else ""
  }

  /** The header is the second row when the first holds a `\hline`. */
  function HeaderIndex(rows: seq<string>): nat
    requires rows != []
  {
    if Contains(rows[0], "\\hline") then 1 else 0
  }

  /** What comes before the header row: the directive with its title and
      the `:name:` line. */
  function Preamble(m: TableMatch): string
    requires Title(m).Some?
  {
    "```{table} " + (Title(m).value + "\n") + NameLine(m)
  }

  /** `TableReplace`: `None` where the source fails (brackets without a short
      caption, an empty column specification, no rows, or a first row with
      `\hline` and no second one). */
  function TableSpec(m: TableMatch): Option<string> {
    var rows := SplitLines(m.body);
    if Title(m).None? || MakeupRow(m.spec).None? || rows == [] || HeaderIndex(rows) >= |rows| then None
    else
      var h := HeaderIndex(rows);
      Some(Preamble(m) + (Row(rows[h]) + "\n") + (MakeupRow(m.spec).value + "\n")
           + BodyRows(rows[h + 1..]) + ("```\n" + Footer(m)))
  }

  /** The cases in which the source fails, and only those. */
  lemma TableFails(m: TableMatch)
    ensures TableSpec(m).None? <==>
      (m.caption.Some? && m.shortBracket && m.short.None?)
      || m.spec == ""
      || m.body == ""
      || (Contains(SplitLines(m.body)[0], "\\hline") && |SplitLines(m.body)| == 1)
  {
    MakeupFails(m.spec);
  }

  /** The lines of the long caption after the closing fence. */
  function FooterLines(m: TableMatch): seq<string> {
    if m.caption.Some? && m.shortBracket then [m.caption.value, ""] else [""]
  }

  function NameLines(m: TableMatch): seq<string> {
    if m.labelName.Some? then [":name: " + m.labelName.value] else []
  }

  /** The table read back line by line: the directive with its title, the
      `:name:` line when there is a label, the header row, the alignment
      row, one line per kept row, the closing fence and the long caption
      when a short one was used. */
  lemma TableLines(m: TableMatch)
    requires TableSpec(m).Some?
    requires '\n' !in Title(m).value
    requires m.labelName.Some? ==> '\n' !in m.labelName.value
    requires m.caption.Some? ==> '\n' !in m.caption.value
    ensures var rows := SplitLines(m.body);
      var h := HeaderIndex(rows);
      Lines(TableSpec(m).value) ==
        ["```{table} " + Title(m).value] + NameLines(m) + [Row(rows[h]), MakeupRow(m.spec).value]
        + KeptRows(rows[h + 1..]) + ["```"] + FooterLines(m)
  {
    TableLinesAt(m, SplitLines(m.body), HeaderIndex(SplitLines(m.body)));
  }

  lemma TableLinesAt(m: TableMatch, rows: seq<string>, h: nat)
    requires TableSpec(m).Some?
    requires rows == SplitLines(m.body) && rows != [] && h == HeaderIndex(rows) && h < |rows|
    requires '\n' !in Title(m).value
    requires m.labelName.Some? ==> '\n' !in m.labelName.value
    requires m.caption.Some? ==> '\n' !in m.caption.value
    ensures Lines(TableSpec(m).value) ==
        ["```{table} " + Title(m).value] + NameLines(m) + [Row(rows[h]), MakeupRow(m.spec).value]
        + KeptRows(rows[h + 1..]) + ["```"] + FooterLines(m)
  {
    var title := "```{table} " + Title(m).value;
    var header := Row(rows[h]);
    var makeup := MakeupRow(m.spec).value;
    var body := BodyRows(rows[h + 1..]);
    var close := "```\n" + Footer(m);
    var kept := KeptRows(rows[h + 1..]);
    var x := header + "\n" + (makeup + "\n" + (body + close));
    GridLines(m, rows, h);
    NameLinesOf(m, x);
    SpecText(m, rows, h);
    DirectiveNoNewline(Title(m).value);
    LinesCons(title, NameLine(m) + x);
    ListLayout([title], NameLines(m), header, makeup, kept, ["```"], FooterLines(m));
  }

  lemma DirectiveNoNewline(t: string)
    requires '\n' !in t
    ensures '\n' !in "```{table} " + t
  {
    var d := "```{table} ";
    assert forall i :: 0 <= i < |d| ==> d[i] != '\n';
  }

  lemma SpecText(m: TableMatch, rows: seq<string>, h: nat)
    requires TableSpec(m).Some?
    requires rows == SplitLines(m.body) && h == HeaderIndex(rows)
    ensures TableSpec(m).value == "```{table} " + Title(m).value + "\n"
      + (NameLine(m) + (Row(rows[h]) + "\n" + (MakeupRow(m.spec).value + "\n" + (BodyRows(rows[h + 1..]) + ("```\n" + Footer(m))))))
  {
    TableLayout("```{table} ", Title(m).value, NameLine(m), Row(rows[h]), MakeupRow(m.spec).value,
      BodyRows(rows[h + 1..]), "```\n" + Footer(m), "\n");
  }

  /** The header row, the alignment row, the kept rows and the end of the
      table, line by line. */
  lemma GridLines(m: TableMatch, rows: seq<string>, h: nat)
    requires rows == SplitLines(m.body) && h < |rows|
    requires MakeupRow(m.spec).Some?
    requires m.caption.Some? ==> '\n' !in m.caption.value
    ensures var makeup := MakeupRow(m.spec).value;
      var close := "```\n" + Footer(m);
      Lines(Row(rows[h]) + "\n" + (makeup + "\n" + (BodyRows(rows[h + 1..]) + close)))
      == [Row(rows[h])] + ([makeup] + (KeptRows(rows[h + 1..]) + (["```"] + FooterLines(m))))
  {
    var makeup := MakeupRow(m.spec).value;
    var close := "```\n" + Footer(m);
    var z := BodyRows(rows[h + 1..]) + close;
    ClosingLines(m);
    NoBreakRows(rows, h + 1);
    BodyLines(rows[h + 1..], close);
    MakeupNoNewline(m.spec);
    LinesCons(makeup, z);
    NoBreakRows(rows, h);
    RowNoNewline(rows[h]);
    LinesCons(Row(rows[h]), makeup + "\n" + z);
  }

  lemma ClosingLines(m: TableMatch)
    requires m.caption.Some? ==> '\n' !in m.caption.value
    ensures Lines("```\n" + Footer(m)) == ["```"] + FooterLines(m)
  {
    assert "```\n" + Footer(m) == "```" + "\n" + Footer(m);
    LinesCons("```", Footer(m));
    if m.caption.Some? && m.shortBracket {
      assert Footer(m) == m.caption.value + "\n" + "";
      LinesCons(m.caption.value, "");
    }
    LinesSingle("");
  }

  lemma NameLinesOf(m: TableMatch, x: string)
    requires m.labelName.Some? ==> '\n' !in m.labelName.value
    ensures Lines(NameLine(m) + x) == NameLines(m) + Lines(x)
  {
    if m.labelName.Some? {
      var n := ":name: " + m.labelName.value;
      assert '\n' !in ":name: ";
      assert NameLine(m) + x == n + "\n" + x;
      LinesCons(n, x);
    } else {
      assert NameLine(m) + x == x;
    }
  }

  lemma TableLayout(open: string, t: string, n: string, h: string, mk: string, b: string, close: string, nl: string)
    ensures open + (t + nl) + n + (h + nl) + (mk + nl) + b + close
      == (open + t) + nl + (n + (h + nl + (mk + nl + (b + close))))
  {
  }

  lemma ListLayout(a: seq<string>, b: seq<string>, h: string, mk: string, e: seq<string>, f: seq<string>, g: seq<string>)
    ensures a + (b + ([h] + ([mk] + (e + (f + g))))) == a + b + [h, mk] + e + f + g
  {
  }

  lemma NoBreakRows(rows: seq<string>, from: nat)
    requires from <= |rows|
    requires forall i, j :: 0 <= i < |rows| && 0 <= j < |rows[i]| ==> !IsLineBreak(rows[i][j])
    ensures forall i :: 0 <= i < |rows[from..]| ==> '\n' !in rows[from..][i]
    ensures from < |rows| ==> '\n' !in rows[from]
  {
    assert IsLineBreak('\n');
    forall i | 0 <= i < |rows[from..]| ensures '\n' !in rows[from..][i] {
      var x := rows[from + i];
      forall j | 0 <= j < |x| ensures x[j] != '\n' { }
    }
  }

  lemma MakeupNoNewline(spec: string)
    requires MakeupRow(spec).Some?
    ensures '\n' !in MakeupRow(spec).value
  {
    ColumnCellsNoNewline(MakeupPieces(spec).value);
  }

  lemma {:induction false} AlignCellsNoNewline(w: string)
    ensures '\n' !in AlignCells(w)
    decreases |w|
  {
    if w != [] {
      AlignCellsNoNewline(w[1..]);
      assert '\n' !in AlignCell(w[0]);
    }
  }

  lemma {:induction false} ColumnCellsNoNewline(pieces: seq<string>)
    ensures '\n' !in ColumnCells(pieces)
    decreases |pieces|
  {
    if pieces != [] {
      ColumnCellsNoNewline(pieces[1..]);
      AlignCellsNoNewline(pieces[0]);
    }
  }

  /** The directive line with its title and the `:name:` line, as the source
      builds them; the long caption for the end when a short one is used. */
  method OpenTable(m: TableMatch) returns (out: string, footer: string)
    requires Title(m).Some?
    ensures out == Preamble(m) && footer == Footer(m)
  {
    out := "```{table} ";
    footer := "";
    if m.caption.Some? {
      if m.shortBracket {
        out := out + (m.short.value + "\n");
        footer := m.caption.value + "\n";
      } else {
        out := out + (m.caption.value + "\n");
      }
    } else {
      out := out + "\n";
      assert "\n" == Title(m).value + "\n";
    }
    if m.labelName.Some? {
      out := out + (":name: " + m.labelName.value + "\n");
    }
  }

  /** One pass of the loop: a row that is empty, commented out or an
      `\hline` row is skipped, any other is appended as a Markdown row. */
  method AppendRow(start: string, line: string) returns (out: string)
    ensures out == start + RowText(line)
  {
    out := start;
    var current := Strip(line);
    if |current| == 0 || Take(current, 4) == "<!--" || Contains(current, "\\hline") {
      assert Skipped(line);
    } else {
      var row := FormatRow(current);
      assert Strip(current) == current;
      out := out + (row + "\n");
    }
  }

  /** The loop over the rows after the header: each row that is not empty,
      commented out or an `\hline` row is appended as a Markdown row. */
  method AppendRows(start: string, rows: seq<string>, first: nat) returns (out: string)
    requires first <= |rows|
    ensures out == start + BodyRows(rows[first..])
  {
    out := start;
    for rowIndex := first to |rows|
      invariant out == start + Joined(RowText, rows[first..rowIndex])
    {
      JoinedStep(start, RowText, rows, first, rowIndex);
      out := AppendRow(out, rows[rowIndex]);
    }
    assert rows[first..|rows|] == rows[first..];
  }

  /** `TableReplace` as the source writes it: the title, the label, the
      header row, the alignment row, then a loop over the later rows that
      skips empty, commented-out and `\hline` rows. */
  method TableReplace(m: TableMatch) returns (r: Option<string>)
    ensures r == TableSpec(m)
  {
    if m.caption.Some? && m.shortBracket && m.short.None? {
      TableSpecNone(m);
      return None;
    }
    var out, footer := OpenTable(m);
    var makeup := Makeup(m.spec);
    if makeup.None? {
      TableSpecNone(m);
      return None;
    }
    var rows := SplitLines(m.body);
    if rows == [] {
      TableSpecNone(m);
      return None;
    }
    var rowIndex := 0;
    if Contains(rows[0], "\\hline") {
      rowIndex := 1;
    }
    assert rowIndex == HeaderIndex(rows);
    if rowIndex >= |rows| {
      TableSpecNone(m);
      return None;
    }
    var header := FormatRow(rows[rowIndex]);
    out := out + (header + "\n");
    out := out + (makeup.value + "\n");
    out := AppendRows(out, rows, rowIndex + 1);
    out := out + ("```\n" + footer);
    TableSpecSome(m, rows, rowIndex);
    r := Some(out);
  }

  /** The failures of the source give no table. */
  lemma TableSpecNone(m: TableMatch)
    requires Title(m).None? || MakeupRow(m.spec).None? || SplitLines(m.body) == []
             || HeaderIndex(SplitLines(m.body)) >= |SplitLines(m.body)|
    ensures TableSpec(m).None?
  {
  }

  /** The text of a table the source converts. */
  lemma TableSpecSome(m: TableMatch, rows: seq<string>, h: nat)
    requires Title(m).Some? && MakeupRow(m.spec).Some?
    requires rows == SplitLines(m.body) && rows != [] && h == HeaderIndex(rows) && h < |rows|
    ensures TableSpec(m) == Some(Preamble(m) + (Row(rows[h]) + "\n") + (MakeupRow(m.spec).value + "\n")
                                 + BodyRows(rows[h + 1..]) + ("```\n" + Footer(m)))
  {
  }
}
