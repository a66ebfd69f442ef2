/**
 * The table `display_students` prints: the students split into compliant
 * and non-compliant groups, the non-compliant listed first, one row per
 * student and columns padded to a common width. Printing itself is not
 * part of this model; the strings printed, and the `TypeError` that stops
 * the printing at a row without a file name, are.
 */
module Display {
  import opened Wrappers
  import opened Text
  import opened Models

  /** The students on one side of the split, in input order. */
  function Group(students: seq<Student>, compliant: bool): (g: seq<Student>)
    ensures |g| <= |students|
    ensures forall k :: 0 <= k < |g| ==> IsCompliant(g[k].compliance) == compliant
  {
    if students == [] then []
    else
      var init, last := students[..|students| - 1], students[|students| - 1];
      assert students == init + [last];
      Group(init, compliant) + (if IsCompliant(last.compliance) == compliant then [last] else [])
  }

  /**
   * The loop of `display_students` that appends each student to `good` or
   * `bad` according to the truthiness of its compliance record.
   */
  method Partition(students: seq<Student>) returns (good: seq<Student>, bad: seq<Student>)
    ensures good == Group(students, true) && bad == Group(students, false)
  {
    good, bad := [], [];
    for i := 0 to |students|
      invariant good == Group(students[..i], true)
      invariant bad == Group(students[..i], false)
    {
      assert students[..i + 1][..i] == students[..i];
      if IsCompliant(students[i].compliance) {
        good := good + [students[i]];
      } else {
        bad := bad + [students[i]];
      }
    }
    assert students[..|students|] == students;
  }

  /** Every student lands in exactly one group: good + bad = total. */
  lemma {:induction false} GroupsCount(students: seq<Student>)
    ensures |Group(students, true)| + |Group(students, false)| == |students|
  {
    if students != [] {
      GroupsCount(students[..|students| - 1]);
    }
  }

  /** The two groups together hold exactly the input students, duplicates included. */
  lemma {:induction false} GroupsPermute(students: seq<Student>)
    ensures multiset(Group(students, false) + Group(students, true)) == multiset(students)
  {
    if students != [] {
      var init, last := students[..|students| - 1], students[|students| - 1];
      GroupsPermute(init);
      assert students == init + [last];
    }
  }

  /** `xs` is `ys` with some items dropped, the rest kept in order. */
  ghost predicate Subsequence<T>(xs: seq<T>, ys: seq<T>)
    decreases |ys|
  {
    || xs == []
    || (&& ys != []
        && ((xs[|xs| - 1] == ys[|ys| - 1] && Subsequence(xs[..|xs| - 1], ys[..|ys| - 1]))
            || Subsequence(xs, ys[..|ys| - 1])))
  }

  /** Each group keeps the input order of its students. */
  lemma {:induction false} GroupStable(students: seq<Student>, compliant: bool)
    ensures Subsequence(Group(students, compliant), students)
  {
    if students != [] {
      var init, last := students[..|students| - 1], students[|students| - 1];
      GroupStable(init, compliant);
      var g := Group(init, compliant);
      assert students == init + [last];
      if IsCompliant(last.compliance) == compliant {
        var g' := g + [last];
        assert g'[..|g|] == g && g'[|g'| - 1] == last;
        assert students[..|students| - 1] == init;
      } else {
        assert Group(students, compliant) == g;
        SubsequenceOfLonger(g, init, last);
      }
    }
  }

  /** Appending to the longer list keeps a subsequence a subsequence. */
  lemma SubsequenceOfLonger<T>(xs: seq<T>, ys: seq<T>, y: T)
    requires Subsequence(xs, ys)
    ensures Subsequence(xs, ys + [y])
  {
    assert (ys + [y])[..|ys|] == ys;
  }

  /** The order of the rows: every non-compliant student, then every compliant one. */
  function DisplayOrder(students: seq<Student>): (order: seq<Student>)
    ensures |order| == |students|
  {
    GroupsCount(students);
    Group(students, false) + Group(students, true)
  }

  /** No compliant student is listed before a non-compliant one. */
  lemma DisplayOrderNonCompliantFirst(students: seq<Student>)
    ensures var d := DisplayOrder(students);
            forall i, j ::
              (0 <= i < |d| && 0 <= j < |d| && IsCompliant(d[i].compliance) && !IsCompliant(d[j].compliance)) ==> j < i
  {
    var bad, good := Group(students, false), Group(students, true);
    var d := DisplayOrder(students);
    forall i | 0 <= i < |d|
      ensures IsCompliant(d[i].compliance) <==> i >= |bad|
    {
      if i < |bad| {
        assert d[i] == bad[i];
      } else {
        assert d[i] == good[i - |bad|];
      }
    }
  }

  /** The listing is a rearrangement of the input, duplicates included. */
  lemma DisplayOrderPermutes(students: seq<Student>)
    ensures multiset(DisplayOrder(students)) == multiset(students)
  {
    GroupsPermute(students);
  }

  /** A student is in a group exactly when it is in the input and its record's truthiness matches. */
  lemma GroupMembers(students: seq<Student>, s: Student)
    ensures s in Group(students, true) <==> s in students && IsCompliant(s.compliance)
    ensures s in Group(students, false) <==> s in students && !IsCompliant(s.compliance)
  {
    GroupsPermute(students);
    assert s in students <==> s in multiset(Group(students, false) + Group(students, true));
  }

  /** A green check mark, padded with one blank each side, in ANSI colours. */
  const Tick := "\U{1B}[42m \U{2714} \U{1B}[0m"

  /** A red cross, padded with one blank each side, in ANSI colours. */
  const Cross := "\U{1B}[41m \U{2718} \U{1B}[0m"

  /** The mark a flag gets: a tick for a truthy flag, a cross for `False` and `None` alike. */
  function Mark(f: Flag): (m: string)
    ensures m == Tick <==> Truthy(f)
    ensures m == Cross <==> !Truthy(f)
  {
    assert Tick[3] != Cross[3];
    if Truthy(f) then Tick else Cross
  }

  const Headers: seq<string> := ["Name", "Canvas ID", "Filename", "Z", "R", "F"]

  /** `str(x)` for an optional string: the text, or `None`. */
  function Show(x: Option<string>): string {
    match x
    case Some(t) => t
    case None => "None"
  }

  /** A student's row: name, Canvas id, zip file name, then the zip, report and folder marks. */
  function Row(s: Student): (row: seq<string>)
    ensures |row| == |Headers|
    ensures row[3] == Tick <==> s.compliance.zipNameCompliant == Pass
    ensures row[4] == Tick <==> s.compliance.reportNameCompliant == Pass
    ensures row[5] == Tick <==> s.compliance.foldersCompliant == Pass
  {
    var c := s.compliance;
    [s.name, s.canvasId, Show(c.zipName), Mark(c.zipNameCompliant), Mark(c.reportNameCompliant), Mark(c.foldersCompliant)]
  }

  function Rows(students: seq<Student>): (rows: seq<seq<string>>)
    ensures |rows| == |students|
    ensures forall k :: 0 <= k < |rows| ==> rows[k] == Row(students[k])
  {
    if students == [] then [] else [Row(students[0])] + Rows(students[1..])
  }

  /** A table: the header row followed by the student rows, every row six cells wide. */
  predicate WellFormed(table: seq<seq<string>>) {
    forall k :: 0 <= k < |table| ==> |table[k]| == |Headers|
  }

  /** The length of the longest cell in column `col`. */
  function MaxCellLength(table: seq<seq<string>>, col: nat): (w: nat)
    requires WellFormed(table) && col < |Headers|
    ensures forall k :: 0 <= k < |table| ==> |table[k][col]| <= w
    ensures table != [] ==> exists k :: 0 <= k < |table| && |table[k][col]| == w
  {
    if table == [] then 0
    else
      var rest := MaxCellLength(table[1..], col);
      var here := |table[0][col]|;
      assert forall k :: 1 <= k < |table| ==> table[k] == table[1..][k - 1];
      if here >= rest then here
      else
        assert table[1..] != [];
        var k :| 0 <= k < |table[1..]| && |table[1..][k][col]| == rest;
        assert table[k + 1] == table[1..][k];
        rest
  }

  /**
   * The column widths: the longest cell, header included, for the name,
   * Canvas id and file name columns; a fixed 3 for the three mark columns,
   * whose cells carry invisible colour codes.
   */
  function ColumnWidths(students: seq<Student>): (ws: seq<nat>)
    ensures |ws| == |Headers|
  {
    [TextWidth(students, 0), TextWidth(students, 1), TextWidth(students, 2), 3, 3, 3]
  }

  /** The width of a text column: its longest cell over the header and the displayed rows. */
  function TextWidth(students: seq<Student>, col: nat): nat
    requires col < 3
  {
    MaxCellLength([Headers] + Rows(DisplayOrder(students)), col)
  }

  /**
   * Each of the first three widths bounds every cell of its column, header
   * included, and is the length of one of them.
   */
  lemma ColumnWidthsAreMaxima(students: seq<Student>, col: nat)
    requires col < 3
    ensures var w := ColumnWidths(students)[col];
            && |Headers[col]| <= w
            && (forall s :: s in students ==> |Row(s)[col]| <= w)
            && (|Headers[col]| == w || exists s :: s in students && |Row(s)[col]| == w)
  {
    ColumnWidthAt(students, col);
    DisplayColumnMax(students, col);
  }

  lemma ColumnWidthAt(students: seq<Student>, col: nat)
    requires col < 3
    ensures ColumnWidths(students)[col] == TextWidth(students, col)
  {
    var ws := ColumnWidths(students);
    if col == 0 {
      assert ws[0] == TextWidth(students, 0);
    } else if col == 1 {
      assert ws[1] == TextWidth(students, 1);
    } else {
      assert ws[2] == TextWidth(students, 2);
    }
  }

  /** The longest cell of a text column over the header and the displayed rows, stated per student. */
  lemma DisplayColumnMax(students: seq<Student>, col: nat)
    requires col < 3
    ensures var w := TextWidth(students, col);
            && |Headers[col]| <= w
            && (forall s :: s in students ==> |Row(s)[col]| <= w)
            && (|Headers[col]| == w || exists s :: s in students && |Row(s)[col]| == w)
  {
    var d := DisplayOrder(students);
    var rows := Rows(d);
    var w := MaxCellLength([Headers] + rows, col);
    TableColumnMax(Headers, rows, col);
    DisplayOrderPermutes(students);
    RowsBoundStudents(students, d, col, w);
    if |Headers[col]| != w {
      RowsReachStudent(students, d, col, w);
    }
  }

  /** The longest cell of a column bounds the header and every row, and is one of them. */
  lemma TableColumnMax(header: seq<string>, rows: seq<seq<string>>, col: nat)
    requires |header| == |Headers| && col < |Headers|
    requires forall k :: 0 <= k < |rows| ==> |rows[k]| == |Headers|
    ensures var w := MaxCellLength([header] + rows, col);
            && |header[col]| <= w
            && (forall k :: 0 <= k < |rows| ==> |rows[k][col]| <= w)
            && (|header[col]| == w || exists k :: 0 <= k < |rows| && |rows[k][col]| == w)
  {
    var table := [header] + rows;
    var w := MaxCellLength(table, col);
    assert table[0] == header;
    assert forall k :: 0 <= k < |rows| ==> table[k + 1] == rows[k];
    var k :| 0 <= k < |table| && |table[k][col]| == w;
    if k > 0 {
      assert table[k] == rows[k - 1];
    }
  }

  /** A bound on the cells of a rearrangement's rows bounds the cells of every student's row. */
  lemma RowsBoundStudents(students: seq<Student>, d: seq<Student>, col: nat, w: nat)
    requires multiset(d) == multiset(students) && col < |Headers|
    requires forall k :: 0 <= k < |Rows(d)| ==> |Rows(d)[k][col]| <= w
    ensures forall s :: s in students ==> |Row(s)[col]| <= w
  {
    forall s | s in students
      ensures |Row(s)[col]| <= w
    {
      assert s in multiset(d);
      var k :| 0 <= k < |d| && d[k] == s;
      assert Rows(d)[k] == Row(s);
    }
  }

  /** A cell length reached by a rearrangement's rows is reached by some student's row. */
  lemma RowsReachStudent(students: seq<Student>, d: seq<Student>, col: nat, w: nat)
    requires multiset(d) == multiset(students) && col < |Headers|
    requires exists k :: 0 <= k < |Rows(d)| && |Rows(d)[k][col]| == w
    ensures exists s :: s in students && |Row(s)[col]| == w
  {
    var k :| 0 <= k < |Rows(d)| && |Rows(d)[k][col]| == w;
    assert d[k] in multiset(d);
    assert d[k] in students && |Row(d[k])[col]| == w;
  }

  /** `f"{x:<{w}}"`: left-aligned, padded with blanks on the right up to width `w`. */
  function PadLeft(x: string, w: nat): (p: string)
    ensures |p| == if |x| < w then w else |x|
    ensures StartsWith(p, x)
  {
    if |x| < w then x + Repeat(' ', w - |x|) else x
  }

  /**
   * `f"{x:^{w}}"`: centred, the smaller half of the padding on the left
   * (Python puts an odd blank on the right).
   */
  function Center(x: string, w: nat): (p: string)
    ensures |p| == if |x| < w then w else |x|
    ensures |x| < w ==> p[(w - |x|) / 2..(w - |x|) / 2 + |x|] == x
  {
    if |x| < w then
      var left := (w - |x|) / 2;
      var p := Repeat(' ', left) + x + Repeat(' ', w - |x| - left);
      assert p[left..left + |x|] == x;
      p
    else x
  }

  /** One cell formatted for its column: left-aligned text columns, centred mark columns. */
  function FormatCell(x: string, col: nat, w: nat): string {
    if col < 3 then PadLeft(x, w) else Center(x, w)
  }

  function FormatCells(row: seq<string>, ws: seq<nat>, from: nat): (cells: seq<string>)
    requires |row| == |ws| && from <= |row|
    ensures |cells| == |row| - from
    ensures forall k :: 0 <= k < |cells| ==> cells[k] == FormatCell(row[from + k], from + k, ws[from + k])
    decreases |row| - from
  {
    if from == |row| then []
    else
      var rest := FormatCells(row, ws, from + 1);
      var cells := [FormatCell(row[from], from, ws[from])] + rest;
      assert forall k :: 1 <= k < |cells| ==> cells[k] == rest[k - 1];
      cells
  }

  /** A printed line of the table: the formatted cells joined by `" | "`. */
  function FormatRow(row: seq<string>, ws: seq<nat>): string
    requires |row| == |ws|
  {
    Join(" | ", FormatCells(row, ws, 0))
  }

  /** The header line and the dashed rule under it, which is exactly as long. */
  function HeaderLines(students: seq<Student>): (lines: seq<string>)
    ensures |lines| == 2
    ensures |lines[1]| == |lines[0]| && forall k :: 0 <= k < |lines[1]| ==> lines[1][k] == '-'
  {
    var header := FormatRow(Headers, ColumnWidths(students));
    [header, Repeat('-', |header|)]
  }

  /** Every header cell is padded to exactly its column's width. */
  lemma HeaderCellsAligned(students: seq<Student>, col: nat)
    requires col < |Headers|
    ensures var ws := ColumnWidths(students);
            |FormatCell(Headers[col], col, ws[col])| == ws[col]
  {
    if col < 3 {
      ColumnWidthsAreMaxima(students, col);
    }
  }

  /**
   * In every row that is printed the name, Canvas id and file name cells
   * are padded to exactly their column's width, so these columns line up.
   */
  lemma TextCellsAligned(students: seq<Student>, k: nat, col: nat)
    requires k < PrintedRows(DisplayOrder(students)) && col < 3
    ensures var ws := ColumnWidths(students);
            |FormatCell(Row(DisplayOrder(students)[k])[col], col, ws[col])| == ws[col]
  {
    var order := DisplayOrder(students);
    DisplayOrderPermutes(students);
    assert order[k] in multiset(order);
    ColumnWidthsAreMaxima(students, col);
  }

  /** The printed summary: `N submissions: G compliant, B non-compliant.` */
  function Summary(students: seq<Student>): (line: string)
    ensures StartsWith(line, IntToString(|students|) + " submissions: ")
  {
    var head := IntToString(|students|) + " submissions: ";
    var line := head + IntToString(|Group(students, true)|) + " compliant, "
                + IntToString(|Group(students, false)|) + " non-compliant.";
    assert line[..|head|] == head;
    line
  }

  /**
   * The table as `display_students` formats it: header, rule, then one line
   * per student, non-compliant first. `DisplayStudents` says how much of it
   * is printed.
   */
  function Table(students: seq<Student>): (lines: seq<string>)
    ensures |lines| == 2 + |students|
    ensures lines[..2] == HeaderLines(students)
  {
    var ws := ColumnWidths(students);
    var rows := Rows(DisplayOrder(students));
    HeaderLines(students) + RowLines(rows, ws)
  }

  /** Line `2 + k` of the table is the `k`-th student in display order, formatted to the column widths. */
  lemma TableRow(students: seq<Student>, k: nat)
    requires k < |students|
    ensures |Row(DisplayOrder(students)[k])| == |ColumnWidths(students)|
    ensures Table(students)[2 + k] == FormatRow(Row(DisplayOrder(students)[k]), ColumnWidths(students))
  {
    var ws := ColumnWidths(students);
    var order := DisplayOrder(students);
    var rows := Rows(order);
    var body := RowLines(rows, ws);
    var head := HeaderLines(students);
    assert Table(students) == head + body;
    assert |head| == 2;
    assert (head + body)[2 + k] == body[k];
  }

  /**
   * A row prints only when its file name cell is text: formatting `None`
   * with a `<` width spec raises `TypeError`.
   */
  predicate Printable(s: Student) {
    s.compliance.zipName.Some?
  }

  /** How many rows print before one raises: the position of the first student without a file name. */
  function PrintedRows(order: seq<Student>): (n: nat)
    ensures n <= |order|
    ensures forall k :: 0 <= k < n ==> Printable(order[k])
    ensures n < |order| ==> !Printable(order[n])
  {
    if order == [] || !Printable(order[0]) then 0
    else
      var n := PrintedRows(order[1..]);
      assert forall k :: 1 <= k < |order| ==> order[k] == order[1..][k - 1];
      1 + n
  }

  /** The lines `display_students` prints of its table, and whether it then raises. */
  datatype Printout = Printout(lines: seq<string>, raised: bool)

  /**
   * `display_students` from the header on: the header and rule always print,
   * then the rows in display order up to the first one without a file name,
   * where the call raises.
   */
  function DisplayStudents(students: seq<Student>): (p: Printout)
    ensures p.raised <==> exists s :: s in students && !Printable(s)
    ensures |p.lines| == 2 + PrintedRows(DisplayOrder(students))
    ensures p.lines == Table(students)[..|p.lines|]
    ensures !p.raised ==> p.lines == Table(students)
  {
    var n := PrintedRows(DisplayOrder(students));
    RaisesExactlyOnMissingName(students);
    PrefixOf(Table(students), 2 + n);
    Printout(Table(students)[..2 + n], n < |students|)
  }

  /** Taking the first `m` items gives `m` items, and the whole list when `m` is its length. */
  lemma PrefixOf<T>(xs: seq<T>, m: nat)
    requires m <= |xs|
    ensures |xs[..m]| == m && (m == |xs| ==> xs[..m] == xs)
  {
  }

  /** Some row is left unprinted exactly when some student has no file name. */
  lemma RaisesExactlyOnMissingName(students: seq<Student>)
    ensures PrintedRows(DisplayOrder(students)) < |students| <==> exists s :: s in students && !Printable(s)
  {
    var order := DisplayOrder(students);
    var n := PrintedRows(order);
    DisplayOrderPermutes(students);
    if n < |students| {
      assert order[n] in multiset(order);
    }
    forall s | s in students && !Printable(s)
      ensures n < |students|
    {
      assert s in multiset(order);
      var j :| 0 <= j < |order| && order[j] == s;
    }
  }

  /** A student with a default record has no file name: only the header and the rule print. */
  lemma DefaultRecordRaises(name: string, canvasId: string, sisId: string)
    ensures var p := DisplayStudents([Student(name, canvasId, sisId, DefaultCompliance)]);
            p.raised && |p.lines| == 2
  {
    var st := Student(name, canvasId, sisId, DefaultCompliance);
    var order := DisplayOrder([st]);
    DisplayOrderPermutes([st]);
    assert order[0] in multiset([st]);
  }

  /** A printed row line is the formatted row of its student, who has a file name. */
  lemma PrintedRow(students: seq<Student>, k: nat)
    requires 2 + k < |DisplayStudents(students).lines|
    ensures Printable(DisplayOrder(students)[k])
    ensures |Row(DisplayOrder(students)[k])| == |ColumnWidths(students)|
    ensures DisplayStudents(students).lines[2 + k] == FormatRow(Row(DisplayOrder(students)[k]), ColumnWidths(students))
  {
    TableRow(students, k);
  }

  function RowLines(rows: seq<seq<string>>, ws: seq<nat>): (lines: seq<string>)
    requires |ws| == |Headers|
    requires forall k :: 0 <= k < |rows| ==> |rows[k]| == |Headers|
    ensures |lines| == |rows|
    ensures forall k :: 0 <= k < |rows| ==> lines[k] == FormatRow(rows[k], ws)
  {
    if rows == [] then [] else [FormatRow(rows[0], ws)] + RowLines(rows[1..], ws)
  }
}
