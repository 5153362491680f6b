/** `parseCsv`: turns the text of an uploaded file into participants, one per line with a
    non-empty attribute (first column) and name (second column). */
module Csv {
  import opened Text
  import opened Roster

  /** `cell.replace(/^"|"$/g, "")`: one double quote is dropped at the start and one at
      the end. */
  function StripQuotes(cell: string): string
  {
    var a := if |cell| > 0 && cell[0] == '"' then cell[1..] else cell;
    if |a| > 0 && a[|a| - 1] == '"' then a[..|a| - 1] else a
  }

  /** A quoted cell loses exactly its enclosing quotes, and a cell without a quote at
      either end is left as it is. */
  lemma StripQuotesFacts(s: string)
    ensures StripQuotes(['"'] + s + ['"']) == s
    ensures (|s| == 0 || (s[0] != '"' && s[|s| - 1] != '"')) ==> StripQuotes(s) == s
  {
    var q := ['"'] + s + ['"'];
    assert q[1..] == s + ['"'];
    assert (s + ['"'])[..|s|] == s;
  }

  /** A cell as `parseCsv` reads it: quotes stripped, then trimmed. */
  function Clean(cell: string): string
  {
    Trim(StripQuotes(cell))
  }

  /** `line.split(",").map(...)`: the cleaned cells of a line. */
  function Cells(line: string): seq<string>
  {
    var parts := Split(line, ',');
    seq(|parts|, k requires 0 <= k < |parts| => Clean(parts[k]))
  }

  /** `.map((line) => line.trim()).filter(Boolean)`: the trimmed pieces that are not empty. */
  function NonBlank(parts: seq<string>): seq<string>
  {
    if |parts| == 0 then []
    else
      var t := Trim(parts[0]);
      (if |t| == 0 then [] else [t]) + NonBlank(parts[1..])
  }

  /** The lines of the file: `raw.split(/\r?\n/)`, trimmed, blank ones dropped.  Splitting
      on a line feed alone gives the same lines, since trimming removes the carriage
      return that ends a CRLF line. */
  function Lines(raw: string): seq<string>
  {
    NonBlank(Split(raw, '\n'))
  }

  /** `firstRow.some((cell) => normalize(cell) === "attribute")`. */
  predicate HasHeader(firstRow: seq<string>)
  {
    |firstRow| > 0 && (Normalize(firstRow[0]) == HeaderWord || HasHeader(firstRow[1..]))
  }

  const HeaderWord: string := "attribute"

  /** The header test holds exactly when some cell of the first row normalises to
      "attribute": any column, not only the first, marks the row as a header. */
  lemma {:induction false} HasHeaderMeans(firstRow: seq<string>)
    ensures HasHeader(firstRow) <==> exists c :: c in firstRow && Normalize(c) == HeaderWord
  {
    if |firstRow| > 0 {
      HasHeaderMeans(firstRow[1..]);
      assert forall c :: c in firstRow <==> c == firstRow[0] || c in firstRow[1..];
    }
  }

  /** One accepted row: the attribute and the name, before an id is attached. */
  datatype Row = Row(attribute: string, name: string)

  /** `const [attribute, name] = cells; if (!attribute || !name) continue;`: the first two
      cells of a line, when both exist and are non-empty; further cells are ignored. */
  function RowOf(line: string): Option<Row>
  {
    var cells := Cells(line);
    if |cells| < 2 || |cells[0]| == 0 || |cells[1]| == 0 then None else Some(Row(cells[0], cells[1]))
  }

  /** The row of each line, `None` where the line is skipped. */
  function RowOptions(lines: seq<string>): (r: seq<Option<Row>>)
    ensures |r| == |lines|
  {
    seq(|lines|, k requires 0 <= k < |lines| => RowOf(lines[k]))
  }

  /** The rows that are present, in order. */
  function Present(opts: seq<Option<Row>>): seq<Row>
  {
    if |opts| == 0 then []
    else
      var last := opts[|opts| - 1];
      Present(opts[..|opts| - 1]) + (if last.Some? then [last.value] else [])
  }

  /** The rows `parseCsv` accepts: all lines, except the first when it is a header. */
  function ParsedRows(raw: string): seq<Row>
  {
    var lines := Lines(raw);
    if |lines| == 0 then []
    else
      var start := if HasHeader(Cells(lines[0])) then 1 else 0;
      Present(RowOptions(lines)[start..])
  }

  /** Participants for `rows`, the k-th receiving the k-th generated id. */
  function Numbered(rows: seq<Row>, newId: nat -> Id): seq<Participant>
  {
    seq(|rows|, k requires 0 <= k < |rows| => Participant(newId(k), rows[k].attribute, rows[k].name))
  }

  /** What `parseCsv(raw)` returns when `generateId()` yields `newId(k)` on its k-th call. */
  function CsvEntries(raw: string, newId: nat -> Id): seq<Participant>
  {
    Numbered(ParsedRows(raw), newId)
  }

  /** `parseCsv`: splits and filters the lines, tests the first row for a header, then
      reads the remaining lines. */
  method ParseCsv(raw: string, newId: nat -> Id) returns (participants: seq<Participant>)
    ensures participants == CsvEntries(raw, newId)
  {
    var lines := Lines(raw);
    if |lines| == 0 {
      return [];
    }
    var firstRow := Cells(lines[0]);
    var hasHeader := HasHeader(firstRow);
    participants := ReadLines(lines, if hasHeader then 1 else 0, newId);
  }

  /** The loop of `parseCsv`: walks the lines from `start`, pushing a participant for each
      line with an attribute and a name. */
  method ReadLines(lines: seq<string>, start: nat, newId: nat -> Id) returns (participants: seq<Participant>)
    requires start <= |lines|
    ensures participants == Numbered(Present(RowOptions(lines)[start..]), newId)
  {
    participants := [];
    var i := start;
    ghost var opts := RowOptions(lines);
    while i < |lines|
      invariant start <= i <= |lines|
      invariant participants == Numbered(Present(opts[start..i]), newId)
    {
      var row := ReadLine(lines, i);
      ReadRow(opts, start, i, newId);
      if row.Some? {
        participants := participants + [Participant(newId(|participants|), row.value.attribute, row.value.name)];
      }
      i := i + 1;
    }
    assert opts[start..] == opts[start..i];
  }

  /** `lines[i].split(",").map(...)` and the two-cell test: the row of line `i`. */
  method ReadLine(lines: seq<string>, i: nat) returns (row: Option<Row>)
    requires i < |lines|
    ensures row == RowOptions(lines)[i]
  {
    row := RowOf(lines[i]);
  }

  /** Reading one more line adds a participant for its row, if it has one, with the next
      generated id. */
  lemma ReadRow(opts: seq<Option<Row>>, start: nat, i: nat, newId: nat -> Id)
    requires start <= i < |opts|
    ensures var before := Numbered(Present(opts[start..i]), newId);
      Numbered(Present(opts[start..i + 1]), newId)
        == before + (if opts[i].Some? then [Participant(newId(|before|), opts[i].value.attribute, opts[i].value.name)] else [])
  {
    assert opts[start..i + 1][..i - start] == opts[start..i];
    if opts[i].Some? {
      NumberedSnoc(Present(opts[start..i]), opts[i].value, newId);
    }
  }

  /** One more row gets the next generated id. */
  lemma NumberedSnoc(rows: seq<Row>, r: Row, newId: nat -> Id)
    ensures Numbered(rows + [r], newId) == Numbered(rows, newId) + [Participant(newId(|rows|), r.attribute, r.name)]
  {
  }

  /** When every entry is present, the present rows are exactly the entries' rows. */
  lemma {:induction false} PresentAll(opts: seq<Option<Row>>, rows: seq<Row>)
    requires |opts| == |rows|
    requires forall k :: 0 <= k < |opts| ==> opts[k] == Some(rows[k])
    ensures Present(opts) == rows
  {
    if |opts| > 0 {
      var n := |opts| - 1;
      PresentAll(opts[..n], rows[..n]);
      assert rows == rows[..n] + [rows[n]];
    }
  }

  /** Every line kept is the trimmed form of one of the pieces, and is neither empty nor
      padded. */
  lemma {:induction false} NonBlankFacts(parts: seq<string>)
    ensures forall l :: l in NonBlank(parts) ==> |l| > 0 && Trimmed(l) && exists p :: p in parts && l == Trim(p)
  {
    if |parts| > 0 {
      NonBlankFacts(parts[1..]);
      TrimFacts(parts[0]);
      forall l | l in NonBlank(parts[1..])
        ensures exists p :: p in parts && l == Trim(p)
      {
        var p :| p in parts[1..] && l == Trim(p);
        assert p in parts;
      }
    }
  }

  /** A non-empty attribute and name, each trimmed and free of commas. */
  predicate WellFormed(r: Row)
  {
    && |r.attribute| > 0 && Trimmed(r.attribute) && ',' !in r.attribute
    && |r.name| > 0 && Trimmed(r.name) && ',' !in r.name
  }

  /** Every row read from a line has a non-empty, trimmed attribute and name, neither
      holding a comma. */
  lemma RowOfFacts(line: string)
    ensures RowOf(line).Some? ==> WellFormed(RowOf(line).value)
  {
    var parts := Split(line, ',');
    SplitPieces(line, ',');
    if RowOf(line).Some? {
      CleanFacts(parts[0]);
      CleanFacts(parts[1]);
      assert parts[0] in parts && parts[1] in parts;
    }
  }

  /** A cleaned cell is trimmed and holds only characters of the raw cell. */
  lemma CleanFacts(cell: string)
    ensures Trimmed(Clean(cell))
    ensures forall c :: c in Clean(cell) ==> c in cell
  {
    var s := StripQuotes(cell);
    TrimFacts(s);
    var i, j :| 0 <= i <= j <= |s| && Trim(s) == s[i..j];
    var a := if |cell| > 0 && cell[0] == '"' then cell[1..] else cell;
    assert forall c :: c in s ==> c in a;
    assert forall c :: c in a ==> c in cell;
  }

  /** Every row `parseCsv` accepts is well formed. */
  lemma ParsedRowsFacts(raw: string)
    ensures forall r :: r in ParsedRows(raw) ==> WellFormed(r)
  {
    var lines := Lines(raw);
    if |lines| > 0 {
      var start := if HasHeader(Cells(lines[0])) then 1 else 0;
      RowOptionsWellFormed(lines);
      PresentWellFormed(RowOptions(lines)[start..]);
    }
  }

  /** The row read from any line is well formed. */
  lemma RowOptionsWellFormed(lines: seq<string>)
    ensures forall o :: o in RowOptions(lines) && o.Some? ==> WellFormed(o.value)
  {
    forall k | 0 <= k < |lines|
      ensures RowOf(lines[k]).Some? ==> WellFormed(RowOf(lines[k]).value)
    {
      RowOfFacts(lines[k]);
    }
  }

  /** Rows kept from well-formed entries are well formed. */
  lemma {:induction false} PresentWellFormed(opts: seq<Option<Row>>)
    requires forall o :: o in opts && o.Some? ==> WellFormed(o.value)
    ensures forall r :: r in Present(opts) ==> WellFormed(r)
  {
    if |opts| > 0 {
      var n := |opts| - 1;
      assert opts[n] in opts;
      assert forall o :: o in opts[..n] ==> o in opts;
      PresentWellFormed(opts[..n]);
    }
  }

  /** Every participant `parseCsv` returns has a fresh generated id (the k-th gets the
      k-th id) and a non-empty attribute and name, trimmed and free of commas. */
  lemma CsvEntriesFacts(raw: string, newId: nat -> Id)
    ensures var ps := CsvEntries(raw, newId);
      forall k :: 0 <= k < |ps| ==>
        ps[k].id == newId(k) && WellFormed(Row(ps[k].attribute, ps[k].name))
  {
    var rows := ParsedRows(raw);
    ParsedRowsFacts(raw);
    assert forall k :: 0 <= k < |rows| ==> rows[k] in rows;
  }

  /** A file with no non-blank line yields no participant. */
  lemma CsvBlank(raw: string, newId: nat -> Id)
    requires forall l :: l in Split(raw, '\n') ==> |Trim(l)| == 0
    ensures CsvEntries(raw, newId) == []
  {
    BlankLines(Split(raw, '\n'));
  }

  lemma {:induction false} BlankLines(parts: seq<string>)
    requires forall l :: l in parts ==> |Trim(l)| == 0
    ensures NonBlank(parts) == []
  {
    if |parts| > 0 {
      assert parts[0] in parts;
      BlankLines(parts[1..]);
    }
  }

  /** A cell that survives parsing unchanged: non-empty, trimmed, without a comma, a line
      break or a quote at either end. */
  predicate PlainCell(c: string)
  {
    |c| > 0 && Trimmed(c) && ',' !in c && '\n' !in c && c[0] != '"' && c[|c| - 1] != '"'
  }

  /** A plain cell reads back as itself. */
  lemma CleanPlain(c: string)
    requires PlainCell(c)
    ensures Clean(c) == c
  {
    StripQuotesFacts(c);
    TrimOfTrimmed(c);
  }

  /** The line `attribute,name` for a row. */
  function RenderRow(r: Row): string
  {
    r.attribute + [','] + r.name
  }

  /** A line written as `attribute,name` from plain cells splits into exactly those cells. */
  lemma CellsOfRendered(r: Row)
    requires PlainCell(r.attribute) && PlainCell(r.name)
    ensures Cells(RenderRow(r)) == [r.attribute, r.name]
  {
    CleanPlain(r.attribute);
    CleanPlain(r.name);
    SplitAfterPiece(r.attribute, r.name, ',');
    SplitNoSeparator(r.name, ',');
  }

  /** A row of plain cells, written as `attribute,name`, reads back as itself. */
  lemma RowOfRendered(r: Row)
    requires PlainCell(r.attribute) && PlainCell(r.name)
    ensures RowOf(RenderRow(r)) == Some(r)
  {
    CellsOfRendered(r);
  }

  /** Cells after the second are ignored: `attribute,name,extra` reads as `attribute,name`. */
  lemma RowOfExtraColumns(r: Row, extra: string)
    requires PlainCell(r.attribute) && PlainCell(r.name)
    ensures RowOf(RenderRow(r) + [','] + extra) == Some(r)
  {
    CleanPlain(r.attribute);
    CleanPlain(r.name);
    var line := RenderRow(r) + [','] + extra;
    assert line == r.attribute + [','] + (r.name + [','] + extra);
    SplitAfterPiece(r.attribute, r.name + [','] + extra, ',');
    SplitAfterPiece(r.name, extra, ',');
  }

  /** A row written with each cell in double quotes, `"attribute","name"`, reads back with
      the quotes removed. */
  lemma RowOfQuoted(r: Row)
    requires PlainCell(r.attribute) && PlainCell(r.name)
    ensures RowOf(['"'] + r.attribute + ['"', ',', '"'] + r.name + ['"']) == Some(r)
  {
    var qa := ['"'] + r.attribute + ['"'];
    var qn := ['"'] + r.name + ['"'];
    assert ['"'] + r.attribute + ['"', ',', '"'] + r.name + ['"'] == qa + [','] + qn;
    StripQuotesFacts(r.attribute);
    StripQuotesFacts(r.name);
    TrimOfTrimmed(r.attribute);
    TrimOfTrimmed(r.name);
    SplitAfterPiece(qa, qn, ',');
    SplitNoSeparator(qn, ',');
  }

  /** Both cells of every row are plain. */
  predicate AllPlain(rows: seq<Row>)
  {
    forall k :: 0 <= k < |rows| ==> PlainCell(rows[k].attribute) && PlainCell(rows[k].name)
  }

  /** A header row such as `attribute,name`: plain cells, the first normalising to
      "attribute". */
  predicate HeaderRow(h: Row)
  {
    PlainCell(h.attribute) && PlainCell(h.name) && Normalize(h.attribute) == HeaderWord
  }

  /** The rows written to the file: the header row, if any, then the data rows. */
  function Written(rows: seq<Row>, header: Option<Row>): seq<Row>
  {
    (if header.Some? then [header.value] else []) + rows
  }

  /** The file holding the header row, if any, then `rows`, one per line. */
  function Render(rows: seq<Row>, header: Option<Row>): string
  {
    Join(RenderAll(Written(rows, header)), '\n')
  }

  function RenderAll(rows: seq<Row>): (r: seq<string>)
    ensures |r| == |rows|
    ensures forall k :: 0 <= k < |rows| ==> r[k] == RenderRow(rows[k])
  {
    if |rows| == 0 then [] else RenderAll(rows[..|rows| - 1]) + [RenderRow(rows[|rows| - 1])]
  }

  /** Round trip: writing rows of plain cells one per line, with or without a header row,
      and parsing the file gives back exactly those rows, the k-th with the k-th generated
      id.  Without a header, the first row must not look like one: no cell of it may
      normalise to "attribute". */
  lemma ParseRendered(rows: seq<Row>, header: Option<Row>, newId: nat -> Id)
    requires AllPlain(rows)
    requires header.Some? ==> HeaderRow(header.value)
    requires header.None? && |rows| > 0 ==>
      Normalize(rows[0].attribute) != HeaderWord && Normalize(rows[0].name) != HeaderWord
    ensures CsvEntries(Render(rows, header), newId) == Numbered(rows, newId)
  {
    var written := Written(rows, header);
    LinesOfRender(written);
    if |written| > 0 {
      HeaderDetected(rows, header);
      RowsOfRendered(rows, header);
    }
  }

  /** The first line of a rendered file is taken for a header exactly when a header row
      was written. */
  lemma HeaderDetected(rows: seq<Row>, header: Option<Row>)
    requires AllPlain(rows)
    requires header.Some? ==> HeaderRow(header.value)
    requires header.None? && |rows| > 0 ==>
      Normalize(rows[0].attribute) != HeaderWord && Normalize(rows[0].name) != HeaderWord
    requires |Written(rows, header)| > 0
    ensures HasHeader(Cells(RenderAll(Written(rows, header))[0])) <==> header.Some?
  {
    var first := Written(rows, header)[0];
    CellsOfRendered(first);
    HasHeaderPair(first.attribute, first.name);
  }

  /** A two-cell row is a header row when either cell normalises to "attribute". */
  lemma HasHeaderPair(a: string, b: string)
    ensures HasHeader([a, b]) <==> Normalize(a) == HeaderWord || Normalize(b) == HeaderWord
  {
    var row := [a, b];
    var last := [b];
    assert row[1..] == last && last[1..] == [];
    assert HasHeader(row) == (Normalize(a) == HeaderWord || HasHeader(last));
    assert HasHeader(last) == (Normalize(b) == HeaderWord || HasHeader([]));
  }

  /** The rendered data rows, after the header line if there is one, read back as
      themselves. */
  lemma RowsOfRendered(rows: seq<Row>, header: Option<Row>)
    requires AllPlain(rows)
    ensures var start := if header.Some? then 1 else 0;
      Present(RowOptions(RenderAll(Written(rows, header)))[start..]) == rows
  {
    var written := Written(rows, header);
    var start := if header.Some? then 1 else 0;
    var opts := RowOptions(RenderAll(written))[start..];
    forall k | 0 <= k < |rows|
      ensures opts[k] == Some(rows[k])
    {
      assert written[start + k] == rows[k];
      RowOfRendered(rows[k]);
    }
    PresentAll(opts, rows);
  }

  /** The lines of a rendered file are the rendered rows. */
  lemma LinesOfRender(written: seq<Row>)
    requires AllPlain(written)
    ensures Lines(Join(RenderAll(written), '\n')) == RenderAll(written)
  {
    var all := RenderAll(written);
    if |all| == 0 {
      assert Split(Join(all, '\n'), '\n') == [[]];
    } else {
      PlainAll(written);
      SplitJoin(all, '\n');
      PlainLines(all);
    }
  }

  /** Every rendered line is non-empty, trimmed and free of line breaks. */
  lemma PlainAll(rows: seq<Row>)
    requires AllPlain(rows)
    ensures forall l :: l in RenderAll(rows) ==> '\n' !in l && |l| > 0 && Trimmed(l)
  {
    var body := RenderAll(rows);
    forall l | l in body
      ensures '\n' !in l && |l| > 0 && Trimmed(l)
    {
      var k :| 0 <= k < |body| && body[k] == l;
      RenderedLine(rows[k]);
    }
  }

  /** A rendered row is a non-empty, trimmed line without a line break. */
  lemma RenderedLine(r: Row)
    requires PlainCell(r.attribute) && PlainCell(r.name)
    ensures '\n' !in RenderRow(r) && |RenderRow(r)| > 0 && Trimmed(RenderRow(r))
  {
    var l := RenderRow(r);
    assert l[0] == r.attribute[0] && l[|l| - 1] == r.name[|r.name| - 1];
  }

  /** The header row `attribute,name` is a header row. */
  lemma StandardHeader()
    ensures HeaderRow(Row(HeaderWord, "name"))
  {
    var w := HeaderWord;
    assert |w| == 9 && w[0] == 'a' && w[8] == 'e';
    assert Trimmed(w);
    assert PlainCell(w);
    assert PlainCell("name");
    TrimOfTrimmed(w);
    assert forall k :: 0 <= k < |w| ==> !('A' <= w[k] <= 'Z');
    LowerOfLower(w);
    assert Normalize(w) == w;
  }

  /** Non-empty trimmed lines pass the line filter unchanged. */
  lemma {:induction false} PlainLines(lines: seq<string>)
    requires forall l :: l in lines ==> |l| > 0 && Trimmed(l)
    ensures NonBlank(lines) == lines
  {
    if |lines| > 0 {
      assert lines[0] in lines;
      TrimOfTrimmed(lines[0]);
      PlainLines(lines[1..]);
    }
  }
}
