/**
 * The row logic of Szotar's list editor (ListBuilder): copying the list as CSV text, finding a row
 * to scroll to, turning pasted lines into entries, and the sort-column state of the grid header.
 * A row is a (phrase, translation) pair; grid, clipboard and word-list calls are not modelled.
 */
module ListBuilder {
  import opened Wrappers

  datatype Row = Row(phrase: string, translation: string)

  /** What AppendLine appends: Environment.NewLine on Windows. */
  const NewLine: string := "\r\n"

  // ---------------------------------------------------------------------------------------------
  // CSV text (CopyAsCsvClick)

  /** A field is quoted when it holds a double quote, a comma or an LF; a CR alone does not count. */
  predicate NeedsQuotes(field: string)
  {
    '"' in field || ',' in field || '\n' in field
  }

  /** Quoting is decided character by character: some character is a double quote, a comma or an
      LF; a CR is not one of them. */
  lemma NeedsQuotesExactly(field: string)
    ensures NeedsQuotes(field) <==>
      exists i :: 0 <= i < |field| && (field[i] == '"' || field[i] == ',' || field[i] == '\n')
    ensures NeedsQuotes(field) ==> NeedsQuotes(field + "\r") && NeedsQuotes("\r" + field)
    ensures !NeedsQuotes(field) ==> !NeedsQuotes(field + "\r")
    ensures !NeedsQuotes(field) ==> !NeedsQuotes("\r" + field)
  {
  }

  /** The number of double quotes in s. */
  function Quotes(s: string): nat
  {
    if s == [] then 0 else (if s[0] == '"' then 1 else 0) + Quotes(s[1..])
  }

  /** Replace("\"", "\"\""): every double quote doubled, all other characters kept. */
  function Escape(field: string): string
  {
    if field == [] then []
    else (if field[0] == '"' then "\"\"" else [field[0]]) + Escape(field[1..])
  }

  /** Escaping doubles the double quotes and keeps every other character: it adds one character
      per double quote, and leaves a field without double quotes as it is. */
  lemma {:induction false} EscapeDoublesQuotes(field: string)
    ensures |Escape(field)| == |field| + Quotes(field)
    ensures Quotes(Escape(field)) == 2 * Quotes(field)
    ensures '"' !in field ==> Escape(field) == field
  {
    if field != [] {
      EscapeDoublesQuotes(field[1..]);
      var head := if field[0] == '"' then "\"\"" else [field[0]];
      QuotesAppend(head, Escape(field[1..]));
      assert [field[0]] + field[1..] == field;
    }
  }

  lemma {:induction false} QuotesAppend(a: string, b: string)
    ensures Quotes(a + b) == Quotes(a) + Quotes(b)
  {
    if a == [] {
      assert a + b == b;
    } else {
      assert (a + b)[1..] == a[1..] + b;
      QuotesAppend(a[1..], b);
    }
  }

  /** One field as written: escaped, and wrapped in double quotes when it needs them. */
  function RenderField(field: string): string
  {
    if NeedsQuotes(field) then "\"" + Escape(field) + "\"" else Escape(field)
  }

  /** One entry: phrase field, comma, translation field, line break. */
  function RenderRow(row: Row): string
  {
    RenderField(row.phrase) + "," + RenderField(row.translation) + NewLine
  }

  /** A field that needs quotes is written between double quotes; any other field is written as it
      is, since it holds no double quote to double. */
  lemma RenderFieldShape(field: string)
    ensures var r := RenderField(field);
      && (NeedsQuotes(field) ==> |r| >= 2 && r[0] == '"' && r[|r| - 1] == '"')
      && (!NeedsQuotes(field) ==> r == field)
  {
    EscapeDoublesQuotes(field);
  }

  /** An entry is one line: it ends with CR LF, and an entry whose texts need no quoting is written
      as phrase, comma, translation. */
  lemma RenderRowShape(row: Row)
    ensures var r := RenderRow(row);
      && |r| >= 3 && r[|r| - 2..] == NewLine
      && (!NeedsQuotes(row.phrase) && !NeedsQuotes(row.translation) ==>
            r == row.phrase + "," + row.translation + NewLine)
  {
    RenderFieldShape(row.phrase);
    RenderFieldShape(row.translation);
  }

  /** The whole list, one line per entry in list order. */
  function Csv(rows: seq<Row>): string
  {
    if rows == [] then "" else RenderRow(rows[0]) + Csv(rows[1..])
  }

  /** The text is empty exactly when the list is, and each entry takes at least a comma and a CR LF. */
  lemma {:induction false} CsvLength(rows: seq<Row>)
    ensures |Csv(rows)| >= 3 * |rows|
    ensures Csv(rows) == [] <==> rows == []
  {
    if rows != [] {
      RenderRowShape(rows[0]);
      CsvLength(rows[1..]);
    }
  }

  lemma {:induction false} CsvAppend(rows: seq<Row>, row: Row)
    ensures Csv(rows + [row]) == Csv(rows) + RenderRow(row)
  {
    if rows == [] {
      assert rows + [row] == [row];
    } else {
      assert (rows + [row])[1..] == rows[1..] + [row];
      CsvAppend(rows[1..], row);
    }
  }

  /** Appending an entry's fields, comma and line break one after another to the text of a list
      gives the text of the list with that entry added at the end. */
  lemma CsvAppendFields(rows: seq<Row>, row: Row)
    ensures Csv(rows + [row])
      == Csv(rows) + RenderField(row.phrase) + "," + RenderField(row.translation) + NewLine
  {
    CsvAppend(rows, row);
    var c, p, t := Csv(rows), RenderField(row.phrase), RenderField(row.translation);
    assert c + (p + "," + t + NewLine) == (c + (p + "," + t)) + NewLine;
    assert c + (p + "," + t) == (c + (p + ",")) + t;
    assert c + (p + ",") == c + p + ",";
  }

  /** One field of CopyAsCsvClick: the opening quote when the field needs quotes, the escaped
      field, and the closing quote. */
  method AppendField(sb: string, field: string) returns (r: string)
    ensures r == sb + RenderField(field)
    ensures !NeedsQuotes(field) && '"' !in field ==> r == sb + field
  {
    var quote := NeedsQuotes(field);
    r := sb;
    if quote {
      r := r + "\"";
    }
    r := r + Escape(field);
    if quote {
      r := r + "\"";
      assert sb + "\"" + Escape(field) + "\"" == sb + ("\"" + Escape(field) + "\"");
    }
    RenderFieldShape(field);
  }

  /** CopyAsCsvClick: render every entry into one text; it goes to the clipboard only when it is
      not empty. `copied` says whether the clipboard was set. */
  method CopyAsCsv(list: seq<Row>) returns (text: string, copied: bool)
    ensures text == Csv(list)
    ensures copied <==> |text| > 0
    ensures copied <==> |list| > 0
  {
    var sb: string := "";
    for i := 0 to |list|
      invariant sb == Csv(list[..i])
    {
      assert list[..i + 1] == list[..i] + [list[i]];
      CsvAppendFields(list[..i], list[i]);
      sb := AppendField(sb, list[i].phrase);
      sb := sb + ",";
      sb := AppendField(sb, list[i].translation);
      sb := sb + NewLine;
    }
    CsvLength(list);
    assert list[..|list|] == list;
    text := sb;
    copied := |sb| > 0;
    if |list| > 0 {
      assert |text| >= |RenderRow(list[0])| > 0;
    }
  }

  // A reader for the text CopyAsCsv produces: the partner that shows nothing is lost.

  /** The rest of a quoted field after its opening quote: "" stands for one double quote and a
      lone double quote closes the field. Returns the field and the text after the closing quote. */
  function ReadQuoted(s: string): (r: Option<(string, string)>)
    ensures r.Some? ==> |r.value.1| < |s|
  {
    if s == [] then None
    else if s[0] == '"' then
      if |s| >= 2 && s[1] == '"' then
        match ReadQuoted(s[2..])
        case None => None
        case Some(p) => Some(("\"" + p.0, p.1))
      else Some(("", s[1..]))
    else
      match ReadQuoted(s[1..])
      case None => None
      case Some(p) => Some(([s[0]] + p.0, p.1))
  }

  /** An unquoted field: everything up to the next comma or CR LF. */
  function ReadBare(s: string): (r: (string, string))
    ensures |r.1| <= |s|
  {
    if s == [] || s[0] == ',' || (|s| >= 2 && s[0] == '\r' && s[1] == '\n') then ("", s)
    else
      var p := ReadBare(s[1..]);
      ([s[0]] + p.0, p.1)
  }

  function ReadField(s: string): (r: Option<(string, string)>)
    ensures r.Some? ==> |r.value.1| <= |s|
  {
    if |s| > 0 && s[0] == '"' then ReadQuoted(s[1..]) else Some(ReadBare(s))
  }

  /** One line: a field, a comma, a field, CR LF. Returns the row and the text after it. */
  function ReadRow(s: string): (r: Option<(Row, string)>)
    ensures r.Some? ==> |r.value.1| < |s|
  {
    match ReadField(s)
    case None => None
    case Some(first) =>
      var rest := first.1;
      if |rest| == 0 || rest[0] != ',' then None
      else
        match ReadField(rest[1..])
        case None => None
        case Some(second) =>
          var tail := second.1;
          if |tail| < 2 || tail[..2] != NewLine then None
          else Some((Row(first.0, second.0), tail[2..]))
  }

  function ReadRows(s: string): Option<seq<Row>>
    decreases |s|
  {
    if s == [] then Some([])
    else
      match ReadRow(s)
      case None => None
      case Some(p) =>
        match ReadRows(p.1)
        case None => None
        case Some(rows) => Some([p.0] + rows)
  }

  /** What may follow a field: the comma before the translation, or the line break after it. */
  predicate Delimited(rest: string)
  {
    (|rest| > 0 && rest[0] == ',') || (|rest| >= 2 && rest[..2] == NewLine)
  }

  lemma {:induction false} ReadBareField(field: string, rest: string)
    requires !NeedsQuotes(field) && Delimited(rest)
    ensures ReadBare(field + rest) == (field, rest)
    decreases |field|
  {
    if field == [] {
      assert field + rest == rest;
    } else {
      var s := field + rest;
      assert s[0] == field[0] && s[1..] == field[1..] + rest;
      assert rest[0] == ',' || rest[0] == '\r';
      assert |s| >= 2 ==> s[1] != '\n' by {
        if |field| >= 2 {
          assert s[1] == field[1];
        } else {
          assert s[1] == rest[0];
        }
      }
      assert !NeedsQuotes(field[1..]) by {
        assert forall c :: c in field[1..] ==> c in field;
      }
      ReadBareField(field[1..], rest);
      assert [field[0]] + field[1..] == field;
    }
  }

  lemma {:induction false} ReadQuotedField(field: string, rest: string)
    requires Delimited(rest)
    ensures ReadQuoted(Escape(field) + "\"" + rest) == Some((field, rest))
    decreases |field|
  {
    var s := Escape(field) + "\"" + rest;
    if field == [] {
      assert s == "\"" + rest;
      assert s[1..] == rest;
    } else {
      ReadQuotedField(field[1..], rest);
      var tail := Escape(field[1..]) + "\"" + rest;
      assert [field[0]] + field[1..] == field;
      if field[0] == '"' {
        assert s == "\"\"" + tail;
        assert s[2..] == tail;
      } else {
        assert s == [field[0]] + tail;
        assert s[1..] == tail;
      }
    }
  }

  lemma ReadRenderedField(field: string, rest: string)
    requires Delimited(rest)
    ensures ReadField(RenderField(field) + rest) == Some((field, rest))
  {
    if NeedsQuotes(field) {
      var s := RenderField(field) + rest;
      assert s == "\"" + (Escape(field) + "\"" + rest);
      ReadQuotedField(field, rest);
    } else {
      EscapeDoublesQuotes(field);
      ReadBareField(field, rest);
    }
  }

  lemma ReadRenderedRow(row: Row, rest: string)
    ensures ReadRow(RenderRow(row) + rest) == Some((row, rest))
  {
    var p, t := RenderField(row.phrase), RenderField(row.translation);
    var afterPhrase := "," + t + NewLine + rest;
    var afterTranslation := NewLine + rest;
    assert RenderRow(row) + rest == p + afterPhrase;
    ReadRenderedField(row.phrase, afterPhrase);
    assert afterPhrase[1..] == t + afterTranslation;
    ReadRenderedField(row.translation, afterTranslation);
    assert afterTranslation[..2] == NewLine && afterTranslation[2..] == rest;
  }

  /** The CSV text reads back as exactly the list it was made from. */
  lemma {:induction false} CsvReadsBack(rows: seq<Row>)
    ensures ReadRows(Csv(rows)) == Some(rows)
  {
    if rows != [] {
      var rest := Csv(rows[1..]);
      ReadRenderedRow(rows[0], rest);
      CsvReadsBack(rows[1..]);
      assert [rows[0]] + rows[1..] == rows;
    }
  }

  // ---------------------------------------------------------------------------------------------
  // Finding a row (ScrollToItem, ScrollToResult)

  /** The first index whose phrase and translation both match, if any. */
  function FirstMatch(list: seq<Row>, row: Row): (r: Option<nat>)
    ensures r.Some? ==> r.value < |list| && list[r.value] == row
    ensures r.Some? ==> forall j :: 0 <= j < r.value ==> list[j] != row
    ensures r.None? ==> forall j :: 0 <= j < |list| ==> list[j] != row
  {
    if list == [] then None
    else if list[0] == row then Some(0)
    else
      match FirstMatch(list[1..], row)
      case None => None
      case Some(i) => Some(i + 1)
  }

  /** ScrollToItem: scroll to the first entry matching both texts; false when there is none. */
  method ScrollToItem(list: seq<Row>, phrase: string, translation: string) returns (found: bool, position: int)
    ensures found <==> FirstMatch(list, Row(phrase, translation)).Some?
    ensures found ==> position == FirstMatch(list, Row(phrase, translation)).value
  {
    for i := 0 to |list|
      invariant forall j :: 0 <= j < i ==> list[j] != Row(phrase, translation)
    {
      if list[i].phrase == phrase && list[i].translation == translation {
        return true, i;
      }
    }
    return false, -1;
  }

  /** A search hit: the entry's texts and, possibly, the index where it was last seen. */
  datatype SearchResult = SearchResult(phrase: string, translation: string, positionHint: Option<int>)

  /** ScrollToResult: the index scrolled to. The hint wins when it is in range and still shows the
      entry; otherwise the first matching entry; otherwise the hint as it is; otherwise nothing. */
  method ScrollToResult(list: seq<Row>, result: SearchResult) returns (target: Option<int>)
    ensures var row := Row(result.phrase, result.translation);
      var hint := result.positionHint;
      target == if hint.Some? && 0 <= hint.value < |list| && list[hint.value] == row then hint
                else if FirstMatch(list, row).Some? then Some(FirstMatch(list, row).value as int)
                else hint
  {
    if result.positionHint.Some? {
      var hint := result.positionHint.value;
      if hint >= 0 && hint < |list| && list[hint].phrase == result.phrase && list[hint].translation == result.translation {
        return Some(hint);
      }
    }

    for i := 0 to |list|
      invariant forall j :: 0 <= j < i ==> list[j] != Row(result.phrase, result.translation)
    {
      var item := list[i];
      if item.phrase == result.phrase && item.translation == result.translation {
        return Some(i);
      }
    }

    // Not found: scroll to where the entry was last seen.
    return result.positionHint;
  }

  // ---------------------------------------------------------------------------------------------
  // Pasting (Paste)

  /** The pasted lines with at least two fields, as entries from their first two fields. */
  function PastedRows(lines: seq<seq<string>>): (r: seq<Row>)
    ensures |r| <= |lines|
  {
    if lines == [] then []
    else (if |lines[0]| >= 2 then [Row(lines[0][0], lines[0][1])] else []) + PastedRows(lines[1..])
  }

  /** No entry comes out exactly when no line has two fields, and one entry per line exactly when
      every line has. */
  lemma {:induction false} PastedRowsQualify(lines: seq<seq<string>>)
    ensures PastedRows(lines) == [] <==> forall j :: 0 <= j < |lines| ==> |lines[j]| < 2
    ensures |PastedRows(lines)| == |lines| <==> forall j :: 0 <= j < |lines| ==> |lines[j]| >= 2
  {
    if lines != [] {
      PastedRowsQualify(lines[1..]);
      assert forall j :: 0 < j < |lines| ==> lines[j] == lines[1..][j - 1];
    }
  }

  lemma {:induction false} PastedRowsAppend(a: seq<seq<string>>, b: seq<seq<string>>)
    ensures PastedRows(a + b) == PastedRows(a) + PastedRows(b)
  {
    if a == [] {
      assert a + b == b;
    } else {
      assert (a + b)[0] == a[0] && (a + b)[1..] == a[1..] + b;
      var head := if |a[0]| >= 2 then [Row(a[0][0], a[0][1])] else [];
      PastedRowsAppend(a[1..], b);
      var x, y := PastedRows(a[1..]), PastedRows(b);
      assert PastedRows(a + b) == head + (x + y);
      assert head + (x + y) == (head + x) + y;
    }
  }

  /** Every line that has at least two fields gives its entry, in order. */
  lemma {:induction false} PastedRowsAllQualify(lines: seq<seq<string>>)
    requires forall j :: 0 <= j < |lines| ==> |lines[j]| >= 2
    ensures |PastedRows(lines)| == |lines|
    ensures forall j :: 0 <= j < |lines| ==> PastedRows(lines)[j] == Row(lines[j][0], lines[j][1])
  {
    PastedRowsQualify(lines);
    if lines != [] {
      PastedRowsAllQualify(lines[1..]);
      forall j | 0 < j < |lines|
        ensures PastedRows(lines)[j] == Row(lines[j][0], lines[j][1])
      {
        assert PastedRows(lines)[j] == PastedRows(lines[1..])[j - 1];
      }
    }
  }

  /** Entries to insert into the list and where. */
  datatype Insertion = Insertion(index: int, rows: seq<Row>)

  /** Paste(lines, row): insert the qualifying lines at `row`, or at the end of the list
      (`count` entries) when there is no row; nothing when no line qualifies. */
  function Paste(lines: seq<seq<string>>, row: Option<int>, count: nat): (r: Option<Insertion>)
    ensures r.None? <==> forall j :: 0 <= j < |lines| ==> |lines[j]| < 2
    ensures r.Some? ==> r.value.rows == PastedRows(lines) && |r.value.rows| > 0
    ensures r.Some? ==> r.value.index == if row.Some? then row.value else count
  {
    PastedRowsQualify(lines);
    var entries := PastedRows(lines);
    if |entries| > 0 then Some(Insertion(if row.Some? then row.value else count, entries)) else None
  }

  // ---------------------------------------------------------------------------------------------
  // Sorting by a column header (ColumnHeaderClicked, ListChanged)

  /** A sort of the list by column 0 (phrase) or 1 (translation); direction 1 ascending, -1 descending. */
  datatype SortRequest = SortRequest(column: int, direction: int)

  /** The grid's sort memory: the column last sorted by, if the list is unchanged since, and the
      direction of the last header click. */
  datatype SortMemory = SortMemory(column: Option<int>, ascending: bool)

  /** A header click: the same column again flips the direction, any other resets it to ascending;
      only columns 0 and 1 sort and become the sort column. */
  function Click(m: SortMemory, column: int): (r: (SortMemory, Option<SortRequest>))
    ensures r.0.ascending == (m.column != Some(column) || !m.ascending)
    ensures r.0.column == if column == 0 || column == 1 then Some(column) else m.column
    ensures r.1.Some? <==> column == 0 || column == 1
    ensures r.1.Some? ==> r.1.value.column == column && r.1.value.direction == (if r.0.ascending then 1 else -1)
  {
    var ascending := if m.column == Some(column) then !m.ascending else true;
    var direction := if ascending then 1 else -1;
    if column == 0 || column == 1 then
      (SortMemory(Some(column), ascending), Some(SortRequest(column, direction)))
    else
      (SortMemory(m.column, ascending), None)
  }

  /** Clicking a sortable header twice in a row sorts the two ways round. */
  lemma ClickTwiceReverses(m: SortMemory, column: int)
    requires column == 0 || column == 1
    ensures var first := Click(m, column);
      var second := Click(first.0, column);
      second.1.value.direction == -first.1.value.direction
  {
  }

  /** After the list changed, the first header click sorts ascending. */
  lemma ClickAfterChangeAscends(m: SortMemory, column: int)
    requires column == 0 || column == 1
    ensures Click(SortMemory(None, m.ascending), column).1 == Some(SortRequest(column, 1))
  {
  }

  class SortState {
    var sortColumn: Option<int>
    var sortAscending: bool

    constructor ()
      ensures sortColumn == None && !sortAscending
    {
      sortColumn := None;
      sortAscending := false;
    }

    function Memory(): SortMemory
      reads this
    {
      SortMemory(sortColumn, sortAscending)
    }

    /** ColumnHeaderClicked: update the sort memory and return the sort it starts, if any. */
    method ColumnHeaderClicked(column: int) returns (request: Option<SortRequest>)
      modifies this
      ensures (Memory(), request) == Click(old(Memory()), column)
    {
      var direction := 1;

      if sortColumn == Some(column) {
        sortAscending := !sortAscending;
        direction := if sortAscending then 1 else -1;
      } else {
        sortAscending := true;
      }

      request := None;
      if column == 0 {
        request := Some(SortRequest(0, direction));
        sortColumn := Some(0);
      } else if column == 1 {
        request := Some(SortRequest(1, direction));
        sortColumn := Some(1);
      }
    }

    /** ListChanged: any change to the list forgets the sort column. */
    method ListChanged()
      modifies this
      ensures sortColumn == None && sortAscending == old(sortAscending)
    {
      sortColumn := None;
    }
  }
}
