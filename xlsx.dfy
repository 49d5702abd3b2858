/**
 * Reading the first worksheet of an XLSX workbook into rows of text
 * (mcp_server/util/xlsx_to_csv.py). The zip archive and the XML parser are
 * replaced by what they yield: the `r:id` attributes of the workbook's
 * `<sheet>` elements, the `Id`/`Target` attributes of its relationships, the
 * `<t>` texts of each shared-string item (section 18.4 of ECMA-376 Part 1)
 * and, for each `<row>`, its `<c>` cells with their `r` and `t` attributes
 * and `<v>` text. Cell references are A1-style (section 18.3.1.4).
 */
module XlsxToCsv {
  import opened Wrappers
  import PyStr

  // ---------------------------------------------------------------------
  // Column letters (`_col_to_index`)
  // ---------------------------------------------------------------------

  predicate IsUpper(c: char) {
    'A' <= c <= 'Z'
  }

  predicate AllUpper(s: string) {
    forall i :: 0 <= i < |s| ==> IsUpper(s[i])
  }

  /**
   * The column number the letters spell in bijective base 26 (A = 1,
   * Z = 26, AA = 27), each character weighed by its distance from `A`
   * plus one, as the accumulator of `_col_to_index` weighs it.
   */
  function ColumnNumber(letters: string): int {
    if letters == [] then 0
    else ColumnNumber(letters[..|letters| - 1]) * 26 + (letters[|letters| - 1] as int - 'A' as int + 1)
  }

  /** `_col_to_index(col_letters)`: the zero-based column index, accumulated left to right. */
  method ColToIndex(letters: string) returns (idx: int)
    ensures idx == ColumnNumber(letters) - 1
  {
    var acc := 0;
    for i := 0 to |letters|
      invariant acc == ColumnNumber(letters[..i])
    {
      assert letters[..i + 1][..i] == letters[..i];
      acc := acc * 26 + (letters[i] as int - 'A' as int + 1);
    }
    assert letters[..|letters|] == letters;
    idx := acc - 1;
  }

  /** The first columns: A is index 0, B is 1, Z is 25, AA is 26, AZ is 51, BA is 52. */
  lemma ColumnExamples()
    ensures ColumnNumber("A") - 1 == 0
    ensures ColumnNumber("B") - 1 == 1
    ensures ColumnNumber("Z") - 1 == 25
    ensures ColumnNumber("AA") - 1 == 26
    ensures ColumnNumber("AZ") - 1 == 51
    ensures ColumnNumber("BA") - 1 == 52
  {
    assert "AA"[..1] == "A";
    assert "AZ"[..1] == "A";
    assert "BA"[..1] == "B";
  }

  /** Non-empty upper-case letters spell a column number of at least 1, so the index is never negative. */
  lemma {:induction false} ColumnNumberPositive(letters: string)
    requires letters != [] && AllUpper(letters)
    ensures ColumnNumber(letters) >= 1
    decreases |letters|
  {
    var init := letters[..|letters| - 1];
    if init != [] {
      ColumnNumberPositive(init);
    }
  }

  /** The letters of column number `n` (n >= 1): the inverse of `ColumnNumber`. */
  function ColumnLetters(n: int): (s: string)
    requires n >= 1
    ensures s != [] && AllUpper(s)
    decreases n
  {
    if n <= 26 then [('A' as int + n - 1) as char]
    else ColumnLetters((n - 1) / 26) + [('A' as int + (n - 1) % 26) as char]
  }

  /** Every column number is spelled by its letters. */
  lemma {:induction false} NumberOfLetters(n: int)
    requires n >= 1
    ensures ColumnNumber(ColumnLetters(n)) == n
    decreases n
  {
    var s := ColumnLetters(n);
    if n > 26 {
      NumberOfLetters((n - 1) / 26);
      assert s[..|s| - 1] == ColumnLetters((n - 1) / 26);
    }
  }

  /** Non-empty upper-case letters are the letters of their column number. */
  lemma {:induction false} LettersOfNumber(letters: string)
    requires letters != [] && AllUpper(letters)
    ensures ColumnNumber(letters) >= 1 && ColumnLetters(ColumnNumber(letters)) == letters
    decreases |letters|
  {
    var init := letters[..|letters| - 1];
    var d := letters[|letters| - 1] as int - 'A' as int + 1;
    if init == [] {
      assert letters == [letters[0]];
    } else {
      ColumnNumberPositive(init);
      LettersOfNumber(init);
      var m := ColumnNumber(init);
      var n := m * 26 + d;
      assert (n - 1) / 26 == m && (n - 1) % 26 == d - 1;
      assert letters == init + [letters[|letters| - 1]];
    }
  }

  /** Distinct column letters (non-empty, upper-case) give distinct indices. */
  lemma ColumnIndexInjective(a: string, b: string)
    requires a != [] && AllUpper(a) && b != [] && AllUpper(b)
    requires ColumnNumber(a) == ColumnNumber(b)
    ensures a == b
  {
    LettersOfNumber(a);
    LettersOfNumber(b);
  }

  // ---------------------------------------------------------------------
  // Cell references and values
  // ---------------------------------------------------------------------

  /** The longest prefix of `s` made of upper-case letters. */
  function UpperPrefix(s: string): (p: string)
    ensures |p| <= |s| && p == s[..|p|] && AllUpper(p)
    ensures |p| < |s| ==> !IsUpper(s[|p|])
  {
    if s != [] && IsUpper(s[0]) then [s[0]] + UpperPrefix(s[1..]) else []
  }

  /**
   * The column letters of a cell reference: the `([A-Z]+)` group when the
   * reference starts with `[A-Z]+\d+`, and `A` otherwise.
   */
  function RefLetters(r: string): (letters: string)
    ensures letters != [] && AllUpper(letters)
  {
    var p := UpperPrefix(r);
    if p != [] && |p| < |r| && PyStr.IsDigit(r[|p|]) then p else "A"
  }

  /** A reference that starts with letters and then a digit yields exactly those letters. */
  lemma RefLettersOfReference(letters: string, rest: string)
    requires letters != [] && AllUpper(letters)
    requires rest != [] && PyStr.IsDigit(rest[0])
    ensures RefLetters(letters + rest) == letters
  {
    var r := letters + rest;
    var p := UpperPrefix(r);
    assert forall i :: 0 <= i < |letters| ==> IsUpper(r[i]);
    assert |p| >= |letters|;
    assert r[|letters|] == rest[0] && !IsUpper(r[|letters|]);
    assert |p| <= |letters|;
    assert p == letters;
  }

  /** A reference that does not start with `[A-Z]+\d` falls back to column A. */
  lemma RefLettersFallback(r: string)
    requires forall n :: 1 <= n < |r| && AllUpper(r[..n]) ==> !PyStr.IsDigit(r[n])
    ensures RefLetters(r) == "A"
  {
    var p := UpperPrefix(r);
    if p != [] && |p| < |r| {
      assert r[..|p|] == p;
    }
  }

  /** One `<c>` element: its `r` and `t` attributes and the text of its `<v>` child, each `None` when absent. */
  datatype Cell = Cell(r: Option<string>, t: Option<string>, v: Option<string>)

  /** The zero-based column a cell is placed in; a missing `r` reads as `A1`. */
  function ColumnOf(c: Cell): (k: int)
    ensures k >= 0
  {
    var letters := RefLetters(if c.r.Some? then c.r.value else "A1");
    ColumnNumberPositive(letters);
    ColumnNumber(letters) - 1
  }

  /**
   * The text of a cell: empty without a `<v>` text; for a shared-string cell
   * (`t="s"`) whose text is an integer that indexes the table (negative
   * values counting from the end, as Python indexes), that shared string;
   * otherwise the raw text.
   */
  function CellText(c: Cell, shared: seq<string>): string {
    if c.v.None? then ""
    else if c.t == Some("s") then
      match PyStr.ParseInt(c.v.value)
      case Some(n) =>
        if -|shared| <= n < 0 then shared[n + |shared|]
        else if 0 <= n < |shared| then shared[n]
        else c.v.value
      case None => c.v.value
    else c.v.value
  }

  /** A cell without a `<v>` text is empty, whatever its type. */
  lemma CellWithoutValue(r: Option<string>, t: Option<string>, shared: seq<string>)
    ensures CellText(Cell(r, t, None), shared) == ""
  {
  }

  /** A shared-string cell whose text is `str(i)` for an index `i` in range reads shared string `i`. */
  lemma SharedStringCell(r: Option<string>, shared: seq<string>, i: nat)
    requires i < |shared|
    ensures CellText(Cell(r, Some("s"), Some(PyStr.NatToString(i))), shared) == shared[i]
  {
    PyStr.ParseNatToString(i);
  }

  /** A negative shared-string index `-n` counts from the end, as Python indexing does. */
  lemma SharedStringFromEnd(r: Option<string>, shared: seq<string>, n: nat)
    requires 1 <= n <= |shared|
    ensures CellText(Cell(r, Some("s"), Some("-" + PyStr.NatToString(n))), shared) == shared[|shared| - n]
  {
    PyStr.ParseNegatedNatToString(n);
  }

  /**
   * A shared-string cell whose text is not an integer, or is an index past
   * either end of the table, keeps its raw text.
   */
  lemma SharedStringFallback(r: Option<string>, shared: seq<string>, raw: string)
    requires PyStr.ParseInt(raw).None? || !(-|shared| <= PyStr.ParseInt(raw).value < |shared|)
    ensures CellText(Cell(r, Some("s"), Some(raw)), shared) == raw
  {
  }

  /** For example, the index one past the end keeps its text. */
  lemma SharedStringPastEnd(r: Option<string>, shared: seq<string>)
    ensures CellText(Cell(r, Some("s"), Some(PyStr.NatToString(|shared|))), shared) == PyStr.NatToString(|shared|)
  {
    PyStr.ParseNatToString(|shared|);
  }

  /** A cell without a `r` attribute is placed in the first column. */
  lemma MissingReferenceIsFirstColumn(t: Option<string>, v: Option<string>)
    ensures ColumnOf(Cell(None, t, v)) == 0
  {
    RefLettersOfReference("A", "1");
    assert "A" + "1" == "A1";
  }

  // ---------------------------------------------------------------------
  // Row assembly (the cell loop of `_iter_rows`)
  // ---------------------------------------------------------------------

  /** The text of the last cell of the row placed in column `k`, or "" when none is. */
  function LastValueAt(cells: seq<Cell>, shared: seq<string>, k: int): string {
    if cells == [] then ""
    else if ColumnOf(cells[|cells| - 1]) == k then CellText(cells[|cells| - 1], shared)
    else LastValueAt(cells[..|cells| - 1], shared, k)
  }

  /** One more than the largest column any cell of the row is placed in; 0 for no cells. */
  function Width(cells: seq<Cell>): (w: nat)
  {
    if cells == [] then 0
    else
      var w := Width(cells[..|cells| - 1]);
      var last := ColumnOf(cells[|cells| - 1]) + 1;
      if last > w then last else w
  }

  /** Every cell of the row is placed before the width. */
  lemma {:induction false} ColumnBelowWidth(cells: seq<Cell>, i: int)
    requires 0 <= i < |cells|
    ensures ColumnOf(cells[i]) < Width(cells)
  {
    if i < |cells| - 1 {
      ColumnBelowWidth(cells[..|cells| - 1], i);
    }
  }

  /** No cell sits at or beyond the width, so those columns read as "". */
  lemma {:induction false} LastValueBeyondWidth(cells: seq<Cell>, shared: seq<string>, k: int)
    requires k >= Width(cells)
    ensures LastValueAt(cells, shared, k) == ""
  {
    if cells != [] {
      LastValueBeyondWidth(cells[..|cells| - 1], shared, k);
    }
  }

  /** The row with its trailing empty strings removed. */
  function TrimEmpty(row: seq<string>): (r: seq<string>)
    ensures |r| <= |row| && r == row[..|r|]
    ensures r == [] || r[|r| - 1] != ""
    ensures forall k :: |r| <= k < |row| ==> row[k] == ""
  {
    if row != [] && row[|row| - 1] == "" then TrimEmpty(row[..|row| - 1]) else row
  }

  /** `[""] * n`. */
  function Blanks(n: nat): (r: seq<string>)
    ensures |r| == n && forall k :: 0 <= k < n ==> r[k] == ""
  {
    if n == 0 then [] else [""] + Blanks(n - 1)
  }

  /** Writing `value` at column `idx`, first padding the row with "" when it is too short. */
  function Place(row: seq<string>, idx: nat, value: string): (next: seq<string>)
    ensures |next| == if idx < |row| then |row| else idx + 1
    ensures next[idx] == value
    ensures forall k :: 0 <= k < |next| && k != idx ==> next[k] == if k < |row| then row[k] else ""
  {
    (if idx >= |row| then row + Blanks(idx - |row| + 1) else row)[idx := value]
  }

  /** The row as the cell loop leaves it, before the trailing "" entries are popped. */
  function Placed(cells: seq<Cell>, shared: seq<string>): seq<string> {
    if cells == [] then []
    else
      var last := cells[|cells| - 1];
      Place(Placed(cells[..|cells| - 1], shared), ColumnOf(last), CellText(last, shared))
  }

  /**
   * The row the cell loop builds holds, in each column up to the width,
   * the text of the last cell placed there, and "" in columns no cell names.
   */
  lemma {:induction false} PlacedMeaning(cells: seq<Cell>, shared: seq<string>)
    ensures |Placed(cells, shared)| == Width(cells)
    ensures forall k :: 0 <= k < Width(cells) ==> Placed(cells, shared)[k] == LastValueAt(cells, shared, k)
  {
    if cells != [] {
      var done := cells[..|cells| - 1];
      PlacedMeaning(done, shared);
      forall k | 0 <= k < Width(cells)
        ensures Placed(cells, shared)[k] == LastValueAt(cells, shared, k)
      {
        if k >= Width(done) {
          LastValueBeyondWidth(done, shared, k);
        }
      }
    }
  }

  /**
   * The row `_iter_rows` yields for the given cells: the placed row with
   * its trailing "" entries dropped.
   */
  function RowValues(cells: seq<Cell>, shared: seq<string>): seq<string> {
    TrimEmpty(Placed(cells, shared))
  }

  /**
   * The yielded row, described entry by entry: it never ends in "", each
   * of its entries is the last value placed in that column, and every
   * column past its end received no value other than "".
   */
  lemma RowValuesMeaning(cells: seq<Cell>, shared: seq<string>)
    ensures
      var row := RowValues(cells, shared);
      && (row == [] || row[|row| - 1] != "")
      && (forall k :: 0 <= k < |row| ==> row[k] == LastValueAt(cells, shared, k))
      && (forall k :: k >= |row| ==> LastValueAt(cells, shared, k) == "")
  {
    PlacedMeaning(cells, shared);
    var placed := Placed(cells, shared);
    var row := RowValues(cells, shared);
    forall k | k >= |row|
      ensures LastValueAt(cells, shared, k) == ""
    {
      if k >= Width(cells) {
        LastValueBeyondWidth(cells, shared, k);
      } else {
        assert placed[k] == "";
      }
    }
  }

  /**
   * The body of `_iter_rows` for one `<row>`: pads the list with "" up to
   * each cell's column, writes the cell's text there, then pops the
   * trailing "" entries.
   */
  method AssembleRow(cells: seq<Cell>, shared: seq<string>) returns (row: seq<string>)
    ensures row == RowValues(cells, shared)
  {
    row := [];
    for i := 0 to |cells|
      invariant row == Placed(cells[..i], shared)
    {
      var c := cells[i];
      assert cells[..i + 1][..i] == cells[..i];
      var letters := RefLetters(if c.r.Some? then c.r.value else "A1");
      var idx := ColToIndex(letters);
      assert idx == ColumnOf(c);
      if idx >= |row| {
        row := row + Blanks(idx - |row| + 1);
      }
      row := row[idx := CellText(c, shared)];
    }
    assert cells[..|cells|] == cells;
    row := PopBlanks(row);
  }

  /** The closing loop of a row: pops "" entries off the end while there are any. */
  method PopBlanks(row: seq<string>) returns (r: seq<string>)
    ensures r == TrimEmpty(row)
  {
    r := row;
    while r != [] && r[|r| - 1] == ""
      invariant TrimEmpty(r) == TrimEmpty(row)
      decreases |r|
    {
      r := r[..|r| - 1];
    }
  }

  /** `f` applied to each element of `s`, in order. */
  function Each<A, B>(s: seq<A>, f: A -> B): seq<B> {
    if s == [] then [] else Each(s[..|s| - 1], f) + [f(s[|s| - 1])]
  }

  lemma {:induction false} EachMeaning<A, B>(s: seq<A>, f: A -> B)
    ensures |Each(s, f)| == |s|
    ensures forall i :: 0 <= i < |s| ==> Each(s, f)[i] == f(s[i])
  {
    if s != [] {
      EachMeaning(s[..|s| - 1], f);
    }
  }

  /** The rows of a sheet, each assembled on its own, in order. */
  function SheetRows(rows: seq<seq<Cell>>, shared: seq<string>): seq<seq<string>> {
    Each(rows, cells => RowValues(cells, shared))
  }

  /** One output row per `<row>` element, the i-th assembled from the i-th element's cells. */
  lemma SheetRowsMeaning(rows: seq<seq<Cell>>, shared: seq<string>)
    ensures |SheetRows(rows, shared)| == |rows|
    ensures forall i :: 0 <= i < |rows| ==> SheetRows(rows, shared)[i] == RowValues(rows[i], shared)
  {
    EachMeaning(rows, cells => RowValues(cells, shared));
  }

  /** `_iter_rows`: assembles the rows one after another. */
  method IterRows(rows: seq<seq<Cell>>, shared: seq<string>) returns (out: seq<seq<string>>)
    ensures out == SheetRows(rows, shared)
  {
    out := [];
    for i := 0 to |rows|
      invariant out == SheetRows(rows[..i], shared)
    {
      assert rows[..i + 1][..i] == rows[..i];
      var row := AssembleRow(rows[i], shared);
      out := out + [row];
    }
    assert rows[..|rows|] == rows;
  }

  // ---------------------------------------------------------------------
  // Shared strings (`_parse_shared_strings`)
  // ---------------------------------------------------------------------

  /** `t.text or ""`. */
  function TextOf(t: Option<string>): string {
    if t.Some? then t.value else ""
  }

  /** `"".join(parts)`. */
  function Concat(parts: seq<string>): string {
    if parts == [] then "" else Concat(parts[..|parts| - 1]) + parts[|parts| - 1]
  }

  /** Joining two lists of parts is joining each and concatenating. */
  lemma {:induction false} ConcatAppend(a: seq<string>, b: seq<string>)
    ensures Concat(a + b) == Concat(a) + Concat(b)
    decreases |b|
  {
    if b == [] {
      assert a + b == a;
    } else {
      var init := b[..|b| - 1];
      var last := b[|b| - 1];
      ConcatAppend(a, init);
      assert a + b == (a + init) + [last];
      assert Concat((a + init) + [last]) == Concat(a + init) + last;
      assert Concat(b) == Concat(init) + last;
    }
  }

  /** The string of one `<si>` item: its `<t>` texts joined, a missing text counting as "". */
  function ItemText(texts: seq<Option<string>>): string {
    Concat(seq(|texts|, k requires 0 <= k < |texts| => TextOf(texts[k])))
  }

  /** An item's string is its texts in order: appending segments appends their texts. */
  lemma ItemTextAppend(a: seq<Option<string>>, b: seq<Option<string>>)
    ensures ItemText(a + b) == ItemText(a) + ItemText(b)
  {
    var ta := seq(|a|, k requires 0 <= k < |a| => TextOf(a[k]));
    var tb := seq(|b|, k requires 0 <= k < |b| => TextOf(b[k]));
    assert seq(|a + b|, k requires 0 <= k < |a + b| => TextOf((a + b)[k])) == ta + tb;
    ConcatAppend(ta, tb);
  }

  /** An item of one text is that text; an item whose only `<t>` has no text is "". */
  lemma ItemTextSingle(t: string)
    ensures ItemText([Some(t)]) == t
    ensures ItemText([None]) == ""
  {
    assert seq(1, k requires 0 <= k < 1 => TextOf([Some(t)][k])) == [t];
    assert seq(1, k requires 0 <= k < 1 => TextOf([None][k])) == [""];
    assert Concat([t]) == Concat([]) + t;
  }

  /**
   * `_parse_shared_strings`: one string per `<si>` item, in order; no
   * shared-strings part gives no strings.
   */
  method ParseSharedStrings(part: Option<seq<seq<Option<string>>>>) returns (strings: seq<string>)
    ensures part.None? ==> strings == []
    ensures part.Some? ==>
      |strings| == |part.value| && forall i :: 0 <= i < |strings| ==> strings[i] == ItemText(part.value[i])
  {
    if part.None? {
      return [];
    }
    var items := part.value;
    strings := [];
    for i := 0 to |items|
      invariant |strings| == i
      invariant forall j :: 0 <= j < i ==> strings[j] == ItemText(items[j])
    {
      var item := items[i];
      var texts: seq<string> := [];
      for j := 0 to |item|
        invariant texts == seq(j, k requires 0 <= k < j => TextOf(item[k]))
      {
        texts := texts + [TextOf(item[j])];
      }
      strings := strings + [Concat(texts)];
    }
  }

  // ---------------------------------------------------------------------
  // The first worksheet (`_find_first_sheet_path`)
  // ---------------------------------------------------------------------

  /** A `<Relationship>` element's `Id` and `Target` attributes. */
  datatype Relationship = Relationship(id: Option<string>, target: Option<string>)

  /** A relationship target as a path inside the archive: `xl/` is put in front unless already there. */
  function InArchive(target: string): (path: string)
    ensures PyStr.StartsWith(path, "xl/")
    ensures PyStr.StartsWith(target, "xl/") ==> path == target
    ensures !PyStr.StartsWith(target, "xl/") ==> path == "xl/" + target
  {
    if PyStr.StartsWith(target, "xl/") then target else "xl/" + target
  }

  /** Normalising a normalised path changes nothing. */
  lemma InArchiveIdempotent(target: string)
    ensures InArchive(InArchive(target)) == InArchive(target)
  {
  }

  /** Whether a relationship names `rId` and has a non-empty target. */
  predicate Usable(rel: Relationship, rId: string) {
    rel.id == Some(rId) && rel.target.Some? && rel.target.value != ""
  }

  /** The target of the first usable relationship named `rId`, normalised; `None` when there is none. */
  function FirstTarget(rels: seq<Relationship>, rId: string): (p: Option<string>)
    ensures p.Some? <==> exists i :: 0 <= i < |rels| && Usable(rels[i], rId)
    ensures p.Some? ==> PyStr.StartsWith(p.value, "xl/")
  {
    if rels == [] then None
    else if Usable(rels[0], rId) then Some(InArchive(rels[0].target.value))
    else
      var rest := FirstTarget(rels[1..], rId);
      assert forall i :: 1 <= i < |rels| ==> rels[i] == rels[1..][i - 1];
      rest
  }

  /** The target found is that of a usable relationship before which no relationship is usable. */
  lemma {:induction false} FirstTargetIsFirst(rels: seq<Relationship>, rId: string)
    requires FirstTarget(rels, rId).Some?
    ensures exists i ::
      && 0 <= i < |rels| && Usable(rels[i], rId)
      && (forall j :: 0 <= j < i ==> !Usable(rels[j], rId))
      && FirstTarget(rels, rId) == Some(InArchive(rels[i].target.value))
  {
    if !Usable(rels[0], rId) {
      FirstTargetIsFirst(rels[1..], rId);
      var i :| 0 <= i < |rels[1..]| && Usable(rels[1..][i], rId)
        && (forall j :: 0 <= j < i ==> !Usable(rels[1..][j], rId))
        && FirstTarget(rels[1..], rId) == Some(InArchive(rels[1..][i].target.value));
      assert Usable(rels[i + 1], rId);
    } else {
      assert Usable(rels[0], rId);
    }
  }

  /**
   * `_find_first_sheet_path`: the `r:id` of the first `<sheet>`, resolved
   * through the workbook relationships. `sheetIds` is `None` when the
   * archive has no `xl/workbook.xml` and `rels` when it has no
   * `xl/_rels/workbook.xml.rels`; both are reported as `None`, as are a
   * workbook without sheets, a missing or empty `r:id`, and an `r:id` with
   * no usable relationship.
   */
  function FindFirstSheetPath(sheetIds: Option<seq<Option<string>>>, rels: Option<seq<Relationship>>): (p: Option<string>)
    ensures p.Some? ==> PyStr.StartsWith(p.value, "xl/")
  {
    if sheetIds.None? || sheetIds.value == [] then None
    else
      var rId := sheetIds.value[0];
      if rId.None? || rId.value == "" then None
      else if rels.None? then None
      else FirstTarget(rels.value, rId.value)
  }

  /** The worksheet `xlsx_first_sheet_to_csv` opens: the first sheet's path, or `xl/worksheets/sheet1.xml`. */
  function SheetPath(sheetIds: Option<seq<Option<string>>>, rels: Option<seq<Relationship>>): (path: string)
    ensures PyStr.StartsWith(path, "xl/")
    ensures FindFirstSheetPath(sheetIds, rels).None? ==> path == "xl/worksheets/sheet1.xml"
  {
    match FindFirstSheetPath(sheetIds, rels)
    case Some(p) => p
    case None => "xl/worksheets/sheet1.xml"
  }

  /**
   * A workbook whose first sheet is linked to a relative target resolves
   * to that target under `xl/`.
   */
  lemma FirstSheetResolved(rId: string, target: string, others: seq<Option<string>>)
    requires rId != "" && target != "" && !PyStr.StartsWith(target, "xl/")
    ensures FindFirstSheetPath(Some([Some(rId)] + others), Some([Relationship(Some(rId), Some(target))]))
      == Some("xl/" + target)
  {
  }
}
