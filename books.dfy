/**
 * The books repository (mcp_server/books.py): an in-memory table of rows,
 * loaded once from the parsed CSV file, with look-up by id and a filter
 * over genre, year, author and title followed by an offset and a limit.
 *
 * A row is a Python dictionary, kept here as its entries in insertion
 * order. The CSV file itself is replaced by its parsed records: `source` is
 * `None` when the file does not exist, and otherwise holds, for each record,
 * the (column name, cell) pairs `csv.DictReader` produces.
 */
module Books {
  import opened Wrappers
  import PyStr

  /** One `key: value` entry of a row dictionary. */
  datatype Field = Field(key: string, value: string)

  /** A row dictionary: its entries in insertion order. */
  type Row = seq<Field>

  /** What the repository raises: `FileNotFoundError`, or `IndexError` from `self.headers[0]`. */
  datatype RepoError = FileNotFound | IndexError

  /** The search criteria of `filter`; `None` means the argument was not given. */
  datatype Criteria = Criteria(
    genre: Option<string>,
    year: Option<string>,
    author: Option<string>,
    titleContains: Option<string>,
    limit: Option<int>,
    offset: Option<int>)

  /** `row.keys()`, in order. */
  function Keys(row: Row): (ks: seq<string>)
    ensures |ks| == |row| && forall i :: 0 <= i < |row| ==> ks[i] == row[i].key
  {
    seq(|row|, i requires 0 <= i < |row| => row[i].key)
  }

  /** `row.get(key, default)`. */
  function Get(row: Row, key: string, default: string): string {
    if row == [] then default
    else if row[0].key == key then row[0].value
    else Get(row[1..], key, default)
  }

  /** `row[key] = value`: a present key keeps its place and takes the new value; a new key goes last. */
  function Put(row: Row, key: string, value: string): Row {
    if row == [] then [Field(key, value)]
    else if row[0].key == key then [Field(key, value)] + row[1..]
    else [row[0]] + Put(row[1..], key, value)
  }

  /** After `row[key] = value`, `row.get(key)` is `value`, and every other key reads as before. */
  lemma {:induction false} GetPut(row: Row, key: string, value: string, default: string)
    ensures Get(Put(row, key, value), key, default) == value
    ensures forall k :: k != key ==> Get(Put(row, key, value), k, default) == Get(row, k, default)
  {
    if row != [] && row[0].key != key {
      GetPut(row[1..], key, value, default);
    }
  }

  /** Assigning a key the row already has keeps the keys and their order. */
  lemma {:induction false} KeysPutPresent(row: Row, key: string, value: string)
    requires key in Keys(row)
    ensures Keys(Put(row, key, value)) == Keys(row)
  {
    if row[0].key != key {
      assert key in Keys(row[1..]) by {
        assert forall i :: 0 <= i < |row| - 1 ==> Keys(row[1..])[i] == Keys(row)[i + 1];
      }
      KeysPutPresent(row[1..], key, value);
    }
  }

  /** Assigning a key the row does not have appends it to the keys. */
  lemma {:induction false} KeysPutNew(row: Row, key: string, value: string)
    requires key !in Keys(row)
    ensures Keys(Put(row, key, value)) == Keys(row) + [key]
  {
    if row != [] {
      assert key !in Keys(row[1..]) by {
        assert forall i :: 0 <= i < |row| - 1 ==> Keys(row[1..])[i] == Keys(row)[i + 1];
      }
      KeysPutNew(row[1..], key, value);
    }
  }

  /** `{k.strip(): v.strip() for k, v in row.items()}`. */
  function CleanRow(raw: seq<Field>): Row
    decreases |raw|
  {
    if raw == [] then []
    else
      var last := raw[|raw| - 1];
      Put(CleanRow(raw[..|raw| - 1]), PyStr.Strip(last.key), PyStr.Strip(last.value))
  }

  /** The column names of a table: the keys of its first row, none when it is empty. */
  function HeadersOf(rows: seq<Row>): seq<string> {
    if rows == [] then [] else Keys(rows[0])
  }

  /** The names that mark an id column. */
  const IdNames: set<string> := {"id", "book_id"}

  /** `any(str(h).strip().lower() in ("id", "book_id") for h in headers)`. */
  predicate HasIdHeader(headers: seq<string>) {
    headers != [] && (PyStr.Lower(PyStr.Strip(headers[0])) in IdNames || HasIdHeader(headers[1..]))
  }

  /** The stripped rows, in file order. */
  function CleanRows(raw: seq<seq<Field>>): (rows: seq<Row>)
    ensures |rows| == |raw| && forall i :: 0 <= i < |raw| ==> rows[i] == CleanRow(raw[i])
  {
    if raw == [] then [] else CleanRows(raw[..|raw| - 1]) + [CleanRow(raw[|raw| - 1])]
  }

  /** `r["id"] = str(i)` for each row `r`, counting `i` from 1. */
  function WithIds(rows: seq<Row>): (r: seq<Row>)
    ensures |r| == |rows|
    ensures forall i :: 0 <= i < |rows| ==> r[i] == Put(rows[i], "id", PyStr.NatToString(i + 1))
  {
    seq(|rows|, i requires 0 <= i < |rows| => Put(rows[i], "id", PyStr.NatToString(i + 1)))
  }

  /**
   * Row `i` of `WithIds` reads `str(i + 1)` under `id`, reads every other
   * key as the original row does, and, when it had no `id`, has the
   * original keys followed by `id`.
   */
  lemma WithIdsReads(rows: seq<Row>, i: nat, k: string, default: string)
    requires i < |rows|
    ensures Get(WithIds(rows)[i], "id", default) == PyStr.NatToString(i + 1)
    ensures k != "id" ==> Get(WithIds(rows)[i], k, default) == Get(rows[i], k, default)
    ensures "id" !in Keys(rows[i]) ==> Keys(WithIds(rows)[i]) == Keys(rows[i]) + ["id"]
  {
    GetPut(rows[i], "id", PyStr.NatToString(i + 1), default);
    if "id" !in Keys(rows[i]) {
      KeysPutNew(rows[i], "id", PyStr.NatToString(i + 1));
    }
  }

  /** The rows `ensure_loaded` stores: stripped, with 1-based ids added when no id column exists. */
  function Load(raw: seq<seq<Field>>): (rows: seq<Row>)
    ensures |rows| == |raw|
  {
    var cleaned := CleanRows(raw);
    if HasIdHeader(HeadersOf(cleaned)) then cleaned else WithIds(cleaned)
  }

  /** The position of the first header whose lower-case form is in `names`; `|headers|` when there is none. */
  function FirstLowerIn(headers: seq<string>, names: set<string>): (k: nat)
    ensures k <= |headers|
  {
    if headers == [] then 0
    else if PyStr.Lower(headers[0]) in names then 0
    else 1 + FirstLowerIn(headers[1..], names)
  }

  /** No header before `FirstLowerIn` is among the names, and the one at it is. */
  lemma {:induction false} FirstLowerInMeaning(headers: seq<string>, names: set<string>)
    ensures var k := FirstLowerIn(headers, names);
      && (forall j :: 0 <= j < k ==> PyStr.Lower(headers[j]) !in names)
      && (k < |headers| ==> PyStr.Lower(headers[k]) in names)
  {
    if headers != [] && PyStr.Lower(headers[0]) !in names {
      FirstLowerInMeaning(headers[1..], names);
    }
  }

  /** The alternative header names `_find_col` accepts for each column it is asked for. */
  const Aliases: map<string, set<string>> := map[
    "title" := {"book_title", "name"},
    "author" := {"authors", "writer"},
    "year" := {"publication_year", "year_published", "publish date (year)"},
    "genre" := {"category", "genres"}]

  /**
   * `_find_col(headers, target)`: the first header equal to `target` up to
   * case; failing that, the first header that is one of `target`'s aliases;
   * failing that, `target` itself.
   */
  function ColumnFor(headers: seq<string>, target: string): string {
    var exact := FirstLowerIn(headers, {PyStr.Lower(target)});
    if exact < |headers| then headers[exact]
    else if target in Aliases && FirstLowerIn(headers, Aliases[target]) < |headers| then
      headers[FirstLowerIn(headers, Aliases[target])]
    else target
  }

  /** `_find_col`, with its two search loops. */
  method FindCol(headers: seq<string>, target: string) returns (col: string)
    ensures col == ColumnFor(headers, target)
  {
    var targetLower := PyStr.Lower(target);
    FirstLowerInMeaning(headers, {targetLower});
    if target in Aliases {
      FirstLowerInMeaning(headers, Aliases[target]);
    }
    for i := 0 to |headers|
      invariant forall j :: 0 <= j < i ==> PyStr.Lower(headers[j]) != targetLower
    {
      if PyStr.Lower(headers[i]) == targetLower {
        return headers[i];
      }
    }
    if target in Aliases {
      for i := 0 to |headers|
        invariant forall j :: 0 <= j < i ==> PyStr.Lower(headers[j]) !in Aliases[target]
      {
        if PyStr.Lower(headers[i]) in Aliases[target] {
          return headers[i];
        }
      }
    }
    return target;
  }

  /** `_eq_ci(a, b)`: equal after stripping and lower-casing. */
  predicate EqCi(a: string, b: string) {
    PyStr.Lower(PyStr.Strip(a)) == PyStr.Lower(PyStr.Strip(b))
  }

  /** `_eq_ci` is an equivalence: reflexive, symmetric and transitive. */
  lemma EqCiEquivalence(a: string, b: string, c: string)
    ensures EqCi(a, a)
    ensures EqCi(a, b) ==> EqCi(b, a)
    ensures EqCi(a, b) && EqCi(b, c) ==> EqCi(a, c)
  {
  }

  /**
   * The `matches` closure of `filter`: every criterion that is given holds.
   * Genre and title are case-insensitive substring tests, year is equality
   * after stripping, author is `_eq_ci`. A column the row lacks reads as "".
   */
  predicate Matches(headers: seq<string>, row: Row, c: Criteria) {
    && (c.genre.Some? ==>
          PyStr.Contains(PyStr.Lower(Get(row, ColumnFor(headers, "genre"), "")), PyStr.Lower(c.genre.value)))
    && (c.year.Some? ==>
          PyStr.Strip(Get(row, ColumnFor(headers, "year"), "")) == PyStr.Strip(c.year.value))
    && (c.author.Some? ==>
          EqCi(Get(row, ColumnFor(headers, "author"), ""), c.author.value))
    && (c.titleContains.Some? ==>
          PyStr.Contains(PyStr.Lower(Get(row, ColumnFor(headers, "title"), "")), PyStr.Lower(c.titleContains.value)))
  }

  /** `[x for x in s if keep(x)]`: the elements that pass, in order. */
  function Where<T>(s: seq<T>, keep: T -> bool): seq<T> {
    if s == [] then []
    else (if keep(s[0]) then [s[0]] else []) + Where(s[1..], keep)
  }

  /** `[row for row in rows if matches(row)]`. */
  function Selected(rows: seq<Row>, headers: seq<string>, c: Criteria): seq<Row> {
    Where(rows, row => Matches(headers, row, c))
  }

  /** Where a Python slice bound `i` lands in a sequence of length `n`: negative values count from the end. */
  function ClampIndex(n: nat, i: int): (k: nat)
    ensures k <= n
  {
    if i < 0 then (if n + i < 0 then 0 else n + i)
    else if i > n then n
    else i
  }

  /** `s[start:]`. */
  function SliceFrom<T>(s: seq<T>, start: int): seq<T> {
    s[ClampIndex(|s|, start)..]
  }

  /** `s[:stop]`. */
  function SliceTo<T>(s: seq<T>, stop: int): seq<T> {
    s[..ClampIndex(|s|, stop)]
  }

  /** `filter(...)` on the loaded rows: the matching rows, then `[offset:]`, then `[:limit]`. */
  function Query(rows: seq<Row>, c: Criteria): seq<Row> {
    var matching := Selected(rows, HeadersOf(rows), c);
    var skipped := if c.offset.Some? then SliceFrom(matching, c.offset.value) else matching;
    if c.limit.Some? then SliceTo(skipped, c.limit.value) else skipped
  }

  /** An element is kept exactly when it is in the sequence and passes. */
  lemma {:induction false} WhereMembers<T>(s: seq<T>, keep: T -> bool, x: T)
    ensures x in Where(s, keep) <==> x in s && keep(x)
  {
    if s != [] {
      WhereMembers(s[1..], keep, x);
      assert x in s <==> x == s[0] || x in s[1..];
    }
  }

  /** Keeping distributes over concatenation, so the kept elements stay in order. */
  lemma {:induction false} WhereAppend<T>(a: seq<T>, b: seq<T>, keep: T -> bool)
    ensures Where(a + b, keep) == Where(a, keep) + Where(b, keep)
  {
    if a == [] {
      assert a + b == b;
    } else {
      var head := if keep(a[0]) then [a[0]] else [];
      WhereAppend(a[1..], b, keep);
      assert (a + b)[0] == a[0];
      assert (a + b)[1..] == a[1..] + b;
      calc {
        Where(a + b, keep);
        head + Where(a[1..] + b, keep);
        head + (Where(a[1..], keep) + Where(b, keep));
        (head + Where(a[1..], keep)) + Where(b, keep);
        Where(a, keep) + Where(b, keep);
      }
    }
  }

  /** When every element passes, all are kept. */
  lemma {:induction false} WhereAll<T>(s: seq<T>, keep: T -> bool)
    requires forall i :: 0 <= i < |s| ==> keep(s[i])
    ensures Where(s, keep) == s
  {
    if s != [] {
      WhereAll(s[1..], keep);
    }
  }

  /** A row is selected exactly when it is in the table and matches. */
  lemma SelectedMembers(rows: seq<Row>, headers: seq<string>, c: Criteria, x: Row)
    ensures x in Selected(rows, headers, c) <==> x in rows && Matches(headers, x, c)
  {
    WhereMembers(rows, row => Matches(headers, row, c), x);
  }

  /** Selection keeps table order: it distributes over concatenation. */
  lemma SelectedAppend(a: seq<Row>, b: seq<Row>, headers: seq<string>, c: Criteria)
    ensures Selected(a + b, headers, c) == Selected(a, headers, c) + Selected(b, headers, c)
  {
    WhereAppend(a, b, row => Matches(headers, row, c));
  }

  /** Without criteria every row is selected. */
  lemma SelectedAll(rows: seq<Row>, headers: seq<string>, c: Criteria)
    requires c.genre.None? && c.year.None? && c.author.None? && c.titleContains.None?
    ensures Selected(rows, headers, c) == rows
  {
    WhereAll(rows, row => Matches(headers, row, c));
  }

  /** Every row `filter` returns is a row of the table that satisfies every given criterion. */
  lemma QuerySound(rows: seq<Row>, c: Criteria, x: Row)
    requires x in Query(rows, c)
    ensures x in rows && Matches(HeadersOf(rows), x, c)
  {
    var matching := Selected(rows, HeadersOf(rows), c);
    var skipped := if c.offset.Some? then SliceFrom(matching, c.offset.value) else matching;
    assert x in skipped;
    assert x in matching;
    SelectedMembers(rows, HeadersOf(rows), c, x);
  }

  /**
   * `filter` returns a contiguous run of the matching rows, in table order,
   * starting at the offset; with a non-negative limit it has at most that
   * many rows, and with neither offset nor limit it is all matching rows.
   */
  lemma QueryWindow(rows: seq<Row>, c: Criteria)
    ensures
      var matching := Selected(rows, HeadersOf(rows), c);
      var lo := if c.offset.Some? then ClampIndex(|matching|, c.offset.value) else 0;
      var r := Query(rows, c);
      && lo + |r| <= |matching|
      && r == matching[lo..lo + |r|]
      && (c.limit.Some? && c.limit.value >= 0 ==>
            |r| == if c.limit.value <= |matching| - lo then c.limit.value else |matching| - lo)
      && (c.limit.Some? && c.limit.value < 0 ==>
            |r| == if |matching| - lo + c.limit.value >= 0 then |matching| - lo + c.limit.value else 0)
      && (c.limit.None? ==> lo + |r| == |matching|)
  {
  }

  /** `filter()` with no arguments returns the whole table. */
  lemma QueryNoArguments(rows: seq<Row>)
    ensures Query(rows, Criteria(None, None, None, None, None, None)) == rows
  {
    SelectedAll(rows, HeadersOf(rows), Criteria(None, None, None, None, None, None));
  }

  /**
   * The column `get_by_id` searches: the first header named `id` or
   * `book_id` (ignoring case), else the first header; `IndexError` when the
   * table has no columns.
   */
  function KeyColumn(headers: seq<string>): Result<string, RepoError> {
    var k := FirstLowerIn(headers, IdNames);
    if k < |headers| then Ok(headers[k])
    else if headers == [] then Err(IndexError)
    else Ok(headers[0])
  }

  /**
   * `str(row.get(key, "")).strip()` for every row: the key cells as
   * `get_by_id` compares them with the wanted id.
   */
  function IdCells(rows: seq<Row>, key: string): (cells: seq<string>)
    ensures |cells| == |rows|
  {
    seq(|rows|, j requires 0 <= j < |rows| => PyStr.Strip(Get(rows[j], key, "")))
  }

  /** The position of the first cell equal to `want`; `|cells|` when there is none. */
  function FirstIndex(cells: seq<string>, want: string): (k: nat)
    ensures k <= |cells|
  {
    if cells == [] then 0
    else if cells[0] == want then 0
    else 1 + FirstIndex(cells[1..], want)
  }

  /** No cell before the position found is `want`, and the cell at it is. */
  lemma {:induction false} FirstIndexMeaning(cells: seq<string>, want: string)
    ensures forall j :: 0 <= j < FirstIndex(cells, want) ==> cells[j] != want
    ensures FirstIndex(cells, want) < |cells| ==> cells[FirstIndex(cells, want)] == want
  {
    if cells != [] && cells[0] != want {
      FirstIndexMeaning(cells[1..], want);
      assert forall j :: 0 < j < |cells| ==> cells[1..][j - 1] == cells[j];
    }
  }

  /** The first cell equal to `want` is the one before which no cell is. */
  lemma {:induction false} FirstIndexAt(cells: seq<string>, want: string, i: nat)
    requires i < |cells| && cells[i] == want
    requires forall j :: 0 <= j < i ==> cells[j] != want
    ensures FirstIndex(cells, want) == i
  {
    if i > 0 {
      assert cells[0] != want;
      assert forall j :: 0 <= j < i - 1 ==> cells[1..][j] == cells[j + 1];
      FirstIndexAt(cells[1..], want, i - 1);
    }
  }

  /** `get_by_id(book_id)` on the loaded rows: the first row with that id, or `None`. */
  function FindById(rows: seq<Row>, bookId: string): Result<Option<Row>, RepoError> {
    match KeyColumn(HeadersOf(rows))
    case Err(e) => Err(e)
    case Ok(key) =>
      Ok(RowAt(rows, FirstIndex(IdCells(rows, key), PyStr.Strip(bookId))))
  }

  /** The row a first-match search over `cells` picks, or `None`. */
  function RowAt<T>(rows: seq<T>, k: nat): Option<T> {
    if k < |rows| then Some(rows[k]) else None
  }

  /**
   * Picking the row at the first matching cell gives `None` exactly when no
   * cell matches, and otherwise the row of the first cell that does.
   */
  lemma FirstMatchRow<T>(cells: seq<string>, want: string, rows: seq<T>)
    requires |cells| == |rows|
    ensures
      var r := RowAt(rows, FirstIndex(cells, want));
      && (r.None? <==> forall j :: 0 <= j < |rows| ==> cells[j] != want)
      && (forall i :: 0 <= i < |rows| && cells[i] == want && (forall j :: 0 <= j < i ==> cells[j] != want) ==>
            r == Some(rows[i]))
  {
    FirstIndexMeaning(cells, want);
    forall i | 0 <= i < |rows| && cells[i] == want && (forall j :: 0 <= j < i ==> cells[j] != want)
      ensures FirstIndex(cells, want) == i
    {
      FirstIndexAt(cells, want, i);
    }
  }

  /**
   * `get_by_id` answers `None` exactly when no row's stripped key cell is
   * the stripped id, and otherwise the first row whose cell is.
   */
  lemma FindByIdMeaning(rows: seq<Row>, bookId: string, key: string)
    requires KeyColumn(HeadersOf(rows)) == Ok(key)
    ensures
      var r := FindById(rows, bookId);
      var cells := IdCells(rows, key);
      var want := PyStr.Strip(bookId);
      && r.Ok?
      && (r.value.None? <==> forall j :: 0 <= j < |rows| ==> cells[j] != want)
      && (forall i :: 0 <= i < |rows| && cells[i] == want && (forall j :: 0 <= j < i ==> cells[j] != want) ==>
            r.value == Some(rows[i]))
  {
    FirstMatchRow(IdCells(rows, key), PyStr.Strip(bookId), rows);
  }

  /** `get_by_id` returns the row the first-match search on the key column stops at. */
  lemma FindByIdFound(rows: seq<Row>, bookId: string, key: string, i: nat)
    requires KeyColumn(HeadersOf(rows)) == Ok(key)
    requires i < |rows| && FirstIndex(IdCells(rows, key), PyStr.Strip(bookId)) == i
    ensures FindById(rows, bookId) == Ok(Some(rows[i]))
  {
  }

  /** Looking up an empty table fails at `self.headers[0]`. */
  lemma FindByIdEmpty(bookId: string)
    ensures FindById([], bookId) == Err(IndexError)
  {
  }

  /** A lower-cased id name has no surrounding whitespace, so stripping does not change it. */
  lemma IdNameUnstripped(h: string)
    requires PyStr.Lower(h) in IdNames
    ensures PyStr.Strip(h) == h
  {
    var l := PyStr.Lower(h);
    assert l == "id" || l == "book_id";
    assert |h| == |l| && |l| >= 2;
    assert PyStr.LowerChar(h[0]) == 'i' || PyStr.LowerChar(h[0]) == 'b';
    assert PyStr.LowerChar(h[|h| - 1]) == 'd';
    assert !PyStr.IsSpace(h[0]) && !PyStr.IsSpace(h[|h| - 1]);
  }

  /** The literal `"id"` is its own strip and its own lower-case form. */
  lemma IdLiteral()
    ensures PyStr.Strip("id") == "id" && PyStr.Lower("id") == "id"
  {
    assert !PyStr.IsSpace("id"[0]) && !PyStr.IsSpace("id"[1]);
    assert PyStr.Lower("id")[0] == 'i' && PyStr.Lower("id")[1] == 'd';
  }

  /** Header `j` of a table without an id column is not an id name, even unstripped. */
  lemma {:induction false} NotIdName(headers: seq<string>, j: nat)
    requires j < |headers|
    requires !HasIdHeader(headers)
    ensures PyStr.Lower(headers[j]) !in IdNames
  {
    if j == 0 {
      assert PyStr.Lower(PyStr.Strip(headers[0])) !in IdNames;
      if PyStr.Lower(headers[0]) in IdNames {
        IdNameUnstripped(headers[0]);
      }
    } else {
      NotIdName(headers[1..], j - 1);
    }
  }

  /** Once ids are synthesised, the key column of the table is the new `id` column. */
  lemma SynthesisedKeyColumn(cleaned: seq<Row>)
    requires cleaned != []
    requires !HasIdHeader(HeadersOf(cleaned))
    ensures KeyColumn(HeadersOf(WithIds(cleaned))) == Ok("id")
  {
    var old0 := Keys(cleaned[0]);
    IdLiteral();
    forall j | 0 <= j < |old0|
      ensures old0[j] != "id"
    {
      NotIdName(old0, j);
    }
    KeysPutNew(cleaned[0], "id", "1");
    var headers := HeadersOf(WithIds(cleaned));
    assert headers == old0 + ["id"];
    forall j | 0 <= j < |old0|
      ensures PyStr.Lower(headers[j]) !in IdNames
    {
      NotIdName(old0, j);
    }
    assert PyStr.Lower(headers[|old0|]) == "id";
    FirstLowerInMeaning(headers, IdNames);
    assert FirstLowerIn(headers, IdNames) == |old0|;
  }

  /** Row j of a numbered table holds `str(j + 1)` in its `id` cell. */
  lemma SynthesisedIdCell(cleaned: seq<Row>, j: nat)
    requires j < |cleaned|
    ensures IdCells(WithIds(cleaned), "id")[j] == PyStr.NatToString(j + 1)
  {
    GetPut(cleaned[j], "id", PyStr.NatToString(j + 1), "");
    PyStr.StripNatToString(j + 1);
  }

  /** Two decimal strings are equal exactly when the numbers are. */
  lemma IdStringsEqual(a: nat, b: nat)
    ensures PyStr.NatToString(a) == PyStr.NatToString(b) <==> a == b
  {
    if PyStr.NatToString(a) == PyStr.NatToString(b) {
      PyStr.NatToStringInjective(a, b);
    }
  }

  /** Synthesised ids are distinct: row j carries the id `str(i + 1)` exactly when j is i. */
  lemma SynthesisedIdsDistinct(cleaned: seq<Row>, i: nat, j: nat)
    requires i < |cleaned| && j < |cleaned|
    ensures IdCells(WithIds(cleaned), "id")[j] == PyStr.NatToString(i + 1) <==> j == i
  {
    SynthesisedIdCell(cleaned, j);
    IdStringsEqual(i + 1, j + 1);
  }

  /** A table without an id column is loaded with ids synthesised. */
  lemma LoadSynthesises(raw: seq<seq<Field>>)
    requires !HasIdHeader(HeadersOf(CleanRows(raw)))
    ensures Load(raw) == WithIds(CleanRows(raw))
  {
  }

  /** In a table with synthesised ids, the id `str(i + 1)` finds row i. */
  lemma SynthesisedIdFoundIn(cleaned: seq<Row>, i: nat)
    requires 0 <= i < |cleaned|
    requires !HasIdHeader(HeadersOf(cleaned))
    ensures FindById(WithIds(cleaned), PyStr.NatToString(i + 1)) == Ok(Some(WithIds(cleaned)[i]))
  {
    SynthesisedKeyColumn(cleaned);
    SynthesisedIdSearched(cleaned, i);
    FindByIdFound(WithIds(cleaned), PyStr.NatToString(i + 1), "id", i);
  }

  /** Row i is the first row whose synthesised id is `str(i + 1)`. */
  lemma SynthesisedIdFirst(cleaned: seq<Row>, i: nat)
    requires 0 <= i < |cleaned|
    ensures FirstIndex(IdCells(WithIds(cleaned), "id"), PyStr.NatToString(i + 1)) == i
  {
    var cells := IdCells(WithIds(cleaned), "id");
    var want := PyStr.NatToString(i + 1);
    forall j | 0 <= j < i
      ensures cells[j] != want
    {
      SynthesisedIdsDistinct(cleaned, i, j);
    }
    SynthesisedIdsDistinct(cleaned, i, i);
    FirstIndexAt(cells, want, i);
  }

  /** Searching the synthesised id cells for the stripped `str(i + 1)` stops at row `i`. */
  lemma SynthesisedIdSearched(cleaned: seq<Row>, i: nat)
    requires 0 <= i < |cleaned|
    ensures FirstIndex(IdCells(WithIds(cleaned), "id"), PyStr.Strip(PyStr.NatToString(i + 1))) == i
  {
    PyStr.StripNatToString(i + 1);
    SynthesisedIdFirst(cleaned, i);
  }

  /**
   * When the file has no id column, row i (counting from 1) is given the id
   * `str(i)`, and looking that id up finds exactly that row.
   */
  lemma SynthesisedIdFound(raw: seq<seq<Field>>, i: nat)
    requires 0 <= i < |raw|
    requires !HasIdHeader(HeadersOf(CleanRows(raw)))
    ensures FindById(Load(raw), PyStr.NatToString(i + 1)) == Ok(Some(Load(raw)[i]))
  {
    LoadSynthesises(raw);
    SynthesisedIdFoundIn(CleanRows(raw), i);
  }

  /** The scan of `get_by_id`: the position of the first row whose key cell, stripped, is `want`. */
  method ScanForId(rows: seq<Row>, key: string, want: string) returns (k: nat)
    ensures k == FirstIndex(IdCells(rows, key), want)
  {
    ghost var cells := IdCells(rows, key);
    k := 0;
    while k < |rows|
      invariant k <= |rows|
      invariant FirstIndex(cells, want) == k + FirstIndex(cells[k..], want)
    {
      if PyStr.Strip(Get(rows[k], key, "")) == want {
        assert cells[k..][0] == want;
        return;
      }
      assert cells[k..][0] != want;
      assert cells[k..][1..] == cells[k + 1..];
      k := k + 1;
    }
  }

  class BooksRepository {
    const source: Option<seq<seq<Field>>>
    var data: Option<seq<Row>>

    ghost predicate Valid()
      reads this
    {
      data.Some? ==> source.Some? && data.value == Load(source.value)
    }

    constructor (source: Option<seq<seq<Field>>>)
      ensures Valid()
      ensures this.source == source && data == None
    {
      this.source := source;
      data := None;
    }

    /**
     * `ensure_loaded`: a no-op once loaded; otherwise fails when the file is
     * missing, or stores the stripped rows with ids synthesised as needed.
     */
    method EnsureLoaded() returns (ok: bool)
      requires Valid()
      modifies this
      ensures Valid()
      ensures ok <==> source.Some?
      ensures old(data).Some? ==> data == old(data)
      ensures ok ==> data == Some(Load(source.value))
      ensures !ok ==> data == None
    {
      if data.Some? {
        return true;
      }
      if source.None? {
        return false;
      }
      var raw := source.value;
      var rows: seq<Row> := [];
      for i := 0 to |raw|
        invariant rows == CleanRows(raw[..i])
      {
        assert raw[..i + 1][..i] == raw[..i];
        rows := rows + [CleanRow(raw[i])];
      }
      assert raw[..|raw|] == raw;
      ghost var cleaned := rows;
      if !HasIdHeader(HeadersOf(rows)) {
        for i := 0 to |rows|
          invariant |rows| == |cleaned|
          invariant forall j :: 0 <= j < i ==> rows[j] == Put(cleaned[j], "id", PyStr.NatToString(j + 1))
          invariant forall j :: i <= j < |rows| ==> rows[j] == cleaned[j]
        {
          rows := rows[i := Put(rows[i], "id", PyStr.NatToString(i + 1))];
        }
        assert rows == WithIds(cleaned);
      }
      data := Some(rows);
      return true;
    }

    /** `get_by_id(book_id)`: loads, picks the key column, then scans the rows in order. */
    method GetById(bookId: string) returns (r: Result<Option<Row>, RepoError>)
      requires Valid()
      modifies this
      ensures Valid()
      ensures old(data).Some? ==> data == old(data)
      ensures source.None? ==> r == Err(FileNotFound)
      ensures source.Some? ==> r == FindById(Load(source.value), bookId)
    {
      var ok := EnsureLoaded();
      if !ok {
        return Err(FileNotFound);
      }
      var rows := data.value;
      var keyColumn := KeyColumn(HeadersOf(rows));
      if keyColumn.Err? {
        return Err(keyColumn.error);
      }
      var k := ScanForId(rows, keyColumn.value, PyStr.Strip(bookId));
      return Ok(if k < |rows| then Some(rows[k]) else None);
    }

    /** `filter(...)`: loads, then answers `Query` on the loaded rows. */
    method Filter(c: Criteria) returns (r: Result<seq<Row>, RepoError>)
      requires Valid()
      modifies this
      ensures Valid()
      ensures old(data).Some? ==> data == old(data)
      ensures source.None? ==> r == Err(FileNotFound)
      ensures source.Some? ==> r == Ok(Query(Load(source.value), c))
    {
      var ok := EnsureLoaded();
      if !ok {
        return Err(FileNotFound);
      }
      return Ok(Query(data.value, c));
    }
  }
}
