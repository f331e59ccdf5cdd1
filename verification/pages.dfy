/** What the three result scrapers share: the portal request, the parsed
    result page, the student-details table, and the subject rows of the
    results table, read either at fixed positions or through the header
    row's column names. */
module Pages {
  import opened Wrappers
  import opened PyStr

  /** A table row: the texts of its `td` cells and of its `b` elements. */
  datatype Row = Row(cells: seq<string>, bold: seq<string>)

  /** A table's `tr` rows in document order. */
  type Table = seq<Row>

  /** A result page after HTML parsing: either it holds the portal's
      "no result" form (`form#myForm`), or it is markup whose `table`
      elements are listed in document order. A body that is not HTML at all,
      such as the text "Failed to fetch URL", is markup without tables. */
  datatype Page = NoResultForm | Markup(tables: seq<Table>)

  /** The outcome of one GET: the portal could not be reached, or it
      answered with a status that is or is not 200 and a body (`None` for an
      empty body). */
  datatype Response = Unreachable | Answer(ok: bool, body: Option<Page>)

  /** The `result` query parameter: the regular result page and the
      revaluation (recounting) page of one exam code. */
  const Variants: seq<string> := ["null", "gradercrv"]

  /** The query parameters that vary between result requests; `etype`,
      `grad` and `type` are the fixed `r16`, `null` and `intgrade`. */
  datatype Request = Request(degree: string, examCode: string, variant: string, htno: string)

  /** The requests for a list of exam codes, code-major: both variants of
      the first code, then both of the second, and so on. */
  function Requests(degree: string, codes: seq<string>, htno: string): (r: seq<Request>)
    ensures |r| == 2 * |codes|
    ensures forall i :: 0 <= i < |r| ==> r[i] == Request(degree, codes[i / 2], Variants[i % 2], htno)
  {
    if codes == [] then []
    else
      var rest := Requests(degree, codes[1..], htno);
      var r := [Request(degree, codes[0], "null", htno), Request(degree, codes[0], "gradercrv", htno)] + rest;
      assert forall i :: 0 <= i < |r| ==> r[i] == Request(degree, codes[i / 2], Variants[i % 2], htno) by {
        forall i | 0 <= i < |r| ensures r[i] == Request(degree, codes[i / 2], Variants[i % 2], htno) {
          if i >= 2 {
            var j := i - 2;
            assert r[i] == rest[j];
            HalfShift(i);
            assert codes[1..][j / 2] == codes[i / 2];
          } else {
            assert i / 2 == 0 && i % 2 == i;
          }
        }
      }
      r
  }

  /** Two positions further on is one code further on, same variant. */
  lemma HalfShift(i: int)
    requires i >= 2
    ensures (i - 2) / 2 == i / 2 - 1 && (i - 2) % 2 == i % 2
  {
  }

  /** Every listed code is requested in both variants. */
  lemma RequestsCover(degree: string, codes: seq<string>, htno: string, k: nat, v: string)
    requires k < |codes| && v in Variants
    ensures Request(degree, codes[k], v, htno) in Requests(degree, codes, htno)
  {
    var r := Requests(degree, codes, htno);
    var i := if v == "null" then 2 * k else 2 * k + 1;
    assert i / 2 == k && Variants[i % 2] == v;
    assert r[i] == Request(degree, codes[k], v, htno);
  }

  /** Requests for consecutive code lists concatenate. */
  lemma {:induction false} RequestsAppend(degree: string, a: seq<string>, b: seq<string>, htno: string)
    ensures Requests(degree, a + b, htno) == Requests(degree, a, htno) + Requests(degree, b, htno)
  {
    if a == [] {
      assert a + b == b;
    } else {
      assert (a + b)[1..] == a[1..] + b;
      RequestsAppend(degree, a[1..], b, htno);
    }
  }

  /** The "Details" dict: empty, the four fields of a student, or (after a
      failed search) only a `Roll_No`. Each field is `None` when absent. */
  datatype Details = Details(name: Option<string>, rollNo: Option<string>,
                             fatherName: Option<string>, collegeCode: Option<string>)

  /** The empty dict `{}`. */
  const NoDetails := Details(None, None, None, None)

  /** The sentinel a failed search writes into `Roll_No`. */
  const InvalidHallticket := "Invalid Hallticket Number"

  /** `details.get("Roll_No")` is truthy. */
  predicate HasRollNo(d: Details)
  {
    d.rollNo.Some? && d.rollNo.value != ""
  }

  /** `details["Roll_No"] = "Invalid Hallticket Number"`; other fields stay. */
  function StampInvalid(d: Details): (r: Details)
    ensures r.rollNo == Some(InvalidHallticket) && HasRollNo(r)
    ensures r.name == d.name && r.fatherName == d.fatherName && r.collegeCode == d.collegeCode
  {
    d.(rollNo := Some(InvalidHallticket))
  }

  /** The four texts of the details table. */
  datatype Student = Student(htno: string, name: string, fatherName: string, collegeCode: string)

  /** The details table is the page's first table: hall ticket number and
      name are the second and fourth cells of its first row, father's name
      and college code those of its second row. A missing table, row or cell
      raises `IndexError` (`None`). */
  function ReadStudent(tables: seq<Table>): (r: Option<Student>)
    ensures r.Some? <==> |tables| > 0 && |tables[0]| >= 2
                          && |tables[0][0].cells| >= 4 && |tables[0][1].cells| >= 4
    ensures r.Some? ==> r.value.htno == tables[0][0].cells[1] && r.value.name == tables[0][0].cells[3]
    ensures r.Some? ==> r.value.fatherName == tables[0][1].cells[1] && r.value.collegeCode == tables[0][1].cells[3]
  {
    if |tables| == 0 || |tables[0]| < 2 || |tables[0][0].cells| < 4 || |tables[0][1].cells| < 4 then None
    else
      var t := tables[0];
      Some(Student(t[0].cells[1], t[0].cells[3], t[1].cells[1], t[1].cells[3]))
  }

  /** The details dict holding exactly one student's four fields. */
  function DetailsOf(st: Student): Details
  {
    Details(Some(st.name), Some(st.htno), Some(st.fatherName), Some(st.collegeCode))
  }

  /** The identity check of every scraper: the stored details are replaced
      by the page's student whenever the stored `Roll_No` is not the page's
      hall ticket number, and kept otherwise. Either way the result names
      the page's hall ticket number. */
  function MergeStudent(d: Details, st: Student): (r: Details)
    ensures r.rollNo == Some(st.htno)
    ensures r == d || r == DetailsOf(st)
    ensures r != d <==> d.rollNo != Some(st.htno) && d != DetailsOf(st)
  {
    if Some(st.htno) != d.rollNo then DetailsOf(st) else d
  }

  /** A second page for the same hall ticket number never changes the
      details, whatever its other fields say. */
  lemma MergeSameHtno(d: Details, a: Student, b: Student)
    requires a.htno == b.htno
    ensures MergeStudent(MergeStudent(d, a), b) == MergeStudent(d, a)
  {
  }

  /** A page for a different hall ticket number replaces every stored
      field: the code performs no rejection of a mismatched student. */
  lemma MergeOtherHtno(d: Details, a: Student, b: Student)
    requires a.htno != b.htno
    ensures MergeStudent(MergeStudent(d, a), b) == DetailsOf(b)
  {
  }

  /** One subject of the "Result" dict. `rcrv` records whether the row's
      last cell mentions a change in grade (a revaluation outcome). */
  datatype Subject = Subject(name: string, internal: string, external: string, total: string,
                             grade: string, credits: string, rcrv: bool)

  const ChangeInGrade := "Change in Grade"

  /** A semester's "Details" and "Result" dicts; "Result" maps subject
      codes to subjects. */
  datatype SemAcc = SemAcc(details: Details, result: map<string, Subject>)

  const EmptyAcc := SemAcc(NoDetails, map[])

  /** `results_table[1:]`: the rows under the header row. */
  function Body(t: Table): (r: seq<Row>)
    ensures |r| == if t == [] then 0 else |t| - 1
    ensures forall i :: 0 <= i < |r| ==> r[i] == t[i + 1]
  {
    if t == [] then [] else t[1..]
  }

  /** Column positions resolved from the header row by name. */
  datatype Columns = Columns(code: nat, name: nat, grade: nat, credits: nat,
                             internal: Option<nat>, external: Option<nat>, total: Option<nat>)

  /** How an optional column's index is tested before it is read: by its
      truth value (`if index`, which also skips index 0) or by `is not None`. */
  datatype OptionalTest = Truthiness | NotNone

  /** How the rows of the results table are read. */
  datatype Parser = Positional | ByHeader(cols: Columns, test: OptionalTest)

  /** Python's `list.index`: the first position of `x`, or `None` where
      Python raises `ValueError`. */
  function IndexOf(s: seq<string>, x: string): (r: Option<nat>)
    ensures r.Some? <==> x in s
    ensures r.Some? ==> r.value < |s| && s[r.value] == x
    ensures r.Some? ==> forall j :: 0 <= j < r.value ==> s[j] != x
  {
    if s == [] then None
    else if s[0] == x then Some(0)
    else
      match IndexOf(s[1..], x)
      case None => None
      case Some(j) => Some(j + 1)
  }

  /** `list.index(x) if x in list else None`. */
  function OptionalIndex(s: seq<string>, x: string): (r: Option<nat>)
    ensures r == IndexOf(s, x)
  {
    if x in s then IndexOf(s, x) else None
  }

  /** Resolves the columns from the header row's bold texts: the four
      required names must all be present (else `ValueError`), the three
      optional ones may be missing. */
  function ResolveColumns(names: seq<string>): (r: Option<Columns>)
    ensures r.Some? <==> "SUBJECT CODE" in names && "SUBJECT NAME" in names
                          && "GRADE" in names && "CREDITS(C)" in names
    ensures r.Some? ==> r.value.code < |names| && r.value.name < |names|
                        && r.value.grade < |names| && r.value.credits < |names|
    ensures r.Some? ==> names[r.value.code] == "SUBJECT CODE" && names[r.value.name] == "SUBJECT NAME"
                        && names[r.value.grade] == "GRADE" && names[r.value.credits] == "CREDITS(C)"
    ensures r.Some? ==> (r.value.internal.Some? <==> "INTERNAL" in names)
                        && (r.value.external.Some? <==> "EXTERNAL" in names)
                        && (r.value.total.Some? <==> "TOTAL" in names)
    ensures r.Some? && r.value.internal.Some? ==> r.value.internal.value < |names|
    ensures r.Some? && r.value.external.Some? ==> r.value.external.value < |names|
    ensures r.Some? && r.value.total.Some? ==> r.value.total.value < |names|
    ensures r.Some? && r.value.internal.Some? ==> names[r.value.internal.value] == "INTERNAL"
    ensures r.Some? && r.value.external.Some? ==> names[r.value.external.value] == "EXTERNAL"
    ensures r.Some? && r.value.total.Some? ==> names[r.value.total.value] == "TOTAL"
  {
    match (IndexOf(names, "SUBJECT CODE"), IndexOf(names, "SUBJECT NAME"),
           IndexOf(names, "GRADE"), IndexOf(names, "CREDITS(C)"))
    case (Some(code), Some(name), Some(grade), Some(credits)) =>
      Some(Columns(code, name, grade, credits,
                   OptionalIndex(names, "INTERNAL"), OptionalIndex(names, "EXTERNAL"),
                   OptionalIndex(names, "TOTAL")))
    case _ => None
  }

  /** The reader a results table's header row selects: its bold texts name
      the columns. A table without rows, or a header missing a required
      name, raises (`None`). */
  function HeaderReader(results: Table, test: OptionalTest): (r: Option<Parser>)
    ensures r.Some? <==> results != [] && ResolveColumns(results[0].bold).Some?
    ensures r.Some? ==> r.value == ByHeader(ResolveColumns(results[0].bold).value, test)
  {
    if results == [] then None
    else
      match ResolveColumns(results[0].bold)
      case None => None
      case Some(cols) => Some(ByHeader(cols, test))
  }

  /** The optional column is read under this test. */
  predicate Reads(test: OptionalTest, index: Option<nat>)
  {
    index.Some? && (test == NotNone || index.value != 0)
  }

  /** An optional cell: the cell's text when the test passes (a missing cell
      raises), the empty string otherwise. */
  function OptionalCell(test: OptionalTest, index: Option<nat>, cells: seq<string>): (r: Option<string>)
    ensures r.None? <==> Reads(test, index) && index.value >= |cells|
    ensures r.Some? ==> r.value == if Reads(test, index) then cells[index.value] else ""
  {
    if !Reads(test, index) then Some("")
    else if index.value < |cells| then Some(cells[index.value])
    else None
  }

  /** One row of the results table read as (subject code, subject), or
      `None` where a cell index is out of range and Python raises. */
  function ParseRow(p: Parser, row: Row): (r: Option<(string, Subject)>)
  {
    var c := row.cells;
    match p
    case Positional =>
      if |c| < 7 then None
      else Some((c[0], Subject(c[1], c[2], c[3], c[4], c[5], c[6], Contains(c[|c| - 1], ChangeInGrade))))
    case ByHeader(cols, test) =>
      if cols.code >= |c| || cols.name >= |c| || cols.grade >= |c| || cols.credits >= |c| then None
      else
        match (OptionalCell(test, cols.internal, c), OptionalCell(test, cols.external, c),
               OptionalCell(test, cols.total, c))
        case (Some(internal), Some(external), Some(total)) =>
          Some((c[cols.code], Subject(c[cols.name], internal, external, total,
                                      c[cols.grade], c[cols.credits], Contains(c[|c| - 1], ChangeInGrade))))
        case _ => None
  }

  /** The header-driven reader keys each subject by the cell under "SUBJECT
      CODE" and fills each field from the cell under that field's name. */
  lemma ParseRowByName(names: seq<string>, test: OptionalTest, row: Row)
    requires ResolveColumns(names).Some?
    requires ParseRow(ByHeader(ResolveColumns(names).value, test), row).Some?
    ensures var cols := ResolveColumns(names).value;
            var (code, s) := ParseRow(ByHeader(cols, test), row).value;
            && names[cols.code] == "SUBJECT CODE" && code == row.cells[cols.code]
            && names[cols.name] == "SUBJECT NAME" && s.name == row.cells[cols.name]
            && names[cols.grade] == "GRADE" && s.grade == row.cells[cols.grade]
            && names[cols.credits] == "CREDITS(C)" && s.credits == row.cells[cols.credits]
            && ("INTERNAL" !in names ==> s.internal == "")
            && (Reads(test, cols.internal) ==> names[cols.internal.value] == "INTERNAL"
                                               && s.internal == row.cells[cols.internal.value])
            && s.rcrv == Contains(row.cells[|row.cells| - 1], ChangeInGrade)
  {
  }

  /** The layout the portal currently serves. */
  const StandardHeader: seq<string> :=
    ["SUBJECT CODE", "SUBJECT NAME", "INTERNAL", "EXTERNAL", "TOTAL", "GRADE", "CREDITS(C)"]

  /** The standard layout resolves to the positions the positional reader
      uses. */
  lemma StandardColumns()
    ensures ResolveColumns(StandardHeader) == Some(StandardLayout)
  {
    StandardIndex(0);
    StandardIndex(1);
    StandardIndex(2);
    StandardIndex(3);
    StandardIndex(4);
    StandardIndex(5);
    StandardIndex(6);
  }

  /** Each standard column name is found at its own position. */
  lemma StandardIndex(i: nat)
    requires i < |StandardHeader|
    ensures IndexOf(StandardHeader, StandardHeader[i]) == Some(i)
  {
    StandardDistinct();
    IndexOfAt(StandardHeader, StandardHeader[i], i);
  }

  /** The standard column names are pairwise different. */
  lemma StandardDistinct()
    ensures forall i, j | 0 <= i < j < |StandardHeader| :: StandardHeader[i] != StandardHeader[j]
  {
    var h := StandardHeader;
    forall i, j | 0 <= i < j < |h| ensures h[i] != h[j] {
      assert |h[i]| != |h[j]| || h[i][0] != h[j][0] || h[i][|h[i]| - 4] != h[j][|h[j]| - 4];
    }
  }

  /** In a list without repeats `index` finds the one position holding `x`. */
  lemma IndexOfAt(s: seq<string>, x: string, i: nat)
    requires i < |s| && s[i] == x
    requires forall j :: 0 <= j < i ==> s[j] != x
    ensures IndexOf(s, x) == Some(i)
  {
  }

  const StandardLayout := Columns(0, 1, 5, 6, Some(2), Some(3), Some(4))

  /** On the standard layout the header-driven readers of both tests agree
      with the positional reader, row by row (including which rows raise). */
  lemma StandardHeaderAgrees(test: OptionalTest, row: Row)
    ensures ParseRow(ByHeader(StandardLayout, test), row) == ParseRow(Positional, row)
  {
  }

  /** The two tests can disagree only when an optional column is the first
      column. */
  lemma TestsAgreeOffColumnZero(cols: Columns, row: Row)
    requires cols.internal != Some(0) && cols.external != Some(0) && cols.total != Some(0)
    ensures ParseRow(ByHeader(cols, Truthiness), row) == ParseRow(ByHeader(cols, NotNone), row)
  {
  }

  /** With "INTERNAL" as the first column the truth-value test drops the
      internal marks that the `is not None` test reads. */
  lemma TruthinessDropsColumnZero()
    ensures var cols := Columns(1, 2, 3, 4, Some(0), None, None);
            var row := Row(["25", "CS101", "Maths", "A", "3"], []);
            && ParseRow(ByHeader(cols, Truthiness), row).value.1.internal == ""
            && ParseRow(ByHeader(cols, NotNone), row).value.1.internal == "25"
  {
  }

  /** Writes the rows of the results table into a subject dict, first to
      last, each under its subject code; `None` when a row raises (the dict
      as it stood is then lost with the exception). */
  function FoldRows(m: map<string, Subject>, rows: seq<Row>, p: Parser): (r: Option<map<string, Subject>>)
    ensures r.Some? <==> forall i :: 0 <= i < |rows| ==> ParseRow(p, rows[i]).Some?
    ensures r.Some? ==> m.Keys <= r.value.Keys
    decreases |rows|
  {
    if rows == [] then Some(m)
    else
      match ParseRow(p, rows[0])
      case None => None
      case Some((code, s)) =>
        var r := FoldRows(m[code := s], rows[1..], p);
        assert forall i :: 1 <= i < |rows| ==> rows[i] == rows[1..][i - 1];
        r
  }

  /** The (subject code, subject) pairs of the rows that read, in row
      order. */
  function Entries(rows: seq<Row>, p: Parser): seq<(string, Subject)>
  {
    if rows == [] then []
    else
      var last := ParseRow(p, rows[|rows| - 1]);
      Entries(rows[..|rows| - 1], p) + (if last.Some? then [last.value] else [])
  }

  /** The subject of the last pair naming `code`. */
  function LastEntry(es: seq<(string, Subject)>, code: string): Option<Subject>
  {
    if es == [] then None
    else if es[|es| - 1].0 == code then Some(es[|es| - 1].1)
    else LastEntry(es[..|es| - 1], code)
  }

  /** The last pair naming `code` in `a + b` is the last in `b`, if `b`
      names it at all. */
  lemma {:induction false} LastEntryAppend(a: seq<(string, Subject)>, b: seq<(string, Subject)>, code: string)
    ensures LastEntry(a + b, code) == if LastEntry(b, code).Some? then LastEntry(b, code) else LastEntry(a, code)
    decreases |b|
  {
    if b == [] {
      assert a + b == a;
    } else {
      assert (a + b)[..|a + b| - 1] == a + b[..|b| - 1];
      LastEntryAppend(a, b[..|b| - 1], code);
    }
  }

  /** The pairs of consecutive rows concatenate. */
  lemma {:induction false} EntriesAppend(a: seq<Row>, b: seq<Row>, p: Parser)
    ensures Entries(a + b, p) == Entries(a, p) + Entries(b, p)
    decreases |b|
  {
    if b == [] {
      assert a + b == a;
    } else {
      assert (a + b)[..|a + b| - 1] == a + b[..|b| - 1];
      assert (a + b)[|a + b| - 1] == b[|b| - 1];
      EntriesAppend(a, b[..|b| - 1], p);
    }
  }

  /** Reference meaning of a fold: the subject stored under `code` by the
      LAST row that names it. */
  function LastWrite(rows: seq<Row>, p: Parser, code: string): Option<Subject>
  {
    LastEntry(Entries(rows, p), code)
  }

  /** Looking one row further back from the front. */
  lemma LastWriteCons(rows: seq<Row>, p: Parser, code: string)
    requires rows != []
    ensures LastWrite(rows, p, code) ==
            if LastWrite(rows[1..], p, code).Some? then LastWrite(rows[1..], p, code)
            else if ParseRow(p, rows[0]).Some? && ParseRow(p, rows[0]).value.0 == code
            then Some(ParseRow(p, rows[0]).value.1)
            else None
  {
    var head := [rows[0]];
    assert rows == head + rows[1..];
    EntriesAppend(head, rows[1..], p);
    assert head[..0] == [];
    var first := Entries(head, p);
    LastEntryAppend(first, Entries(rows[1..], p), code);
    if ParseRow(p, rows[0]).Some? {
      assert first == [ParseRow(p, rows[0]).value];
      assert first[..0] == [];
    } else {
      assert first == [];
    }
  }

  /** A successful fold holds, for each subject code, what the last row
      naming it wrote, and the prior entry for codes no row names. */
  lemma {:induction false} FoldLastWrite(m: map<string, Subject>, rows: seq<Row>, p: Parser, code: string)
    requires FoldRows(m, rows, p).Some?
    ensures var r := FoldRows(m, rows, p).value;
            match LastWrite(rows, p, code)
            case Some(s) => code in r && r[code] == s
            case None => (code in r <==> code in m) && (code in m ==> r[code] == m[code])
    decreases |rows|
  {
    if rows != [] {
      var (c, s) := ParseRow(p, rows[0]).value;
      FoldLastWrite(m[c := s], rows[1..], p, code);
      LastWriteCons(rows, p, code);
    }
  }

  /** Every row reads without raising. */
  predicate RowsParse(rows: seq<Row>, p: Parser)
  {
    forall i :: 0 <= i < |rows| ==> ParseRow(p, rows[i]).Some?
  }

  /** A page the header-driven scrapers store without raising: the "no
      result" form, or markup with a details table, a results table whose
      header names the required columns, and rows that all read. */
  predicate Scrapes(page: Page, test: OptionalTest)
  {
    || page.NoResultForm?
    || (&& ReadStudent(page.tables).Some? && |page.tables| >= 2
        && HeaderReader(page.tables[1], test).Some?
        && RowsParse(Body(page.tables[1]), HeaderReader(page.tables[1], test).value))
  }

  /** The subject pairs one page contributes, each row read through the
      page's own header; none for the "no result" form or a page without a
      readable header. */
  function PageEntries(page: Page, test: OptionalTest): seq<(string, Subject)>
  {
    if page.Markup? && |page.tables| >= 2 && HeaderReader(page.tables[1], test).Some?
    then Entries(Body(page.tables[1]), HeaderReader(page.tables[1], test).value)
    else []
  }

  /** The student a page names: none for the "no result" form or a page
      whose details table does not read. */
  function StudentOf(page: Page): (r: Option<Student>)
    ensures r.Some? <==> page.Markup? && ReadStudent(page.tables).Some?
  {
    if page.Markup? then ReadStudent(page.tables) else None
  }

  /** The details after the identity check of each page in turn, starting
      from `d`; a page naming no student leaves them as they are. */
  function PagesDetails(d: Details, pages: seq<Page>): Details
    decreases |pages|
  {
    if pages == [] then d
    else
      var next := if StudentOf(pages[0]).Some? then MergeStudent(d, StudentOf(pages[0]).value) else d;
      PagesDetails(next, pages[1..])
  }

  /** The first student the pages name, if any. */
  function FirstStudent(pages: seq<Page>): (r: Option<Student>)
    ensures r.None? <==> forall i :: 0 <= i < |pages| ==> StudentOf(pages[i]).None?
    ensures r.Some? ==> exists i :: 0 <= i < |pages| && StudentOf(pages[i]) == r
                                  && forall j :: 0 <= j < i ==> StudentOf(pages[j]).None?
    decreases |pages|
  {
    if pages == [] then None
    else if StudentOf(pages[0]).Some? then StudentOf(pages[0])
    else
      var r := FirstStudent(pages[1..]);
      assert forall i :: 1 <= i < |pages| ==> pages[i] == pages[1..][i - 1];
      r
  }

  /** Every page that names a student names hall ticket number `htno`. */
  predicate OnlyHtno(pages: seq<Page>, htno: string)
  {
    forall i :: 0 <= i < |pages| && StudentOf(pages[i]).Some? ==> StudentOf(pages[i]).value.htno == htno
  }

  /** When every page names the same hall ticket number, the details are
      those of the first page naming a student, merged once; the later
      pages change nothing. */
  lemma {:induction false} OneStudentDetails(d: Details, pages: seq<Page>, htno: string)
    requires OnlyHtno(pages, htno)
    ensures PagesDetails(d, pages) == match FirstStudent(pages)
                                      case None => d
                                      case Some(st) => MergeStudent(d, st)
    decreases |pages|
  {
    if pages != [] {
      assert forall i :: 1 <= i < |pages| ==> pages[1..][i - 1] == pages[i];
      match StudentOf(pages[0])
      case None =>
        OneStudentDetails(d, pages[1..], htno);
      case Some(st) =>
        var next := MergeStudent(d, st);
        OneStudentDetails(next, pages[1..], htno);
        match FirstStudent(pages[1..])
        case None =>
        case Some(b) => MergeSameHtno(d, st, b);
    }
  }
}
