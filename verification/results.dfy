/** `executable/Results.py`: every semester of one student at once. All
    requests of all semesters are issued, then their pages are scraped in
    request order into a dict keyed by semester. */
module Results {
  import opened Wrappers
  import opened Directory
  import opened Roll
  import opened Pages
  import opened Sorting

  /** `self.results`: "Details", and "Result" mapping each semester to its
      subject-code -> subject dict. */
  datatype YearAcc = YearAcc(details: Details, result: map<string, map<string, Subject>>)

  const EmptyYear := YearAcc(NoDetails, map[])

  /** One submitted fetch, tagged with the semester it belongs to. */
  datatype Task = Task(semester: string, request: Request)

  /** `fetch_url`: any answer but a 200, and any failed request, becomes the
      text "Failed to fetch URL", which is markup without tables. A 200 with
      an empty body is falsy and is skipped (`None`). */
  function Content(resp: Response): (r: Option<Page>)
    ensures r.None? <==> resp.Answer? && resp.ok && resp.body.None?
    ensures !(resp.Answer? && resp.ok) ==> r == Some(Markup([]))
    ensures resp.Answer? && resp.ok && resp.body.Some? ==> r == resp.body
  {
    if resp.Answer? && resp.ok then resp.body else Some(Markup([]))
  }

  /** The requests of one semester, tagged with it. */
  function Tag(semester: string, reqs: seq<Request>): (r: seq<Task>)
    ensures |r| == |reqs|
    ensures forall i :: 0 <= i < |r| ==> r[i] == Task(semester, reqs[i])
  {
    if reqs == [] then [] else [Task(semester, reqs[0])] + Tag(semester, reqs[1..])
  }

  /** The task list: semesters in dict order, codes in list order, the two
      variants of each code in turn. */
  function Tasks(sm: SemMap, degree: string, htno: string): (r: seq<Task>)
    ensures forall i :: 0 <= i < |r| ==> r[i].semester in Keys(sm)
    ensures forall i :: 0 <= i < |r| ==> r[i].request.degree == degree && r[i].request.htno == htno
  {
    if sm == [] then []
    else
      var head := Tag(sm[0].0, Requests(degree, sm[0].1, htno));
      var rest := Tasks(sm[1..], degree, htno);
      assert Keys(sm) == [sm[0].0] + Keys(sm[1..]);
      head + rest
  }

  /** Every code of every semester is requested in both variants. */
  lemma {:induction false} TasksCover(sm: SemMap, degree: string, htno: string, j: nat, v: string, c: string)
    requires j < |sm| && v in Variants && c in sm[j].1
    ensures Task(sm[j].0, Request(degree, c, v, htno)) in Tasks(sm, degree, htno)
  {
    var head := Tag(sm[0].0, Requests(degree, sm[0].1, htno));
    var rest := Tasks(sm[1..], degree, htno);
    assert Tasks(sm, degree, htno) == head + rest;
    if j == 0 {
      var k :| 0 <= k < |sm[0].1| && sm[0].1[k] == c;
      RequestsCover(degree, sm[0].1, htno, k, v);
      var reqs := Requests(degree, sm[0].1, htno);
      var i :| 0 <= i < |reqs| && reqs[i] == Request(degree, c, v, htno);
      assert head[i] == Task(sm[j].0, Request(degree, c, v, htno));
    } else {
      assert sm[j] == sm[1..][j - 1];
      TasksCover(sm[1..], degree, htno, j - 1, v, c);
    }
  }

  /** `scrape_results(semester_code, response)`: the "no result" form changes
      nothing; otherwise the details table is merged, the results table's
      header names the columns (optional columns tested by truth value), the
      semester's dict is created if absent, and each row is stored in it under
      its subject code. A missing table, row, cell or required column raises. */
  function Scrape(acc: YearAcc, semester: string, page: Page): (r: Result<YearAcc>)
    ensures page.NoResultForm? ==> r == Ok(acc)
    ensures page.Markup? ==> (r.Ok? <==> Scrapes(page, Truthiness))
    ensures page.Markup? && r.Ok? ==>
              && r.value.details == MergeStudent(acc.details, ReadStudent(page.tables).value)
              && r.value.result.Keys == acc.result.Keys + {semester}
              && (semester in acc.result ==> acc.result[semester].Keys <= r.value.result[semester].Keys)
    ensures r.Ok? ==> forall s :: s in acc.result && s != semester ==> s in r.value.result && r.value.result[s] == acc.result[s]
  {
    match page
    case NoResultForm => Ok(acc)
    case Markup(tables) =>
      match ReadStudent(tables)
      case None => Raised
      case Some(st) =>
        var details := MergeStudent(acc.details, st);
        if |tables| < 2 then Raised
        else
          match HeaderReader(tables[1], Truthiness)
          case None => Raised
          case Some(reader) => StoreSubjects(acc, details, semester, Body(tables[1]), reader)
  }

  /** The rows parsed into the semester's dict (created if absent), with the
      merged details; any row that does not parse raises. */
  function StoreSubjects(acc: YearAcc, details: Details, semester: string, rows: seq<Row>, reader: Parser): (r: Result<YearAcc>)
    ensures r.Ok? <==> RowsParse(rows, reader)
    ensures r.Ok? ==> && r.value.details == details
                      && r.value.result.Keys == acc.result.Keys + {semester}
                      && (semester in acc.result ==> acc.result[semester].Keys <= r.value.result[semester].Keys)
    ensures r.Ok? ==> forall s :: s in acc.result && s != semester ==> s in r.value.result && r.value.result[s] == acc.result[s]
  {
    var existing := if semester in acc.result then acc.result[semester] else map[];
    match FoldRows(existing, rows, reader)
    case None => Raised
    case Some(subjects) => Ok(YearAcc(details, acc.result[semester := subjects]))
  }

  /** What a semester's dict holds after a successful scrape: per subject
      code, the last row naming it, else the earlier entry. */
  lemma ScrapeSubjects(acc: YearAcc, semester: string, tables: seq<Table>, code: string)
    requires Scrape(acc, semester, Markup(tables)).Ok?
    ensures var reader := HeaderReader(tables[1], Truthiness).value;
            var before := if semester in acc.result then acc.result[semester] else map[];
            var after := Scrape(acc, semester, Markup(tables)).value.result[semester];
            match LastWrite(Body(tables[1]), reader, code)
            case Some(s) => code in after && after[code] == s
            case None => (code in after <==> code in before) && (code in before ==> after[code] == before[code])
  {
    var reader := HeaderReader(tables[1], Truthiness).value;
    var before := if semester in acc.result then acc.result[semester] else map[];
    FoldLastWrite(before, Body(tables[1]), reader, code);
  }

  /** The outcome of `get_result` once the roll has been classified. */
  datatype Reply = Json(acc: YearAcc) | FailedToFetch

  /** The processing loop: each task's content, when there is any, is
      scraped into its semester; the first exception returns the text
      "Failed to fetch URL". */
  function Process(acc: YearAcc, tasks: seq<Task>, fetch: Request -> Response): (r: Reply)
    ensures r.Json? <==> forall i :: 0 <= i < |tasks| ==> Serves(tasks[i], fetch)
    ensures (exists i :: 0 <= i < |tasks| && Fails(fetch(tasks[i].request))) ==> r == FailedToFetch
    ensures r.Json? ==> forall s :: s in r.acc.result ==> s in acc.result || Names(tasks, s)
    ensures r.Json? ==> forall s :: s in acc.result && !Names(tasks, s) ==> s in r.acc.result && r.acc.result[s] == acc.result[s]
    ensures r.Json? ==> r.acc.details == PagesDetails(acc.details, Delivered(tasks, fetch))
    decreases |tasks|
  {
    if tasks == [] then Json(acc)
    else
      match Content(fetch(tasks[0].request))
      case None =>
        NamesCons(tasks);
        DeliveredStep(acc, acc, tasks, fetch);
        assert forall i :: 1 <= i < |tasks| ==> tasks[i] == tasks[1..][i - 1];
        Process(acc, tasks[1..], fetch)
      case Some(page) =>
        match Scrape(acc, tasks[0].semester, page)
        case Raised => FailedToFetch
        case Ok(next) =>
          DeliveredStep(acc, next, tasks, fetch);
          NamesCons(tasks);
          assert forall s :: s in next.result ==> s in acc.result || s == tasks[0].semester;
          assert forall i :: 1 <= i < |tasks| ==> tasks[i] == tasks[1..][i - 1];
          Process(next, tasks[1..], fetch)
  }

  /** One task's step of the details: its page's identity check, if it
      delivered a page. */
  lemma DeliveredStep(acc: YearAcc, next: YearAcc, tasks: seq<Task>, fetch: Request -> Response)
    requires tasks != []
    requires var content := Content(fetch(tasks[0].request));
             if content.Some? then Scrape(acc, tasks[0].semester, content.value) == Ok(next) else next == acc
    ensures PagesDetails(acc.details, Delivered(tasks, fetch)) == PagesDetails(next.details, Delivered(tasks[1..], fetch))
  {
    var content := Content(fetch(tasks[0].request));
    var delivered := Delivered(tasks, fetch);
    if content.Some? {
      var page := content.value;
      assert delivered[0] == page && delivered[1..] == Delivered(tasks[1..], fetch);
      assert next.details == if StudentOf(page).Some? then MergeStudent(acc.details, StudentOf(page).value) else acc.details;
    } else {
      assert delivered == [] + Delivered(tasks[1..], fetch);
    }
  }

  /** The pages the tasks deliver, in submission order across all
      semesters; a task without content delivers none. */
  function Delivered(tasks: seq<Task>, fetch: Request -> Response): (r: seq<Page>)
    ensures |r| <= |tasks|
    decreases |tasks|
  {
    if tasks == [] then []
    else
      var content := Content(fetch(tasks[0].request));
      (if content.Some? then [content.value] else []) + Delivered(tasks[1..], fetch)
  }

  /** The request failed or answered with a status other than 200. */
  predicate Fails(resp: Response)
  {
    !(resp.Answer? && resp.ok)
  }

  /** The task's content is empty, or a page that scrapes. */
  predicate Serves(t: Task, fetch: Request -> Response)
  {
    var content := Content(fetch(t.request));
    content.None? || Scrapes(content.value, Truthiness)
  }

  /** The subject pairs the tasks of semester `s` contribute, task after
      task, each page read through its own header. */
  function SemesterEntries(tasks: seq<Task>, fetch: Request -> Response, s: string): seq<(string, Subject)>
  {
    if tasks == [] then []
    else
      TaskEntries(tasks[0], fetch, s) + SemesterEntries(tasks[1..], fetch, s)
  }

  /** Task `t` of semester `s` delivered markup rather than the "no result"
      form. */
  predicate Opens(t: Task, fetch: Request -> Response, s: string)
  {
    var content := Content(fetch(t.request));
    t.semester == s && content.Some? && content.value.Markup?
  }

  /** Some task opens semester `s`. */
  predicate Opened(tasks: seq<Task>, fetch: Request -> Response, s: string)
  {
    exists i :: 0 <= i < |tasks| && Opens(tasks[i], fetch, s)
  }

  lemma OpenedCons(tasks: seq<Task>, fetch: Request -> Response, s: string)
    requires tasks != []
    ensures Opened(tasks, fetch, s) <==> Opens(tasks[0], fetch, s) || Opened(tasks[1..], fetch, s)
  {
    if Opened(tasks, fetch, s) && !Opens(tasks[0], fetch, s) {
      var i :| 0 <= i < |tasks| && Opens(tasks[i], fetch, s);
      assert tasks[1..][i - 1] == tasks[i];
    }
    if Opened(tasks[1..], fetch, s) {
      var i :| 0 <= i < |tasks| - 1 && Opens(tasks[1..][i], fetch, s);
      assert tasks[i + 1] == tasks[1..][i];
    }
  }

  /** The semesters of a processed reply: those the accumulator had and
      those some task's markup page opened (a page that scrapes creates its
      semester's dict even when it has no rows). */
  lemma {:induction false} ProcessSemesters(acc: YearAcc, tasks: seq<Task>, fetch: Request -> Response, s: string)
    requires Process(acc, tasks, fetch).Json?
    ensures s in Process(acc, tasks, fetch).acc.result <==> s in acc.result || Opened(tasks, fetch, s)
    decreases |tasks|
  {
    if tasks != [] {
      OpenedCons(tasks, fetch, s);
      var content := Content(fetch(tasks[0].request));
      var next := if content.None? then acc else Scrape(acc, tasks[0].semester, content.value).value;
      assert Process(acc, tasks, fetch) == Process(next, tasks[1..], fetch);
      assert s in next.result <==> s in acc.result || Opens(tasks[0], fetch, s);
      ProcessSemesters(next, tasks[1..], fetch, s);
    }
  }

  /** Within a semester of a processed reply each subject code holds what
      the last row naming it said, across that semester's pages in task
      order; a code none of them names keeps what it had. */
  lemma {:induction false} ProcessSubjects(acc: YearAcc, tasks: seq<Task>, fetch: Request -> Response, s: string, code: string)
    requires Process(acc, tasks, fetch).Json?
    requires s in Process(acc, tasks, fetch).acc.result
    ensures var before := if s in acc.result then acc.result[s] else map[];
            var after := Process(acc, tasks, fetch).acc.result[s];
            match LastEntry(SemesterEntries(tasks, fetch, s), code)
            case Some(x) => code in after && after[code] == x
            case None => (code in after <==> code in before) && (code in before ==> after[code] == before[code])
    decreases |tasks|
  {
    if tasks != [] {
      var content := Content(fetch(tasks[0].request));
      var next := if content.None? then acc else Scrape(acc, tasks[0].semester, content.value).value;
      assert Process(acc, tasks, fetch) == Process(next, tasks[1..], fetch);
      ProcessSubjects(next, tasks[1..], fetch, s, code);
      StepSubjects(acc, tasks[0], fetch, s, code);
      LastEntryAppend(TaskEntries(tasks[0], fetch, s), SemesterEntries(tasks[1..], fetch, s), code);
    }
  }

  /** The pairs one task contributes to semester `s`. */
  function TaskEntries(t: Task, fetch: Request -> Response, s: string): seq<(string, Subject)>
  {
    var content := Content(fetch(t.request));
    if t.semester == s && content.Some? then PageEntries(content.value, Truthiness) else []
  }

  /** One task's effect on semester `s`: the last row of its page naming a
      code wins, and a code it does not name keeps its subject. */
  lemma StepSubjects(acc: YearAcc, t: Task, fetch: Request -> Response, s: string, code: string)
    requires var content := Content(fetch(t.request));
             content.Some? ==> Scrape(acc, t.semester, content.value).Ok?
    ensures var content := Content(fetch(t.request));
            var next := if content.None? then acc else Scrape(acc, t.semester, content.value).value;
            var before := if s in acc.result then acc.result[s] else map[];
            var mid := if s in next.result then next.result[s] else map[];
            match LastEntry(TaskEntries(t, fetch, s), code)
            case Some(x) => code in mid && mid[code] == x
            case None => (code in mid <==> code in before) && (code in before ==> mid[code] == before[code])
  {
    var content := Content(fetch(t.request));
    if content.Some? && content.value.Markup? && t.semester == s {
      ScrapeSubjects(acc, s, content.value.tables, code);
    }
  }

  /** Some task belongs to semester `s`. */
  predicate Names(tasks: seq<Task>, s: string)
  {
    exists i :: 0 <= i < |tasks| && tasks[i].semester == s
  }

  /** The semesters of a task list are the first task's and those of the rest. */
  lemma NamesCons(tasks: seq<Task>)
    requires tasks != []
    ensures forall s :: Names(tasks, s) <==> tasks[0].semester == s || Names(tasks[1..], s)
  {
    forall s | Names(tasks, s) && tasks[0].semester != s ensures Names(tasks[1..], s) {
      var i :| 0 <= i < |tasks| && tasks[i].semester == s;
      assert tasks[1..][i - 1] == tasks[i];
    }
    forall s | Names(tasks[1..], s) ensures Names(tasks, s) {
      var i :| 0 <= i < |tasks| - 1 && tasks[1..][i].semester == s;
      assert tasks[i + 1] == tasks[1..][i];
    }
  }

  /** Processing two task lists one after the other is processing their
      concatenation: the pages of later tasks merge into what the earlier
      ones left, and a failure ends everything. */
  lemma {:induction false} ProcessAppend(acc: YearAcc, a: seq<Task>, b: seq<Task>, fetch: Request -> Response)
    ensures Process(acc, a + b, fetch) ==
            match Process(acc, a, fetch)
            case FailedToFetch => FailedToFetch
            case Json(mid) => Process(mid, b, fetch)
    decreases |a|
  {
    if a == [] {
      assert a + b == b;
    } else {
      assert (a + b)[0] == a[0] && (a + b)[1..] == a[1..] + b;
      match Content(fetch(a[0].request))
      case None => ProcessAppend(acc, a[1..], b, fetch);
      case Some(page) =>
        match Scrape(acc, a[0].semester, page)
        case Raised =>
        case Ok(next) => ProcessAppend(next, a[1..], b, fetch);
    }
  }

  /** The semester dict for a classified roll: `None` where the degree is
      missing (`KeyError`), empty where the regulation is. A lateral-entry
      roll then has "1-1" and "1-2" popped, and a missing one raises. */
  function SemestersFor(dir: Dir, c: Classification): (r: Option<SemMap>)
    ensures r.Some? ==> c.degree in dir
    ensures r.Some? && c.lateral ==> c.regulation in dir[c.degree]
    ensures r.Some? && c.lateral ==> "1-1" !in Keys(r.value) && "1-2" !in Keys(r.value)
    ensures r.Some? && !c.lateral ==> r.value == (if c.regulation in dir[c.degree] then dir[c.degree][c.regulation] else [])
    ensures c.degree in dir && !c.lateral ==> r.Some?
    ensures c.degree in dir && c.lateral && c.regulation in dir[c.degree] ==>
              (r.Some? <==> "1-1" in Keys(dir[c.degree][c.regulation]) && "1-2" in Keys(dir[c.degree][c.regulation]))
    ensures r.Some? && c.lateral ==> forall k :: k !in FirstYearKeys ==> Get(r.value, k) == Get(dir[c.degree][c.regulation], k)
    ensures r.Some? && c.lateral ==> Keys(r.value) == Without(Without(Keys(dir[c.degree][c.regulation]), "1-1"), "1-2")
  {
    if c.degree !in dir then None
    else
      var sm := if c.regulation in dir[c.degree] then dir[c.degree][c.regulation] else [];
      if !c.lateral then Some(sm)
      else
        match Pop(sm, "1-1")
        case None => None
        case Some(a) =>
          assert Get(a, "1-2") == Get(sm, "1-2");
          match Pop(a, "1-2")
          case None => None
          case Some(b) =>
            assert Get(b, "1-1") == Get(a, "1-1");
            Some(b)
  }

  const FirstYearKeys: set<string> := {"1-1", "1-2"}

  /** `get_result(roll_number)` on a fresh instance holding `dir`.
      Classification and the dict lookups may raise; otherwise every task is
      processed. */
  function GetResult(dir: Dir, roll: string, fetch: Request -> Response): (r: Result<Reply>)
    ensures Classify(roll).Raised? ==> r.Raised?
    ensures r.Ok? <==> Classify(roll).Ok? && SemestersFor(dir, Classify(roll).value).Some?
    ensures r.Ok? ==> var tasks := Tasks(SemestersFor(dir, Classify(roll).value).value, Classify(roll).value.degree, roll);
                      && (r.value.Json? <==> forall i :: 0 <= i < |tasks| ==> Serves(tasks[i], fetch))
                      && ((exists i :: 0 <= i < |tasks| && Fails(fetch(tasks[i].request))) ==> r.value == FailedToFetch)
                      && (r.value.Json? ==> forall s :: s in r.value.acc.result <==> Opened(tasks, fetch, s))
                      && (r.value.Json? ==> r.value.acc.details == PagesDetails(NoDetails, Delivered(tasks, fetch)))
  {
    match Classify(roll)
    case Raised => Raised
    case Ok(c) =>
      match SemestersFor(dir, c)
      case None => Raised
      case Some(sm) =>
        var tasks := Tasks(sm, c.degree, roll);
        var reply := Process(EmptyYear, tasks, fetch);
        if reply.Json? then
          assert forall s :: s in reply.acc.result <==> Opened(tasks, fetch, s) by {
            forall s { ProcessSemesters(EmptyYear, tasks, fetch, s); }
          }
          Ok(reply)
        else Ok(reply)
  }

  /** Every subject of a reply is what the last row naming its code said,
      across the pages of its semester's tasks in task order; a code no
      such row names is absent. */
  lemma ReplySubjects(dir: Dir, roll: string, fetch: Request -> Response, s: string, code: string)
    requires GetResult(dir, roll, fetch).Ok? && GetResult(dir, roll, fetch).value.Json?
    requires s in GetResult(dir, roll, fetch).value.acc.result
    ensures var c := Classify(roll).value;
            var tasks := Tasks(SemestersFor(dir, c).value, c.degree, roll);
            var subjects := GetResult(dir, roll, fetch).value.acc.result[s];
            && (code in subjects <==> LastEntry(SemesterEntries(tasks, fetch, s), code).Some?)
            && (code in subjects ==> subjects[code] == LastEntry(SemesterEntries(tasks, fetch, s), code).value)
  {
    var c := Classify(roll).value;
    ProcessSubjects(EmptyYear, Tasks(SemestersFor(dir, c).value, c.degree, roll), fetch, s, code);
  }

  /** When every delivered page that names a student names the roll asked
      for, the reply's details are the first such page's student, or the
      empty dict when no page names one. */
  lemma ReplyDetails(dir: Dir, roll: string, fetch: Request -> Response)
    requires GetResult(dir, roll, fetch).Ok? && GetResult(dir, roll, fetch).value.Json?
    requires var c := Classify(roll).value;
             var pages := Delivered(Tasks(SemestersFor(dir, c).value, c.degree, roll), fetch);
             OnlyHtno(pages, roll)
    ensures var c := Classify(roll).value;
            var pages := Delivered(Tasks(SemestersFor(dir, c).value, c.degree, roll), fetch);
            GetResult(dir, roll, fetch).value.acc.details ==
              match FirstStudent(pages)
              case None => NoDetails
              case Some(st) => DetailsOf(st)
  {
    var c := Classify(roll).value;
    var pages := Delivered(Tasks(SemestersFor(dir, c).value, c.degree, roll), fetch);
    OneStudentDetails(NoDetails, pages, roll);
  }

  /** The tasks of semester `s`, in submission order. */
  function Of(tasks: seq<Task>, s: string): (r: seq<Task>)
    ensures forall i :: 0 <= i < |r| ==> r[i].semester == s
  {
    if tasks == [] then []
    else (if tasks[0].semester == s then [tasks[0]] else []) + Of(tasks[1..], s)
  }

  lemma {:induction false} OfAppend(a: seq<Task>, b: seq<Task>, s: string)
    ensures Of(a + b, s) == Of(a, s) + Of(b, s)
    decreases |a|
  {
    if a == [] {
      assert a + b == b;
    } else {
      assert (a + b)[0] == a[0] && (a + b)[1..] == a[1..] + b;
      OfAppend(a[1..], b, s);
    }
  }

  /** Tagging with one semester keeps all tasks for it and none for others. */
  lemma {:induction false} OfTag(t: string, reqs: seq<Request>, s: string)
    ensures Of(Tag(t, reqs), s) == if t == s then Tag(t, reqs) else []
    decreases |reqs|
  {
    if reqs != [] {
      var r := Tag(t, reqs);
      assert r[1..] == Tag(t, reqs[1..]);
      OfTag(t, reqs[1..], s);
    }
  }

  /** A list whose tasks all belong to other semesters has none for `s`. */
  lemma {:induction false} OfNone(tasks: seq<Task>, s: string)
    requires forall i :: 0 <= i < |tasks| ==> tasks[i].semester != s
    ensures Of(tasks, s) == []
    decreases |tasks|
  {
    if tasks != [] {
      OfNone(tasks[1..], s);
    }
  }

  /** In a dict with unique keys, the tasks of semester `s` are, in
      submission order, both variants of each of its codes in list order,
      code-major; a semester the dict does not list has none. */
  lemma {:induction false} TasksOfSemester(sm: SemMap, degree: string, htno: string, s: string)
    requires UniqueKeys(sm)
    ensures Of(Tasks(sm, degree, htno), s) ==
            if Get(sm, s).Some? then Tag(s, Requests(degree, Get(sm, s).value, htno)) else []
    decreases |sm|
  {
    if sm != [] {
      var head := Tag(sm[0].0, Requests(degree, sm[0].1, htno));
      var rest := Tasks(sm[1..], degree, htno);
      assert Keys(sm[1..]) == Keys(sm)[1..];
      NoDupTail(Keys(sm));
      OfAppend(head, rest, s);
      OfTag(sm[0].0, Requests(degree, sm[0].1, htno), s);
      if sm[0].0 == s {
        forall i | 0 <= i < |rest| ensures rest[i].semester != s {
          var k :| 0 <= k < |sm[1..]| && Keys(sm[1..])[k] == rest[i].semester;
          NoDupDistinct(Keys(sm), 0, k + 1);
        }
        OfNone(rest, s);
      } else {
        TasksOfSemester(sm[1..], degree, htno, s);
      }
    }
  }

  /** A semester's pairs depend only on that semester's tasks. */
  lemma {:induction false} SemesterEntriesOf(tasks: seq<Task>, fetch: Request -> Response, s: string)
    ensures SemesterEntries(tasks, fetch, s) == SemesterEntries(Of(tasks, s), fetch, s)
    decreases |tasks|
  {
    if tasks != [] {
      var rest := Of(tasks[1..], s);
      SemesterEntriesOf(tasks[1..], fetch, s);
      if tasks[0].semester == s {
        var o := Of(tasks, s);
        assert o == [tasks[0]] + rest;
        assert o[0] == tasks[0] && o[1..] == rest;
      } else {
        assert Of(tasks, s) == [] + rest == rest;
        assert SemesterEntries(tasks, fetch, s) == [] + SemesterEntries(tasks[1..], fetch, s);
      }
    }
  }

  /** Every semester in a processed reply is one of the dict's keys. */
  lemma ProcessedSemestersListed(sm: SemMap, degree: string, htno: string, fetch: Request -> Response)
    requires Process(EmptyYear, Tasks(sm, degree, htno), fetch).Json?
    ensures forall s :: s in Process(EmptyYear, Tasks(sm, degree, htno), fetch).acc.result ==> s in Keys(sm)
  {
    var tasks := Tasks(sm, degree, htno);
    forall s | s in Process(EmptyYear, tasks, fetch).acc.result ensures s in Keys(sm) {
      assert Names(tasks, s);
      var i :| 0 <= i < |tasks| && tasks[i].semester == s;
    }
  }

  /** Popping the first year keeps every other semester of the regulation. */
  lemma LateralKeysListed(dir: Dir, c: Classification)
    requires SemestersFor(dir, c).Some? && c.lateral
    ensures forall s :: s in Keys(SemestersFor(dir, c).value) ==> s in Keys(dir[c.degree][c.regulation])
  {
    var sm := SemestersFor(dir, c).value;
    var full := dir[c.degree][c.regulation];
    forall s | s in Keys(sm) ensures s in Keys(full) {
      assert s !in FirstYearKeys;
      assert Get(full, s) == Get(sm, s);
    }
  }

  /** Every semester in the reply was in the directory, and a lateral-entry
      student's reply never holds a first-year semester. */
  lemma ReplySemesters(dir: Dir, roll: string, fetch: Request -> Response)
    requires GetResult(dir, roll, fetch).Ok? && GetResult(dir, roll, fetch).value.Json?
    ensures var c := Classify(roll).value;
            var acc := GetResult(dir, roll, fetch).value.acc;
            && (acc.result != map[] ==> c.regulation in dir[c.degree])
            && (c.regulation in dir[c.degree] ==> forall s :: s in acc.result ==> s in Keys(dir[c.degree][c.regulation]))
            && (c.lateral ==> "1-1" !in acc.result && "1-2" !in acc.result)
  {
    var c := Classify(roll).value;
    var sm := SemestersFor(dir, c).value;
    ProcessedSemestersListed(sm, c.degree, roll, fetch);
    if c.lateral {
      LateralKeysListed(dir, c);
    } else if c.regulation !in dir[c.degree] {
      assert Tasks(sm, c.degree, roll) == [];
    }
  }
}
