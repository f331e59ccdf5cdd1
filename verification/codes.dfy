/** The exam-code directory builder (`executable/Codes.py`): exam codes are
    read out of the result links of the portal's home page, filed under
    degree / regulation / semester, de-duplicated, sorted, and cached in a
    snapshot that is trusted for 24 hours.

    The home page is given as two tables of rows (one per degree); each row
    is its first link's `href` (absent when the row has no cell, no link or
    no `href`, which makes the source skip the row) and the row's text. */
module Codes {
  import opened Wrappers
  import opened PyStr
  import opened Sorting
  import opened Directory

  const ExamCodeMarker := "examCode"

  /** `extract_exam_code`: the four characters that start 9 positions after the
      first "examCode" (just past "examCode="), cut to three when the fourth is
      '&'. Fewer than four characters there raise `IndexError`, caught as `None`.
      When "examCode" is absent `find` gives -1 and the window starts at 8. */
  function ExtractExamCode(link: string): (r: Option<string>)
    ensures var start := Find(link, ExamCodeMarker) + 9;
            r.Some? <==> start + 4 <= |link|
    ensures var start := Find(link, ExamCodeMarker) + 9;
            r.Some? ==> && (|r.value| == 3 || |r.value| == 4)
                        && r.value == link[start..start + |r.value|]
                        && (|r.value| == 3 <==> link[start + 3] == '&')
  {
    var start := Find(link, ExamCodeMarker) + 9;
    var code := Slice(link, start, start + 4);
    if |code| < 4 then None
    else if code[3] == '&' then Some(code[..3])
    else Some(code)
  }

  /** A link that carries `examCode=<code>&...` as its first "examCode" yields
      exactly `<code>`, for the three- and four-character codes the portal uses. */
  lemma ExtractFromLink(pre: string, code: string, rest: string)
    requires !Contains(pre + "examCod", ExamCodeMarker)
    requires (|code| == 3 || |code| == 4) && '&' !in code
    ensures ExtractExamCode(pre + "examCode=" + code + "&" + rest) == Some(code)
  {
    var link := pre + "examCode=" + code + "&" + rest;
    assert OccursAt(link, ExamCodeMarker, |pre|) by {
      assert link[|pre|..|pre| + 8] == "examCode";
    }
    forall i: nat | i < |pre| ensures !OccursAt(link, ExamCodeMarker, i) {
      if OccursAt(link, ExamCodeMarker, i) {
        var head := pre + "examCod";
        assert link[i..i + 8] == head[i..i + 8];
        ContainsIff(head, ExamCodeMarker);
        assert OccursAt(head, ExamCodeMarker, i);
        assert false;
      }
    }
    assert Find(link, ExamCodeMarker) == |pre|;
    var start := |pre| + 9;
    assert link[start..start + |code|] == code;
    assert link[start + |code|] == '&';
    if |code| == 4 {
      assert link[start + 3] == code[3];
    }
  }

  /** `categorize_exam_code`'s table, in its dict order. */
  const YearCategories: seq<(string, string)> := [
    (" I Year I ", "1-1"), (" I Year II ", "1-2"),
    (" II Year I ", "2-1"), (" II Year II ", "2-2"),
    (" III Year I ", "3-1"), (" III Year II ", "3-2"),
    (" IV Year I ", "4-1"), (" IV Year II ", "4-2")
  ]

  /** `categorize_exam_code`: the label of the first token, in table order,
      that occurs in the row text; `None` when none occurs. */
  function CategorizeExamCode(text: string): Option<string>
  {
    FirstCategory(text, YearCategories, 0)
  }

  /** The scan of `table` from entry `k` on. */
  function FirstCategory(text: string, table: seq<(string, string)>, k: nat): Option<string>
    requires k <= |table|
    decreases |table| - k
  {
    if k == |table| then None
    else if Contains(text, table[k].0) then Some(table[k].1)
    else FirstCategory(text, table, k + 1)
  }

  /** The scan from entry `k` on answers the first entry whose token occurs. */
  lemma {:induction false} FirstCategoryIsFirst(text: string, table: seq<(string, string)>, k: nat)
    requires k <= |table|
    ensures var r := FirstCategory(text, table, k);
            && (r.None? <==> forall i :: k <= i < |table| ==> !Contains(text, table[i].0))
            && (r.Some? ==> exists i :: && k <= i < |table|
                                        && Contains(text, table[i].0)
                                        && r.value == table[i].1
                                        && forall j :: k <= j < i ==> !Contains(text, table[j].0))
    decreases |table| - k
  {
    if k < |table| && !Contains(text, table[k].0) {
      FirstCategoryIsFirst(text, table, k + 1);
    }
  }

  /** The category is the label of the first token, in table order, that
      occurs in the text, and `None` exactly when no token occurs. */
  lemma CategorizeIsFirstMatch(text: string)
    ensures var r := CategorizeExamCode(text);
            && (r.None? <==> forall i :: 0 <= i < |YearCategories| ==> !Contains(text, YearCategories[i].0))
            && (r.Some? ==> exists i :: && 0 <= i < |YearCategories|
                                        && Contains(text, YearCategories[i].0)
                                        && r.value == YearCategories[i].1
                                        && forall j :: 0 <= j < i ==> !Contains(text, YearCategories[j].0))
            && (r.Some? ==> r.value in Semesters)
  {
    FirstCategoryIsFirst(text, YearCategories, 0);
    var r := CategorizeExamCode(text);
    if r.Some? {
      var i :| 0 <= i < |YearCategories| && r.value == YearCategories[i].1;
      assert YearCategories[i].1 == Semesters[i];
    }
  }

  /** A row of a home-page table: its first link's `href`, absent when the
      lookup `find_all("td")[0].find_all("a")[0]["href"]` raises, and its text. */
  datatype LinkRow = LinkRow(href: Option<string>, text: string)

  /** The row files `code` under regulation `reg` and semester `sem`: it has a
      link, its text names the regulation, and both the code and the semester
      label are found. */
  predicate Contributes(row: LinkRow, reg: string, sem: string, code: string)
  {
    && row.href.Some?
    && Contains(row.text, reg)
    && ExtractExamCode(row.href.value) == Some(code)
    && CategorizeExamCode(row.text) == Some(sem)
  }

  predicate TableContributes(rows: seq<LinkRow>, reg: string, sem: string, code: string)
  {
    exists i :: 0 <= i < |rows| && Contributes(rows[i], reg, sem, code)
  }

  /** What the builder keeps true of a regulation's dict while filling it:
      one entry per semester, and each list non-empty (a semester is only
      created by appending its first code) and free of duplicates. */
  ghost predicate WellFormed(sm: SemMap)
  {
    && UniqueKeys(sm)
    && forall k :: Get(sm, k).Some? ==> Get(sm, k).value != [] && NoDup(Get(sm, k).value)
  }

  /** In a well-formed dict a semester is a key exactly when some code is
      listed under it. */
  lemma KeyListed(sm: SemMap, s: string)
    requires WellFormed(sm)
    ensures s in Keys(sm) <==> exists c :: Listed(sm, s, c)
  {
    if s in Keys(sm) {
      assert Listed(sm, s, Get(sm, s).value[0]);
    }
  }

  /** `setdefault(sem, [])` followed by `append(code)` unless already there. */
  function AddCode(sm: SemMap, sem: string, code: string): (r: SemMap)
    requires WellFormed(sm)
    ensures WellFormed(r)
    ensures forall s, c :: Listed(r, s, c) <==> Listed(sm, s, c) || (s == sem && c == code)
    ensures forall s :: s in Keys(r) <==> s in Keys(sm) || s == sem
    ensures forall s :: Get(sm, s).Some? ==> Get(r, s).Some? && Get(sm, s).value <= Get(r, s).value
  {
    var codes := Get(sm, sem).GetOr([]);
    if code in codes then sm
    else
      AppendCodeWellFormed(sm, sem, codes, code);
      AppendCodeListed(sm, sem, codes, code);
      Set(sm, sem, codes + [code])
  }

  /** Appending a new code to a semester's list keeps the dict well formed. */
  lemma AppendCodeWellFormed(sm: SemMap, sem: string, codes: seq<string>, code: string)
    requires WellFormed(sm) && codes == Get(sm, sem).GetOr([]) && code !in codes
    ensures WellFormed(Set(sm, sem, codes + [code]))
  {
    var r := Set(sm, sem, codes + [code]);
    SetUnique(sm, sem, codes + [code]);
    NoDupAppend(codes, code);
    forall k | Get(r, k).Some? ensures Get(r, k).value != [] && NoDup(Get(r, k).value) {
      if k != sem { assert Get(r, k) == Get(sm, k); }
    }
  }

  /** Appending a new code lists it under its semester, and only it. */
  lemma AppendCodeListed(sm: SemMap, sem: string, codes: seq<string>, code: string)
    requires codes == Get(sm, sem).GetOr([])
    ensures var r := Set(sm, sem, codes + [code]);
            && (forall s, c :: Listed(r, s, c) <==> Listed(sm, s, c) || (s == sem && c == code))
            && (forall s :: Get(sm, s).Some? ==> Get(r, s).Some? && Get(sm, s).value <= Get(r, s).value)
  {
    var r := Set(sm, sem, codes + [code]);
    forall s, c ensures Listed(r, s, c) <==> Listed(sm, s, c) || (s == sem && c == code) {
      if s != sem { assert Get(r, s) == Get(sm, s); }
    }
  }

  type RegMap = map<string, SemMap>

  ghost predicate AllWellFormed(rm: RegMap)
  {
    forall g :: g in rm ==> WellFormed(rm[g])
  }

  /** The inner loop over the degree's regulations for one row whose code and
      semester were both found. */
  function AddToRegulations(rm: RegMap, regs: seq<string>, text: string, sem: string, code: string): (r: RegMap)
    requires AllWellFormed(rm) && forall g :: g in regs ==> g in rm
    ensures r.Keys == rm.Keys && AllWellFormed(r)
    ensures forall g, s, c :: g in rm ==>
              (Listed(r[g], s, c) <==> Listed(rm[g], s, c) || (g in regs && Contains(text, g) && s == sem && c == code))
  {
    if regs == [] then rm
    else
      var g := regs[0];
      var rm1 := AddToRegulation(rm, g, text, sem, code);
      assert forall g' :: g' in regs <==> g' == g || g' in regs[1..];
      AddToRegulations(rm1, regs[1..], text, sem, code)
  }

  /** One step of that loop: the code is filed under regulation `g` when the
      row text names it. */
  function AddToRegulation(rm: RegMap, g: string, text: string, sem: string, code: string): (r: RegMap)
    requires AllWellFormed(rm) && g in rm
    ensures r.Keys == rm.Keys && AllWellFormed(r)
    ensures forall g', s, c :: g' in rm ==>
              (Listed(r[g'], s, c) <==> Listed(rm[g'], s, c) || (g' == g && Contains(text, g) && s == sem && c == code))
  {
    if Contains(text, g) then rm[g := AddCode(rm[g], sem, code)] else rm
  }

  /** The body of the row loop. */
  function FileRow(rm: RegMap, regs: seq<string>, row: LinkRow): (r: RegMap)
    requires AllWellFormed(rm) && forall g :: g in regs ==> g in rm
    ensures r.Keys == rm.Keys && AllWellFormed(r)
    ensures forall g, s, c :: g in rm ==>
              (Listed(r[g], s, c) <==> Listed(rm[g], s, c) || (g in regs && Contributes(row, g, s, c)))
  {
    if row.href.None? then rm
    else
      var code := ExtractExamCode(row.href.value);
      var sem := CategorizeExamCode(row.text);
      if code.Some? && sem.Some? then AddToRegulations(rm, regs, row.text, sem.value, code.value)
      else rm
  }

  /** A row contributes to a table exactly when it contributes to all but
      the last row or to the last. */
  lemma TableContributesSnoc(rows: seq<LinkRow>, reg: string, sem: string, code: string)
    requires rows != []
    ensures TableContributes(rows, reg, sem, code) <==>
            TableContributes(rows[..|rows| - 1], reg, sem, code) || Contributes(rows[|rows| - 1], reg, sem, code)
  {
    var pre := rows[..|rows| - 1];
    if TableContributes(rows, reg, sem, code) {
      var i :| 0 <= i < |rows| && Contributes(rows[i], reg, sem, code);
      if i < |rows| - 1 { assert pre[i] == rows[i]; }
    }
    if TableContributes(pre, reg, sem, code) {
      var i :| 0 <= i < |pre| && Contributes(pre[i], reg, sem, code);
      assert rows[i] == pre[i];
    }
  }

  /** One table's rows filed in order, starting from `{reg: {} for reg in regs}`. */
  function TableCodes(regs: seq<string>, rows: seq<LinkRow>): (r: RegMap)
    ensures forall g :: g in r <==> g in regs
    ensures AllWellFormed(r)
    ensures forall g, s, c :: g in r ==> (Listed(r[g], s, c) <==> TableContributes(rows, g, s, c))
  {
    if rows == [] then
      var r: RegMap := map g | g in regs :: [];
      assert forall g :: g in r ==> r[g] == [];
      r
    else
      var pre := rows[..|rows| - 1];
      var last := rows[|rows| - 1];
      var rm := TableCodes(regs, pre);
      var r := FileRow(rm, regs, last);
      forall g, s, c | g in r
        ensures Listed(r[g], s, c) <==> TableContributes(rows, g, s, c)
      {
        TableContributesSnoc(rows, g, s, c);
      }
      r
  }

  /** The final shape of a regulation's dict: semester keys strictly ascending
      and every code list strictly ascending (sorted, no duplicates). */
  ghost predicate Ordered(sm: SemMap)
  {
    && StrictlySorted(Keys(sm))
    && forall k :: Get(sm, k).Some? ==> StrictlySorted(Get(sm, k).value)
  }

  /** The dict with keys `keys`, each holding the sorted list of `sm`. */
  function Rebuild(keys: seq<string>, sm: SemMap): (r: SemMap)
    ensures Keys(r) == keys
    ensures forall k :: Get(r, k) == if k in keys then Some(Sort(Get(sm, k).GetOr([]))) else None
  {
    if keys == [] then []
    else
      var rest := Rebuild(keys[1..], sm);
      var r := [(keys[0], Sort(Get(sm, keys[0]).GetOr([])))] + rest;
      assert r[1..] == rest;
      assert forall k :: k in keys <==> k == keys[0] || k in keys[1..];
      r
  }

  /** `sorted(codes)` for every semester, then `dict(sorted(items, key=semester))`.
      The dict is rebuilt from its sorted keys, which is the same dict because
      keys are unique. */
  function Finalize(sm: SemMap): (r: SemMap)
    requires WellFormed(sm)
    ensures UniqueKeys(r) && Ordered(r)
    ensures forall s :: s in Keys(r) <==> s in Keys(sm)
    ensures forall s, c :: Listed(r, s, c) <==> Listed(sm, s, c)
  {
    var keys := Sort(Keys(sm));
    var r := Rebuild(keys, sm);
    FinalizeFacts(sm, keys, r);
    r
  }

  lemma FinalizeFacts(sm: SemMap, keys: seq<string>, r: SemMap)
    requires WellFormed(sm) && keys == Sort(Keys(sm)) && r == Rebuild(keys, sm)
    ensures UniqueKeys(r) && Ordered(r)
    ensures forall s :: s in Keys(r) <==> s in Keys(sm)
    ensures forall s, c :: Listed(r, s, c) <==> Listed(sm, s, c)
  {
    NoDupPermutation(Keys(sm), keys);
    SortedNoDupStrict(keys);
    forall s ensures s in keys <==> s in Keys(sm) {
      assert s in keys <==> s in multiset(keys);
      assert s in Keys(sm) <==> s in multiset(Keys(sm));
    }
    forall s | Get(r, s).Some? ensures StrictlySorted(Get(r, s).value) {
      var v := Get(sm, s).value;
      NoDupPermutation(v, Sort(v));
      SortedNoDupStrict(Sort(v));
    }
    forall s, c ensures Listed(r, s, c) <==> Listed(sm, s, c) {
      if s in keys {
        var v := Get(sm, s).value;
        assert c in Sort(v) <==> c in multiset(Sort(v));
        assert c in v <==> c in multiset(v);
      }
    }
  }

  /** One degree's table: filed row by row, then finalized per regulation. */
  function DegreeCodes(regs: seq<string>, rows: seq<LinkRow>): (r: RegMap)
    ensures forall g :: g in r <==> g in regs
    ensures forall g :: g in r ==> UniqueKeys(r[g]) && Ordered(r[g])
    ensures forall g, s, c :: g in r ==> (Listed(r[g], s, c) <==> TableContributes(rows, g, s, c))
    ensures forall g, s :: g in r ==> (s in Keys(r[g]) <==> exists c :: TableContributes(rows, g, s, c))
  {
    var rm := TableCodes(regs, rows);
    var r := map g | g in rm :: Finalize(rm[g]);
    forall g, s | g in r ensures s in Keys(r[g]) <==> exists c :: TableContributes(rows, g, s, c) {
      KeyListed(rm[g], s);
    }
    r
  }

  const BTechRegulations := ["R18", "R22"]
  const BPharmacyRegulations := ["R17", "R22"]

  /** The standing exception: "1690" is never listed for btech / R18 / 3-1. */
  predicate Excluded(degree: string, reg: string, sem: string, code: string)
  {
    degree == BTech && reg == "R18" && sem == "3-1" && code == "1690"
  }

  /** `[code for code in codes if code != "1690"]` on btech / R18 / 3-1 when
      every level of that path exists; every other list is left as it is. */
  function Exclude1690(dir: Dir): (r: Dir)
    ensures r.Keys == dir.Keys
    ensures forall d :: d in dir ==> r[d].Keys == dir[d].Keys
    ensures forall d, g :: d in dir && g in dir[d] && (d != BTech || g != "R18") ==> r[d][g] == dir[d][g]
    ensures BTech in dir && "R18" in dir[BTech] ==>
              var old3 := dir[BTech]["R18"];
              var new3 := r[BTech]["R18"];
              && Keys(new3) == Keys(old3)
              && (forall s :: s != "3-1" ==> Get(new3, s) == Get(old3, s))
              && (Get(old3, "3-1").Some? ==> Get(new3, "3-1") == Some(Without(Get(old3, "3-1").value, "1690")))
  {
    if BTech in dir && "R18" in dir[BTech] && "3-1" in Keys(dir[BTech]["R18"]) then
      var sm := dir[BTech]["R18"];
      dir[BTech := dir[BTech]["R18" := Set(sm, "3-1", Without(Get(sm, "3-1").value, "1690"))]]
    else dir
  }

  /** The exclusion keeps btech / R18 ordered and drops exactly "1690" from 3-1. */
  lemma ExcludeKeepsOrder(dir: Dir)
    requires BTech in dir && "R18" in dir[BTech]
    requires UniqueKeys(dir[BTech]["R18"]) && Ordered(dir[BTech]["R18"])
    ensures UniqueKeys(Exclude1690(dir)[BTech]["R18"]) && Ordered(Exclude1690(dir)[BTech]["R18"])
    ensures forall s, c :: Listed(Exclude1690(dir)[BTech]["R18"], s, c) <==>
              Listed(dir[BTech]["R18"], s, c) && !Excluded(BTech, "R18", s, c)
  {
    var old3 := dir[BTech]["R18"];
    var new3 := Exclude1690(dir)[BTech]["R18"];
    if Get(old3, "3-1").Some? {
      var v := Get(old3, "3-1").value;
      assert StrictlySorted(v);
      DistinctNoDup(v);
      WithoutSortedNoDup(v, "1690");
      SortedNoDupStrict(Without(v, "1690"));
      assert Get(new3, "3-1") == Some(Without(v, "1690"));
    }
    forall k | Get(new3, k).Some? ensures StrictlySorted(Get(new3, k).value) {
      if k != "3-1" { assert Get(new3, k) == Get(old3, k); }
    }
    forall s, c ensures Listed(new3, s, c) <==> Listed(old3, s, c) && !Excluded(BTech, "R18", s, c) {
      if s != "3-1" { assert Get(new3, s) == Get(old3, s); }
    }
  }

  /** Every regulation's dict of a degree is ordered. */
  ghost predicate DegreeOrdered(rm: RegMap)
  {
    forall g :: g in rm ==> UniqueKeys(rm[g]) && Ordered(rm[g])
  }

  /** `extract_exam_codes` on the home page's tables: table 0 is btech, table 1
      bpharmacy; a page with fewer than two tables raises `IndexError`. */
  function ExtractExamCodes(home: seq<seq<LinkRow>>): (r: Result<Dir>)
    ensures r.Ok? <==> |home| >= 2
  {
    if |home| < 2 then Raised else Ok(Exclude1690(Built(home)))
  }

  /** The directory `extract_exam_codes` builds from the home page's tables. */
  function Built(home: seq<seq<LinkRow>>): Dir
    requires |home| >= 2
  {
    map[BTech := DegreeCodes(BTechRegulations, home[0]), BPharmacy := DegreeCodes(BPharmacyRegulations, home[1])]
  }

  /** The rebuilt directory has both degrees. */
  lemma ExtractedShape(home: seq<seq<LinkRow>>)
    requires |home| >= 2
    ensures ExtractExamCodes(home).value.Keys == {BTech, BPharmacy}
  {
    assert ExtractExamCodes(home).value.Keys == Built(home).Keys;
  }

  /** btech: exactly its regulations, every one ordered, and a code listed exactly when some
      row of table 0 contributes it and it is not the excluded "1690". */
  lemma ExtractedBTech(home: seq<seq<LinkRow>>)
    requires |home| >= 2
    ensures forall g :: g in ExtractExamCodes(home).value[BTech] <==> g in BTechRegulations
    ensures DegreeOrdered(ExtractExamCodes(home).value[BTech])
    ensures forall g, s, c :: g in BTechRegulations ==>
              (Listed(ExtractExamCodes(home).value[BTech][g], s, c) <==> TableContributes(home[0], g, s, c) && !Excluded(BTech, g, s, c))
    ensures forall g, s :: g in BTechRegulations ==>
              (s in Keys(ExtractExamCodes(home).value[BTech][g]) <==> exists c :: TableContributes(home[0], g, s, c))
  {
    var built := Built(home);
    assert ExtractExamCodes(home).value == Exclude1690(built);
    BTechFacts(home[0], built);
  }

  /** bpharmacy: exactly its regulations, every one ordered, and a code listed exactly when
      some row of table 1 contributes it. */
  lemma ExtractedPharmacy(home: seq<seq<LinkRow>>)
    requires |home| >= 2
    ensures forall g :: g in ExtractExamCodes(home).value[BPharmacy] <==> g in BPharmacyRegulations
    ensures DegreeOrdered(ExtractExamCodes(home).value[BPharmacy])
    ensures forall g, s, c :: g in BPharmacyRegulations ==>
              (Listed(ExtractExamCodes(home).value[BPharmacy][g], s, c) <==> TableContributes(home[1], g, s, c))
    ensures forall g, s :: g in BPharmacyRegulations ==>
              (s in Keys(ExtractExamCodes(home).value[BPharmacy][g]) <==> exists c :: TableContributes(home[1], g, s, c))
  {
    var built := Built(home);
    assert ExtractExamCodes(home).value == Exclude1690(built);
    PharmacyFacts(home[1], built);
  }

  lemma PharmacyFacts(rows: seq<LinkRow>, built: Dir)
    requires BTech in built && BPharmacy in built && built[BPharmacy] == DegreeCodes(BPharmacyRegulations, rows)
    ensures var ph := Exclude1690(built)[BPharmacy];
      && (forall g :: g in ph <==> g in BPharmacyRegulations)
      && DegreeOrdered(ph)
      && (forall g, s, c :: g in BPharmacyRegulations ==> (Listed(ph[g], s, c) <==> TableContributes(rows, g, s, c)))
      && (forall g, s :: g in BPharmacyRegulations ==> (s in Keys(ph[g]) <==> exists c :: TableContributes(rows, g, s, c)))
  {
    assert Exclude1690(built)[BPharmacy] == built[BPharmacy];
  }

  lemma BTechFacts(rows: seq<LinkRow>, built: Dir)
    requires BTech in built && built[BTech] == DegreeCodes(BTechRegulations, rows)
    ensures var bt := Exclude1690(built)[BTech];
      && (forall g :: g in bt <==> g in BTechRegulations)
      && DegreeOrdered(bt)
      && (forall g, s, c :: g in BTechRegulations ==>
            (Listed(bt[g], s, c) <==> TableContributes(rows, g, s, c) && !Excluded(BTech, g, s, c)))
      && (forall g, s :: g in BTechRegulations ==> (s in Keys(bt[g]) <==> exists c :: TableContributes(rows, g, s, c)))
  {
    var b := built[BTech];
    var bt := Exclude1690(built)[BTech];
    assert "R18" in b;
    ExcludeKeepsOrder(built);
    forall g | g in bt ensures UniqueKeys(bt[g]) && Ordered(bt[g]) {
      if g != "R18" { assert bt[g] == b[g]; }
    }
    forall g, s, c | g in BTechRegulations
      ensures Listed(bt[g], s, c) <==> TableContributes(rows, g, s, c) && !Excluded(BTech, g, s, c)
    {
      if g != "R18" { assert bt[g] == b[g]; }
    }
    forall g, s | g in BTechRegulations
      ensures s in Keys(bt[g]) <==> exists c :: TableContributes(rows, g, s, c)
    {
      if g != "R18" { assert bt[g] == b[g]; }
    }
  }

  /** `is_data_fresh`'s default `max_age`: 24 hours, in seconds. */
  const MaxAge: real := 86400.0

  /** The snapshot file `exam_codes.json` as `json.load` sees it: absent
      (`FileNotFoundError`), not JSON (`JSONDecodeError`), or a JSON object
      whose "timestamp" and "data" entries may be missing. */
  datatype SnapshotFile =
    | Missing
    | Undecodable
    | Snapshot(timestamp: Option<real>, data: Option<Dir>)

  /** `is_data_fresh`: fresh iff the stored timestamp is less than `maxAge`
      seconds before `now`. The two caught errors read as "not fresh"; a JSON
      object without "timestamp" raises `KeyError`, which is not caught. */
  function IsDataFresh(file: SnapshotFile, now: real, maxAge: real): (r: Result<bool>)
    ensures r == Ok(true) <==> file.Snapshot? && file.timestamp.Some? && now - file.timestamp.value < maxAge
    ensures r == Raised <==> file.Snapshot? && file.timestamp.None?
    ensures file.Missing? || file.Undecodable? ==> r == Ok(false)
  {
    match file
    case Missing => Ok(false)
    case Undecodable => Ok(false)
    case Snapshot(timestamp, _) =>
      if timestamp.None? then Raised else Ok(now - timestamp.value < maxAge)
  }

  /** `load_exam_codes`: the stored "data"; the two caught errors give `{}`,
      a missing "data" entry raises `KeyError`. */
  function LoadExamCodes(file: SnapshotFile): (r: Result<Dir>)
    ensures file.Missing? || file.Undecodable? ==> r == Ok(map[])
    ensures file.Snapshot? ==> (r.Ok? <==> file.data.Some?) && (r.Ok? ==> r.value == file.data.value)
  {
    match file
    case Snapshot(_, data) => if data.Some? then Ok(data.value) else Raised
    case _ => Ok(map[])
  }

  /** `save_exam_codes`: overwrites the file with the directory and the time of saving. */
  function SaveExamCodes(dir: Dir, savedAt: real): SnapshotFile
  {
    Snapshot(Some(savedAt), Some(dir))
  }

  /** What `get_exam_codes` returns, and the snapshot file after the call. */
  datatype Served = Served(codes: Result<Dir>, file: SnapshotFile)

  /** `get_exam_codes`: the stored directory while the snapshot is fresh;
      otherwise a rebuild from the home page, saved at `savedAt` (the clock
      read inside `save_exam_codes`). */
  function GetExamCodes(file: SnapshotFile, now: real, home: seq<seq<LinkRow>>, savedAt: real): (r: Served)
    ensures r.file != file ==> && IsDataFresh(file, now, MaxAge) == Ok(false)
                               && r.codes.Ok?
                               && r.file == Snapshot(Some(savedAt), Some(r.codes.value))
    ensures IsDataFresh(file, now, MaxAge) == Ok(true) ==> r.file == file && r.codes == LoadExamCodes(file)
    ensures IsDataFresh(file, now, MaxAge) == Ok(false) ==> r.codes == ExtractExamCodes(home)
    ensures IsDataFresh(file, now, MaxAge) == Ok(false) ==>
              r.file == (if r.codes.Ok? then SaveExamCodes(r.codes.value, savedAt) else file)
    ensures IsDataFresh(file, now, MaxAge) == Raised ==> r == Served(Raised, file)
  {
    match IsDataFresh(file, now, MaxAge)
    case Raised => Served(Raised, file)
    case Ok(isFresh) =>
      if isFresh then Served(LoadExamCodes(file), file)
      else
        match ExtractExamCodes(home)
        case Raised => Served(Raised, file)
        case Ok(dir) => Served(Ok(dir), SaveExamCodes(dir, savedAt))
  }

  /** A rebuild is served back unchanged by any later call within 24 hours of
      saving, whatever the home page then shows: the snapshot round-trips the
      directory and is not rebuilt. */
  lemma {:induction false} RebuildThenServe(file: SnapshotFile, now: real, home: seq<seq<LinkRow>>, savedAt: real,
                                            later: real, home2: seq<seq<LinkRow>>, savedAt2: real)
    requires IsDataFresh(file, now, MaxAge) == Ok(false) && |home| >= 2
    requires later - savedAt < MaxAge
    ensures var first := GetExamCodes(file, now, home, savedAt);
            GetExamCodes(first.file, later, home2, savedAt2) == first
  {
    var built := ExtractExamCodes(home);
    assert built.Ok?;
    ServeFresh(built.value, savedAt, later, home2, savedAt2);
  }

  /** A snapshot saved less than 24 hours ago is served as it is. */
  lemma ServeFresh(dir: Dir, savedAt: real, later: real, home: seq<seq<LinkRow>>, savedAt2: real)
    requires later - savedAt < MaxAge
    ensures var file := SaveExamCodes(dir, savedAt);
            GetExamCodes(file, later, home, savedAt2) == Served(Ok(dir), file)
  {
  }
}
