/** `executable/ResultAcademic.py`: all eight semesters of one student.
    Each semester is asked of its own fresh `ResultSem` instance; the
    replies arrive in some completion order, the student details come from
    the first completed semester that has any, and the semester results are
    listed in canonical order. */
module ResultAcademic {
  import opened Wrappers
  import opened Directory
  import opened Roll
  import opened Pages
  import ResultSem

  /** One semester's reply as the assembler sees it. */
  type SemReply = Result<ResultSem.Outcome>

  /** `sem_data and sem_data.get("Result")`: a result dict with at least
      one subject. The "No data" text makes `.get` raise, which is caught
      like any other exception, so neither it nor a raising call
      contributes. */
  predicate Contributes(o: SemReply)
  {
    o.Ok? && o.value.Semester? && o.value.acc.result != map[]
  }

  /** A contributing reply with a non-empty "Details" dict. */
  predicate GivesDetails(o: SemReply)
  {
    Contributes(o) && o.value.acc.details != NoDetails
  }

  /** `all_results`: the details and the per-semester results, each entry a
      one-key dict `{sem: result}`. */
  datatype Academic = Academic(details: Details, results: seq<(string, map<string, Subject>)>)

  /** `{"Roll_No": "Invalid Hallticket Number"}`. */
  const InvalidOnly := Details(None, Some(InvalidHallticket), None, None)

  /** An order in which the eight futures can complete: each semester once. */
  predicate IsCompletionOrder(order: seq<string>)
  {
    multiset(order) == multiset(Semesters)
  }

  /** The list holds no semester twice. */
  predicate Distinct(sems: seq<string>)
  {
    forall i, j :: 0 <= i < j < |sems| ==> sems[i] != sems[j]
  }

  lemma SemestersDistinct()
    ensures Distinct(Semesters)
  {
    forall i, j | 0 <= i < j < |Semesters| ensures Semesters[i] != Semesters[j] {
      assert Semesters[i][0] != Semesters[j][0] || Semesters[i][2] != Semesters[j][2];
    }
  }

  /** The details the loop keeps: those of the first reply in completion
      order that gives any (`if not all_results["Details"] and ...`). */
  function FirstDetails(replies: string -> SemReply, order: seq<string>): Details
  {
    if order == [] then NoDetails
    else if GivesDetails(replies(order[0])) then replies(order[0]).value.acc.details
    else FirstDetails(replies, order[1..])
  }

  /** The kept details are empty exactly when no reply gives any, and are
      otherwise those of the earliest giving reply. */
  lemma {:induction false} FirstDetailsIsFirst(replies: string -> SemReply, order: seq<string>)
    ensures FirstDetails(replies, order) == NoDetails <==> forall i :: 0 <= i < |order| ==> !GivesDetails(replies(order[i]))
    ensures FirstDetails(replies, order) != NoDetails ==>
              exists i :: 0 <= i < |order| && GivesDetails(replies(order[i]))
                          && FirstDetails(replies, order) == replies(order[i]).value.acc.details
                          && forall j :: 0 <= j < i ==> !GivesDetails(replies(order[j]))
  {
    if order != [] && !GivesDetails(replies(order[0])) {
      var r := FirstDetails(replies, order[1..]);
      FirstDetailsIsFirst(replies, order[1..]);
      assert forall i :: 1 <= i < |order| ==> order[i] == order[1..][i - 1];
      if r != NoDetails {
        var i :| 0 <= i < |order[1..]| && GivesDetails(replies(order[1..][i]))
                 && r == replies(order[1..][i]).value.acc.details
                 && forall j :: 0 <= j < i ==> !GivesDetails(replies(order[1..][j]));
        forall j | 0 <= j < i + 1 ensures !GivesDetails(replies(order[j])) {
          if j > 0 { assert order[j] == order[1..][j - 1]; }
        }
        assert order[i + 1] == order[1..][i];
      }
    }
  }

  /** The contributing semesters of `sems`, in the order of `sems`. */
  function Collect(sems: seq<string>, replies: string -> SemReply): (r: seq<(string, map<string, Subject>)>)
    ensures forall i :: 0 <= i < |r| ==> r[i].0 in sems && Contributes(replies(r[i].0))
                                         && r[i].1 == replies(r[i].0).value.acc.result
    ensures forall s :: s in sems && Contributes(replies(s)) ==> exists i :: 0 <= i < |r| && r[i].0 == s
  {
    if sems == [] then []
    else
      var rest := Collect(sems[1..], replies);
      if Contributes(replies(sems[0])) then
        var r := [(sems[0], replies(sems[0]).value.acc.result)] + rest;
        assert forall i :: 1 <= i < |r| ==> r[i] == rest[i - 1];
        assert forall s :: s in sems && Contributes(replies(s)) ==> exists i :: 0 <= i < |r| && r[i].0 == s by {
          forall s | s in sems && Contributes(replies(s)) ensures exists i :: 0 <= i < |r| && r[i].0 == s {
            if s == sems[0] {
              assert r[0].0 == s;
            } else {
              assert s in sems[1..];
              var k :| 0 <= k < |rest| && rest[k].0 == s;
              assert r[k + 1].0 == s;
            }
          }
        }
        r
      else
        assert forall s :: s in sems ==> s == sems[0] || s in sems[1..];
        rest
  }

  /** Where `x` sits in `s` when it is not the head. */
  lemma IndexOfTail(s: seq<string>, x: string)
    requires s != [] && x in s[1..] && s[0] != x
    ensures IndexOf(s, x).value == IndexOf(s[1..], x).value + 1
  {
  }

  /** Every entry's semester is in `sems`, and entries come in the order of `sems`. */
  predicate InOrderOf(sems: seq<string>, r: seq<(string, map<string, Subject>)>)
  {
    && (forall i :: 0 <= i < |r| ==> r[i].0 in sems)
    && forall i, j :: 0 <= i < j < |r| ==> IndexOf(sems, r[i].0).value < IndexOf(sems, r[j].0).value
  }

  /** Entries in the order of a list's tail are in the order of the
      whole list when its head does not recur. */
  lemma OrderedTail(sems: seq<string>, r: seq<(string, map<string, Subject>)>)
    requires sems != [] && sems[0] !in sems[1..]
    requires InOrderOf(sems[1..], r)
    ensures InOrderOf(sems, r)
    ensures forall k :: 0 <= k < |r| ==> IndexOf(sems, r[k].0).value > 0
  {
    forall k | 0 <= k < |r| ensures IndexOf(sems, r[k].0).value == IndexOf(sems[1..], r[k].0).value + 1 {
      IndexOfTail(sems, r[k].0);
    }
  }

  /** Putting the head's entry in front keeps the order. */
  lemma OrderedCons(sems: seq<string>, head: (string, map<string, Subject>), r: seq<(string, map<string, Subject>)>)
    requires sems != [] && sems[0] !in sems[1..] && head.0 == sems[0]
    requires InOrderOf(sems[1..], r)
    ensures InOrderOf(sems, [head] + r)
  {
    OrderedTail(sems, r);
    var h := [head] + r;
    assert IndexOf(sems, sems[0]) == Some(0);
    assert forall i :: 1 <= i < |h| ==> h[i] == r[i - 1];
    assert forall i :: 0 <= i < |h| ==> h[i].0 in sems;
    forall i, j | 0 <= i < j < |h| ensures IndexOf(sems, h[i].0).value < IndexOf(sems, h[j].0).value {
      assert h[j] == r[j - 1];
      if i > 0 {
        assert h[i] == r[i - 1];
      }
    }
  }

  /** Collected semesters keep the order of a list without repeats. */
  lemma {:induction false} CollectOrdered(sems: seq<string>, replies: string -> SemReply)
    requires Distinct(sems)
    ensures InOrderOf(sems, Collect(sems, replies))
  {
    if sems != [] {
      var tail := sems[1..];
      assert Distinct(tail) by {
        forall i, j | 0 <= i < j < |tail| ensures tail[i] != tail[j] {
          assert tail[i] == sems[i + 1] && tail[j] == sems[j + 1];
        }
      }
      assert sems[0] !in tail by {
        forall k | 0 <= k < |tail| ensures tail[k] != sems[0] {
          assert tail[k] == sems[k + 1];
        }
      }
      CollectOrdered(tail, replies);
      var rest := Collect(tail, replies);
      if Contributes(replies(sems[0])) {
        OrderedCons(sems, (sems[0], replies(sems[0]).value.acc.result), rest);
      } else {
        OrderedTail(sems, rest);
      }
    }
  }

  /** `get_cached_result` once every reply is in: the details of the first
      completed semester that gives any (else only the invalid sentinel),
      and the contributing semesters in canonical order. */
  function Assemble(replies: string -> SemReply, order: seq<string>): (r: Academic)
    requires IsCompletionOrder(order)
    ensures r.details != NoDetails
    ensures forall s :: s in Semesters ==> (Contributes(replies(s)) <==> exists i :: 0 <= i < |r.results| && r.results[i].0 == s)
    ensures forall i :: 0 <= i < |r.results| ==> r.results[i].0 in Semesters && Contributes(replies(r.results[i].0))
                                                 && r.results[i].1 == replies(r.results[i].0).value.acc.result
    ensures InOrderOf(Semesters, r.results)
  {
    SemestersDistinct();
    CollectOrdered(Semesters, replies);
    var d := FirstDetails(replies, order);
    Academic(if d == NoDetails then InvalidOnly else d, Collect(Semesters, replies))
  }

  /** The details are the first giving reply's in completion order; with
      none, only the invalid sentinel. */
  lemma AssembleDetails(replies: string -> SemReply, order: seq<string>)
    requires IsCompletionOrder(order)
    ensures (forall s :: s in Semesters ==> !GivesDetails(replies(s))) ==> Assemble(replies, order).details == InvalidOnly
    ensures (exists s :: s in Semesters && GivesDetails(replies(s))) ==>
              exists i :: 0 <= i < |order| && GivesDetails(replies(order[i]))
                          && Assemble(replies, order).details == replies(order[i]).value.acc.details
                          && forall j :: 0 <= j < i ==> !GivesDetails(replies(order[j]))
  {
    FirstDetailsIsFirst(replies, order);
    CompletionOrderMembers(order);
  }

  /** When every giving reply reports the same details, the kept details
      are those, or empty when nothing gives any. */
  lemma {:induction false} FirstDetailsAgree(replies: string -> SemReply, order: seq<string>, d: Details)
    requires forall s :: s in order && GivesDetails(replies(s)) ==> replies(s).value.acc.details == d
    ensures FirstDetails(replies, order) == if exists s :: s in order && GivesDetails(replies(s)) then d else NoDetails
  {
    if order != [] && !GivesDetails(replies(order[0])) {
      assert forall s :: s in order ==> s == order[0] || s in order[1..];
      FirstDetailsAgree(replies, order[1..], d);
    }
  }

  /** A completion order holds exactly the eight semesters. */
  lemma CompletionOrderMembers(order: seq<string>)
    requires IsCompletionOrder(order)
    ensures forall s :: s in order <==> s in Semesters
  {
    forall s ensures s in order <==> s in Semesters {
      assert s in multiset(Semesters) <==> s in multiset(order);
    }
  }

  /** Only the details can depend on completion order, and not even they
      when every giving semester reports the same details. */
  lemma CompletionOrderIrrelevant(replies: string -> SemReply, order: seq<string>, other: seq<string>, d: Details)
    requires IsCompletionOrder(order) && IsCompletionOrder(other)
    requires forall s :: s in Semesters && GivesDetails(replies(s)) ==> replies(s).value.acc.details == d
    ensures Assemble(replies, order) == Assemble(replies, other)
  {
    CompletionOrderMembers(order);
    CompletionOrderMembers(other);
    FirstDetailsAgree(replies, order, d);
    FirstDetailsAgree(replies, other, d);
    assert (exists s :: s in order && GivesDetails(replies(s))) == (exists s :: s in other && GivesDetails(replies(s)));
  }

  /** Every semester asked of a fresh instance. */
  function SemesterReplies(codes: Dir, roll: string, fetch: Request -> Response): string -> SemReply
  {
    sem => ResultSem.ForSemester(codes, roll, sem, fetch)
  }

  /** `get_cached_result(roll_number)` with the completion order the
      thread pool happened to produce. */
  function GetAcademic(codes: Dir, roll: string, fetch: Request -> Response, order: seq<string>): (r: Academic)
    requires IsCompletionOrder(order)
    ensures forall i :: 0 <= i < |r.results| ==> r.results[i].1 != map[]
  {
    Assemble(SemesterReplies(codes, roll, fetch), order)
  }

  /** A lateral-entry student's academic report holds no first-year
      semester. */
  lemma LateralHasNoFirstYear(codes: Dir, roll: string, fetch: Request -> Response, order: seq<string>)
    requires IsCompletionOrder(order)
    requires Classify(roll).Ok? && Classify(roll).value.lateral
    ensures forall i :: 0 <= i < |GetAcademic(codes, roll, fetch, order).results| ==>
              GetAcademic(codes, roll, fetch, order).results[i].0 !in ResultSem.FirstYear
  {
    var replies := SemesterReplies(codes, roll, fetch);
    forall s | s in ResultSem.FirstYear ensures !Contributes(replies(s)) {
      var a := ResultSem.GetResult(ResultSem.NewInstance(codes), roll, s, fetch);
      assert a.reply.Raised? || a.reply == Ok(ResultSem.NoData);
    }
  }
}
