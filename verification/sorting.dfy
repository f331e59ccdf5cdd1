/** Python's `sorted` on a list of strings, and the duplicate-freedom and
    order facts the exam-code directory keeps. */
module Sorting {
  import opened PyStr

  /** Ascending in Python's string order. */
  predicate Sorted(s: seq<string>)
  {
    forall i, j :: 0 <= i < j < |s| ==> LexLe(s[i], s[j])
  }

  /** Every element occurs exactly once. */
  predicate NoDup<T(==)>(s: seq<T>)
  {
    forall x | x in multiset(s) :: multiset(s)[x] == 1
  }

  /** Ascending with no repeats: each element strictly below the next. */
  predicate StrictlySorted(s: seq<string>)
  {
    forall i, j :: 0 <= i < j < |s| ==> LexLe(s[i], s[j]) && s[i] != s[j]
  }

  /** Two equal positions would make an element occur twice. */
  lemma NoDupDistinct<T>(s: seq<T>, i: nat, j: nat)
    requires NoDup(s) && i < j < |s|
    ensures s[i] != s[j]
  {
    var x := s[i];
    assert s == s[..j] + s[j..];
    assert x in multiset(s[..j]) by { assert s[..j][i] == x; }
    assert s[j] in multiset(s[j..]) by { assert s[j..][0] == s[j]; }
    assert multiset(s)[x] == multiset(s[..j])[x] + multiset(s[j..])[x];
  }

  /** Pairwise distinct elements occur once each. */
  lemma DistinctNoDup<T>(s: seq<T>)
    requires forall i, j :: 0 <= i < j < |s| ==> s[i] != s[j]
    ensures NoDup(s)
  {
    forall x | x in multiset(s) ensures multiset(s)[x] == 1 {
      var i :| 0 <= i < |s| && s[i] == x;
      assert s == s[..i] + [x] + s[i + 1..];
      assert x !in s[..i] && x !in s[i + 1..] by {
        forall j | 0 <= j < |s| && j != i ensures s[j] != x {
          if j < i { assert s[j] != s[i]; } else { assert s[i] != s[j]; }
        }
      }
      assert multiset(s) == multiset(s[..i]) + multiset{x} + multiset(s[i + 1..]);
    }
  }

  /** The tail of a duplicate-free list is duplicate-free. */
  lemma NoDupTail<T>(s: seq<T>)
    requires NoDup(s) && s != []
    ensures NoDup(s[1..])
  {
    assert s == [s[0]] + s[1..];
    assert multiset(s) == multiset{s[0]} + multiset(s[1..]);
    forall x | x in multiset(s[1..]) ensures multiset(s[1..])[x] == 1 {
      assert x in multiset(s);
    }
  }

  /** Sorted and duplicate-free is strictly ascending. */
  lemma SortedNoDupStrict(s: seq<string>)
    requires Sorted(s) && NoDup(s)
    ensures StrictlySorted(s)
  {
    forall i, j | 0 <= i < j < |s| ensures s[i] != s[j] {
      NoDupDistinct(s, i, j);
    }
  }

  /** Appending an element not yet present keeps a list duplicate-free
      (`if code not in codes: codes.append(code)`). */
  lemma NoDupAppend<T>(s: seq<T>, x: T)
    requires NoDup(s) && x !in s
    ensures NoDup(s + [x])
  {
    assert multiset(s + [x]) == multiset(s) + multiset{x};
  }

  /** Inserts `x` in front of the first element it does not exceed. */
  function Insert(x: string, s: seq<string>): (r: seq<string>)
    requires Sorted(s)
    ensures Sorted(r)
    ensures multiset(r) == multiset(s) + multiset{x}
  {
    if s == [] then [x]
    else if LexLe(x, s[0]) then
      forall j | 0 <= j < |s| ensures LexLe(x, s[j]) {
        if j > 0 { LexLeTrans(x, s[0], s[j]); }
      }
      [x] + s
    else
      var rest := Insert(x, s[1..]);
      LexLeTotal(x, s[0]);
      assert s == [s[0]] + s[1..];
      forall j | 0 <= j < |rest| ensures LexLe(s[0], rest[j]) {
        assert rest[j] in multiset(rest);
        if rest[j] != x {
          assert rest[j] in multiset(s[1..]);
          var k :| 0 <= k < |s[1..]| && s[1..][k] == rest[j];
          assert s[k + 1] == rest[j];
        }
      }
      [s[0]] + rest
  }

  /** Python's `sorted(s)`: an ascending permutation of `s`. */
  function Sort(s: seq<string>): (r: seq<string>)
    ensures Sorted(r)
    ensures multiset(r) == multiset(s)
  {
    if s == [] then []
    else
      assert s == [s[0]] + s[1..];
      Insert(s[0], Sort(s[1..]))
  }

  /** A permutation of a duplicate-free list is duplicate-free. */
  lemma NoDupPermutation<T>(s: seq<T>, t: seq<T>)
    requires NoDup(s) && multiset(s) == multiset(t)
    ensures NoDup(t)
  {
  }

  /** `[c for c in s if c != bad]`. */
  function Without(s: seq<string>, bad: string): (r: seq<string>)
    ensures forall c :: c in r <==> c in s && c != bad
    ensures multiset(r) == multiset(s)[bad := 0]
  {
    if s == [] then []
    else
      assert s == [s[0]] + s[1..];
      if s[0] == bad then Without(s[1..], bad) else [s[0]] + Without(s[1..], bad)
  }

  /** Filtering distributes over concatenation, so the remaining codes keep
      their relative order. */
  lemma {:induction false} WithoutConcat(a: seq<string>, b: seq<string>, bad: string)
    ensures Without(a + b, bad) == Without(a, bad) + Without(b, bad)
  {
    if a == [] {
      assert a + b == b;
    } else {
      assert (a + b)[0] == a[0] && (a + b)[1..] == a[1..] + b;
      WithoutConcat(a[1..], b, bad);
    }
  }

  /** Removing codes keeps a list ascending and duplicate-free. */
  lemma {:induction false} WithoutSortedNoDup(s: seq<string>, bad: string)
    requires Sorted(s) && NoDup(s)
    ensures Sorted(Without(s, bad)) && NoDup(Without(s, bad))
  {
    WithoutSorted(s, bad);
  }

  lemma {:induction false} WithoutSorted(s: seq<string>, bad: string)
    requires Sorted(s)
    ensures Sorted(Without(s, bad))
  {
    if s != [] {
      var t := s[1..];
      assert Sorted(t);
      WithoutSorted(t, bad);
      if s[0] != bad {
        var w := Without(t, bad);
        assert Without(s, bad) == [s[0]] + w;
        forall j | 0 <= j < |w| ensures LexLe(s[0], w[j]) {
          assert w[j] in t;
          var k :| 0 <= k < |t| && t[k] == w[j];
          assert s[k + 1] == w[j];
        }
      }
    }
  }
}
