/** The exam-code directory's shape: degree -> regulation -> semester ->
    list of exam codes. The innermost level is a Python dict whose key
    order matters (it is sorted, and iterated when building requests), so
    it is an association list in insertion order; the outer two levels are
    plain maps. */
module Directory {
  import opened Wrappers
  import opened Sorting

  /** The eight semester labels in canonical order. */
  const Semesters: seq<string> := ["1-1", "1-2", "2-1", "2-2", "3-1", "3-2", "4-1", "4-2"]

  /** The two degrees, as dict keys and as the portal's `degree` parameter. */
  const BTech := "btech"
  const BPharmacy := "bpharmacy"

  /** One regulation's semester -> exam codes dict, in insertion order. */
  type SemMap = seq<(string, seq<string>)>

  /** degree -> regulation -> semester dict. */
  type Dir = map<string, map<string, SemMap>>

  function Keys(sm: SemMap): (r: seq<string>)
    ensures |r| == |sm|
    ensures forall i :: 0 <= i < |sm| ==> r[i] == sm[i].0
  {
    if sm == [] then [] else [sm[0].0] + Keys(sm[1..])
  }

  /** A dict has each key once. */
  predicate UniqueKeys(sm: SemMap)
  {
    NoDup(Keys(sm))
  }

  /** `sm.get(k)`: the value stored under `k`, if any. */
  function Get(sm: SemMap, k: string): (r: Option<seq<string>>)
    ensures r.Some? <==> k in Keys(sm)
  {
    if sm == [] then None
    else if sm[0].0 == k then Some(sm[0].1)
    else
      assert Keys(sm) == [sm[0].0] + Keys(sm[1..]);
      Get(sm[1..], k)
  }

  /** A lookup returns a value that is stored under that key. */
  lemma {:induction false} GetStored(sm: SemMap, k: string)
    requires Get(sm, k).Some?
    ensures (k, Get(sm, k).value) in sm
  {
    if sm[0].0 != k {
      GetStored(sm[1..], k);
    }
  }

  /** In a dict every stored pair is what a lookup of its key returns. */
  lemma {:induction false} GetAt(sm: SemMap, i: nat)
    requires UniqueKeys(sm) && i < |sm|
    ensures Get(sm, sm[i].0) == Some(sm[i].1)
  {
    if i > 0 {
      NoDupDistinct(Keys(sm), 0, i);
      assert Keys(sm[1..]) == Keys(sm)[1..];
      NoDupTail(Keys(sm));
      GetAt(sm[1..], i - 1);
    }
  }

  /** `code` is listed under `sem`. */
  predicate Listed(sm: SemMap, sem: string, code: string)
  {
    Get(sm, sem).Some? && code in Get(sm, sem).value
  }

  lemma KeysCons(e: (string, seq<string>), sm: SemMap)
    ensures Keys([e] + sm) == [e.0] + Keys(sm)
  {
    assert ([e] + sm)[1..] == sm;
  }

  /** `sm[k] = v`: replaces the value in place, or appends a new key at the end. */
  function Set(sm: SemMap, k: string, v: seq<string>): (r: SemMap)
    ensures Keys(r) == if k in Keys(sm) then Keys(sm) else Keys(sm) + [k]
    ensures Get(r, k) == Some(v)
    ensures forall k' :: k' != k ==> Get(r, k') == Get(sm, k')
  {
    if sm == [] then [(k, v)]
    else
      var rest := if sm[0].0 == k then sm[1..] else Set(sm[1..], k, v);
      var head := if sm[0].0 == k then (k, v) else sm[0];
      KeysCons(head, rest);
      KeysCons(sm[0], sm[1..]);
      assert ([head] + rest)[0] == head && ([head] + rest)[1..] == rest;
      assert sm == [sm[0]] + sm[1..];
      [head] + rest
  }

  /** Setting a key keeps a dict a dict. */
  lemma SetUnique(sm: SemMap, k: string, v: seq<string>)
    requires UniqueKeys(sm)
    ensures UniqueKeys(Set(sm, k, v))
  {
    if k !in Keys(sm) {
      NoDupAppend(Keys(sm), k);
    }
  }

  /** `sm.pop(k)` with the value discarded; a missing key raises `KeyError` (`None`). */
  function Pop(sm: SemMap, k: string): (r: Option<SemMap>)
    ensures r.Some? <==> k in Keys(sm)
    ensures r.Some? ==> k !in Keys(r.value)
    ensures r.Some? ==> forall k' :: k' != k ==> Get(r.value, k') == Get(sm, k')
    ensures r.Some? ==> forall e :: e in r.value ==> e in sm
    ensures r.Some? ==> Keys(r.value) == Without(Keys(sm), k)
  {
    if k in Keys(sm) then Some(Drop(sm, k)) else None
  }

  /** Every entry under `k` removed; the others keep their order. */
  function Drop(sm: SemMap, k: string): (r: SemMap)
    ensures k !in Keys(r)
    ensures forall k' :: k' != k ==> Get(r, k') == Get(sm, k')
    ensures forall e :: e in r ==> e in sm
    ensures Keys(r) == Without(Keys(sm), k)
  {
    if sm == [] then []
    else
      var rest := Drop(sm[1..], k);
      assert Keys(sm) == [sm[0].0] + Keys(sm[1..]);
      if sm[0].0 == k then rest
      else
        assert Keys([sm[0]] + rest) == [sm[0].0] + Keys(rest);
        [sm[0]] + rest
  }
}
