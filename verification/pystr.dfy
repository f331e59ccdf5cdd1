/** The few Python string operations the scraper relies on, on `string`
    (a sequence of code points): substring search (`s.find`, `in`),
    clamped slicing, `int()` on a short string, and the code-point order
    that `sorted` uses for strings. */
module PyStr {
  import opened Wrappers

  /** `p` occurs in `s` starting at index `i`. */
  predicate OccursAt(s: string, p: string, i: nat)
  {
    i + |p| <= |s| && s[i..i + |p|] == p
  }

  /** Python's `s.find(p)`: the index of the first occurrence of `p`, or -1. */
  function Find(s: string, p: string): (r: int)
    ensures -1 <= r <= |s|
    ensures r >= 0 ==> OccursAt(s, p, r)
    ensures forall i: nat :: (r < 0 || i < r) ==> !OccursAt(s, p, i)
  {
    FindFrom(s, p, 0)
  }

  function FindFrom(s: string, p: string, k: nat): (r: int)
    requires k <= |s| + 1
    ensures r == -1 || (k <= r <= |s| && OccursAt(s, p, r))
    ensures forall i: nat :: k <= i && (r < 0 || i < r) ==> !OccursAt(s, p, i)
    decreases |s| + 1 - k
  {
    if k + |p| > |s| then -1
    else if s[k..k + |p|] == p then k
    else FindFrom(s, p, k + 1)
  }

  /** Python's `p in s` for two strings. */
  predicate Contains(s: string, p: string)
  {
    ContainsFrom(s, p, 0)
  }

  /** `p` occurs in `s` at index `k` or later. */
  predicate ContainsFrom(s: string, p: string, k: nat)
    decreases |s| - k
  {
    k + |p| <= |s| && (s[k..k + |p|] == p || ContainsFrom(s, p, k + 1))
  }

  lemma {:induction false} ContainsFromIff(s: string, p: string, k: nat)
    ensures ContainsFrom(s, p, k) <==> exists i: nat :: k <= i && OccursAt(s, p, i)
    decreases |s| - k
  {
    if k + |p| <= |s| {
      ContainsFromIff(s, p, k + 1);
      if s[k..k + |p|] == p {
        assert OccursAt(s, p, k);
      }
      if exists i: nat :: k <= i && OccursAt(s, p, i) {
        var i: nat :| k <= i && OccursAt(s, p, i);
        if i > k { assert k + 1 <= i; }
      }
    }
  }

  /** `Contains` is plain substring occurrence, and agrees with `Find`. */
  lemma ContainsIff(s: string, p: string)
    ensures Contains(s, p) <==> exists i: nat :: OccursAt(s, p, i)
    ensures Contains(s, p) <==> Find(s, p) >= 0
  {
    ContainsFromIff(s, p, 0);
    var f := Find(s, p);
    if f >= 0 {
      assert OccursAt(s, p, f as nat);
    }
    if Contains(s, p) {
      var i: nat :| OccursAt(s, p, i);
    }
  }

  /** Python's `s[lo:hi]` for non-negative bounds: both ends are clamped to `|s|`. */
  function Slice(s: string, lo: nat, hi: nat): (r: string)
    requires lo <= hi
    ensures |r| == (if hi <= |s| then hi - lo else if lo <= |s| then |s| - lo else 0)
    ensures forall j :: 0 <= j < |r| ==> r[j] == s[lo + j]
  {
    if lo >= |s| then "" else if hi >= |s| then s[lo..] else s[lo..hi]
  }

  /** The ASCII whitespace that `int()` strips (tab, line feed, vertical tab,
      form feed, carriage return, space). */
  predicate IsSpace(c: char)
  {
    c == ' ' || (9 <= c as int <= 13)
  }

  predicate IsDigit(c: char)
  {
    '0' <= c <= '9'
  }

  /** `str.lstrip()`: the leading whitespace, and nothing else, removed. */
  function StripLeft(s: string): (r: string)
    ensures |r| <= |s| && r == s[|s| - |r|..]
    ensures r == [] || !IsSpace(r[0])
    ensures forall i :: 0 <= i < |s| - |r| ==> IsSpace(s[i])
  {
    if s != [] && IsSpace(s[0]) then
      var rest := StripLeft(s[1..]);
      assert forall i :: 1 <= i < |s| ==> s[i] == s[1..][i - 1];
      rest
    else s
  }

  /** `str.rstrip()`: the trailing whitespace, and nothing else, removed. */
  function StripRight(s: string): (r: string)
    ensures |r| <= |s| && r == s[..|r|]
    ensures r == [] || !IsSpace(r[|r| - 1])
    ensures forall i :: |r| <= i < |s| ==> IsSpace(s[i])
  {
    if s != [] && IsSpace(s[|s| - 1]) then StripRight(s[..|s| - 1]) else s
  }

  /** Every character is a decimal digit. */
  predicate AllDigits(s: string)
  {
    s == [] || (IsDigit(s[|s| - 1]) && AllDigits(s[..|s| - 1]))
  }

  lemma {:induction false} AllDigitsIff(s: string)
    ensures AllDigits(s) <==> forall j :: 0 <= j < |s| ==> IsDigit(s[j])
  {
    if s != [] {
      var init := s[..|s| - 1];
      AllDigitsIff(init);
      assert forall j :: 0 <= j < |init| ==> init[j] == s[j];
    }
  }

  /** The value of a string of decimal digits, most significant first. */
  function DigitsValue(s: string): (v: nat)
    requires AllDigits(s)
  {
    if s == [] then 0
    else DigitsValue(s[..|s| - 1]) * 10 + (s[|s| - 1] as int - '0' as int)
  }

  /** Python's `int(s)` on ASCII input: surrounding whitespace, one optional
      sign and at least one decimal digit; anything else raises `ValueError`
      (here `None`). */
  function ParseInt(s: string): Option<int>
  {
    ParseSigned(StripRight(StripLeft(s)))
  }

  /** `int()` after the whitespace is stripped: one optional sign, then
      decimal digits only. */
  function ParseSigned(t: string): Option<int>
  {
    var signed := t != [] && (t[0] == '-' || t[0] == '+');
    var digits := if signed then t[1..] else t;
    if digits != [] && AllDigits(digits) then
      var v: int := DigitsValue(digits);
      Some(if signed && t[0] == '-' then -v else v)
    else
      None
  }

  /** A string that neither starts nor ends with whitespace is left as it is. */
  lemma StripNothing(s: string)
    requires s != [] && !IsSpace(s[0]) && !IsSpace(s[|s| - 1])
    ensures StripRight(StripLeft(s)) == s
  {
  }

  lemma TwoDigitsValue(s: string)
    requires |s| == 2 && IsDigit(s[0]) && IsDigit(s[1])
    ensures AllDigits(s)
    ensures DigitsValue(s) == (s[0] as int - '0' as int) * 10 + (s[1] as int - '0' as int)
  {
    var init := s[..1];
    assert init[0] == s[0] && init[..0] == [];
    assert AllDigits(init);
    assert DigitsValue(init) == s[0] as int - '0' as int;
  }

  /** The value of one decimal digit. */
  function Digit(c: char): int
  {
    c as int - '0' as int
  }

  /** `int()` on exactly two ASCII characters, case by case: two digits, a
      digit with whitespace on either side, or a sign and a digit. Anything
      else raises (`None`). */
  function ParseTwoChars(t: string): Option<int>
    requires |t| == 2
  {
    var a, b := t[0], t[1];
    if IsDigit(a) && IsDigit(b) then Some(Digit(a) * 10 + Digit(b))
    else if IsDigit(a) && IsSpace(b) then Some(Digit(a))
    else if IsSpace(a) && IsDigit(b) then Some(Digit(b))
    else if a == '+' && IsDigit(b) then Some(Digit(b))
    else if a == '-' && IsDigit(b) then Some(-Digit(b))
    else None
  }

  /** One character after stripping: gone if it is whitespace. */
  lemma StripOne(c: char)
    ensures StripRight(StripLeft([c])) == if IsSpace(c) then [] else [c]
  {
    assert [c][1..] == [];
    assert [c][..0] == [];
  }

  /** `int()` of one character: a digit's value, else a raise. */
  lemma ParseOne(c: char)
    requires !IsSpace(c)
    ensures ParseSigned([c]) == if IsDigit(c) then Some(Digit(c)) else None
  {
    var t := [c];
    assert t[0] == c && t[1..] == [] && t[..0] == [];
    if IsDigit(c) {
      assert AllDigits(t);
      assert DigitsValue(t) == Digit(c);
    } else {
      assert !AllDigits(t);
    }
  }

  /** A two-character string with whitespace in front is the second
      character alone. */
  lemma LeadingSpace(t: string)
    requires |t| == 2 && IsSpace(t[0])
    ensures ParseInt(t) == if IsSpace(t[1]) then None else ParseSigned([t[1]])
  {
    assert t[1..] == [t[1]];
    assert StripLeft(t) == StripLeft([t[1]]);
    StripOne(t[1]);
  }

  /** A two-character string with whitespace behind is the first character
      alone. */
  lemma TrailingSpace(t: string)
    requires |t| == 2 && !IsSpace(t[0]) && IsSpace(t[1])
    ensures ParseInt(t) == ParseSigned([t[0]])
  {
    assert StripLeft(t) == t;
    assert t[..1] == [t[0]];
    assert StripRight(t) == StripRight([t[0]]);
    StripOne(t[0]);
  }

  /** Two non-space characters: a sign and a digit, or two digits. */
  lemma NoSpace(t: string)
    requires |t| == 2 && !IsSpace(t[0]) && !IsSpace(t[1])
    ensures ParseTwoChars(t) == ParseInt(t)
  {
    StripNothing(t);
    var a, b := t[0], t[1];
    if IsDigit(a) && IsDigit(b) {
      TwoDigitsValue(t);
    } else if a == '+' || a == '-' {
      assert t[1..] == [b];
      ParseOne(b);
    } else {
      AllDigitsIff(t);
    }
  }

  /** The case table agrees with the general `int()` on every two-character
      string. */
  lemma ParseTwoCharsIsInt(t: string)
    requires |t| == 2
    ensures ParseTwoChars(t) == ParseInt(t)
  {
    if IsSpace(t[0]) {
      LeadingSpace(t);
      if !IsSpace(t[1]) { ParseOne(t[1]); }
    } else if IsSpace(t[1]) {
      TrailingSpace(t);
      ParseOne(t[0]);
    } else {
      NoSpace(t);
    }
  }

  /** Python's `a <= b` on strings: lexicographic on code points, with a
      proper prefix ordered first. */
  predicate LexLe(a: string, b: string)
    decreases |a|
  {
    |a| == 0 || (|b| > 0 && (a[0] < b[0] || (a[0] == b[0] && LexLe(a[1..], b[1..]))))
  }

  lemma {:induction false} LexLeTotal(a: string, b: string)
    ensures LexLe(a, b) || LexLe(b, a)
    decreases |a|
  {
    if |a| > 0 && |b| > 0 && a[0] == b[0] {
      LexLeTotal(a[1..], b[1..]);
    }
  }

  lemma {:induction false} LexLeTrans(a: string, b: string, c: string)
    requires LexLe(a, b) && LexLe(b, c)
    ensures LexLe(a, c)
    decreases |a|
  {
    if |a| > 0 && a[0] == b[0] && b[0] == c[0] {
      LexLeTrans(a[1..], b[1..], c[1..]);
    }
  }

  lemma {:induction false} LexLeAntisym(a: string, b: string)
    requires LexLe(a, b) && LexLe(b, a)
    ensures a == b
    decreases |a|
  {
    if |a| > 0 {
      LexLeAntisym(a[1..], b[1..]);
      assert a == [a[0]] + a[1..] && b == [b[0]] + b[1..];
    }
  }
}
