/** Roll-number classification, written out identically in
    `executable/ResultSem.py`, `executable/Results.py` and
    `executable/SemResult.py`: characters 0-1 are the two-digit year,
    character 4 is '5' for lateral entry, character 5 is 'A' for btech. */
module Roll {
  import opened Wrappers
  import opened PyStr
  import opened Directory

  datatype Classification = Classification(degree: string, regulation: string, lateral: bool)

  /** `int(roll[:2])`, `roll[5]` and `roll[4]` as the source evaluates them.
      A roll shorter than six characters raises `IndexError` and a
      non-numeric year raises `ValueError`. */
  function Classify(roll: string): (r: Result<Classification>)
    ensures r.Ok? <==> |roll| >= 6 && ParseTwoChars(roll[..2]).Some?
    ensures r.Ok? ==> (r.value.degree == BTech <==> roll[5] == 'A')
    ensures r.Ok? ==> r.value.degree in {BTech, BPharmacy}
    ensures r.Ok? ==> var year := ParseTwoChars(roll[..2]).value;
                      (r.value.regulation == "R22" <==> year >= 23 || (year == 22 && roll[4] != '5'))
    ensures r.Ok? && r.value.regulation != "R22" ==>
              r.value.regulation == (if r.value.degree == BTech then "R18" else "R17")
    ensures r.Ok? ==> (r.value.lateral <==> roll[4] == '5')
  {
    if |roll| < 6 then Raised
    else
      match ParseTwoChars(roll[..2])
      case None => Raised
      case Some(year) => Ok(FromParts(year, roll[4], roll[5]))
  }

  /** The year `Classify` reads is Python's `int()` of the first two
      characters, so it raises exactly when `int()` does. */
  lemma ClassifyUsesInt(roll: string)
    requires |roll| >= 6
    ensures Classify(roll).Ok? <==> ParseInt(roll[..2]).Some?
    ensures Classify(roll).Ok? ==> Classify(roll).value == FromParts(ParseInt(roll[..2]).value, roll[4], roll[5])
  {
    var t := roll[..2];
    assert Classify(roll) == if ParseTwoChars(t).Some? then Ok(FromParts(ParseTwoChars(t).value, roll[4], roll[5])) else Raised;
    ParseTwoCharsIsInt(t);
  }

  /** The classification once the year, the entry marker and the degree
      marker have been read. */
  function FromParts(year: int, entry: char, mark: char): Classification
  {
    var degree := if mark == 'A' then BTech else BPharmacy;
    var regulation :=
      if year >= 23 || (year == 22 && entry != '5') then "R22"
      else if degree == BTech then "R18" else "R17";
    Classification(degree, regulation, entry == '5')
  }

  /** A roll opening with two digits always classifies, and its year is
      those two digits. */
  lemma DigitYear(roll: string)
    requires |roll| >= 6 && IsDigit(roll[0]) && IsDigit(roll[1])
    ensures Classify(roll) == Ok(FromParts(Digit(roll[0]) * 10 + Digit(roll[1]), roll[4], roll[5]))
  {
    var t := roll[..2];
    assert t[0] == roll[0] && t[1] == roll[1];
  }

  /** A regular btech roll of 2020 is on R18. */
  lemma ClassifyBTech2020(roll: string)
    requires |roll| >= 6 && roll[0] == '2' && roll[1] == '0'
    requires roll[4] != '5' && roll[5] == 'A'
    ensures Classify(roll) == Ok(Classification(BTech, "R18", false))
  {
    DigitYear(roll);
  }

  /** A btech roll of 2023, regular or lateral, is on R22. */
  lemma ClassifyBTech2023(roll: string)
    requires |roll| >= 6 && roll[0] == '2' && roll[1] == '3'
    requires roll[5] == 'A'
    ensures Classify(roll) == Ok(Classification(BTech, "R22", roll[4] == '5'))
  {
    DigitYear(roll);
  }

  /** A regular btech roll of 2022 is on R22. */
  lemma ClassifyRegular2022(roll: string)
    requires |roll| >= 6 && roll[0] == '2' && roll[1] == '2'
    requires roll[4] != '5' && roll[5] == 'A'
    ensures Classify(roll) == Ok(Classification(BTech, "R22", false))
  {
    DigitYear(roll);
  }

  /** A lateral-entry btech roll of 2022 stays on R18. */
  lemma ClassifyLateral2022(roll: string)
    requires |roll| >= 6 && roll[0] == '2' && roll[1] == '2'
    requires roll[4] == '5' && roll[5] == 'A'
    ensures Classify(roll) == Ok(Classification(BTech, "R18", true))
  {
    DigitYear(roll);
  }

  /** A pharmacy roll of 2021 falls back to R17 instead of R18. */
  lemma ClassifyPharmacy2021(roll: string)
    requires |roll| >= 6 && roll[0] == '2' && roll[1] == '1'
    requires roll[4] != '5' && roll[5] != 'A'
    ensures Classify(roll) == Ok(Classification(BPharmacy, "R17", false))
  {
    DigitYear(roll);
  }

  /** A roll number whose first two characters are letters has no year:
      `int()` raises `ValueError`. */
  lemma NonNumericYearRaises(roll: string)
    requires |roll| >= 6 && 'A' <= roll[0] <= 'Z' && 'A' <= roll[1] <= 'Z'
    ensures Classify(roll) == Raised
  {
    var t := roll[..2];
    assert t[0] == roll[0] && t[1] == roll[1];
  }
}
