/**
 * `get_section`: from a two-character division to the letter of its
 * section. The ranges follow the section/division structure of ISIC Rev.4
 * (CITI in French), except that every division from 05 to 39 is put in
 * section B, so the letters C, D and E never come out.
 */
module Sections {
  import opened Wrappers
  import opened IntParse

  /** The eighteen letters the chain can return. */
  const SectionLetters: set<char> := {'A', 'B', 'F', 'G', 'H', 'I', 'J', 'K', 'L', 'M', 'N', 'O', 'P', 'Q', 'R', 'S', 'T', 'U'}

  /** The if/elif chain on the parsed division number. */
  function SectionOf(code: int): (r: Option<string>)
    ensures r.Some? ==> |r.value| == 1 && r.value[0] in SectionLetters
  {
    if 1 <= code <= 3 then Some("A")
    else if 5 <= code <= 39 then Some("B")
    else if 41 <= code <= 43 then Some("F")
    else if 45 <= code <= 47 then Some("G")
    else if 49 <= code <= 53 then Some("H")
    else if 55 <= code <= 56 then Some("I")
    else if 58 <= code <= 63 then Some("J")
    else if 64 <= code <= 66 then Some("K")
    else if 68 <= code <= 68 then Some("L")
    else if 69 <= code <= 75 then Some("M")
    else if 77 <= code <= 82 then Some("N")
    else if 84 <= code <= 84 then Some("O")
    else if 85 <= code <= 85 then Some("P")
    else if 86 <= code <= 88 then Some("Q")
    else if 90 <= code <= 93 then Some("R")
    else if 94 <= code <= 96 then Some("S")
    else if 97 <= code <= 98 then Some("T")
    else if 99 <= code <= 99 then Some("U")
    else None
  }

  /** `get_section(division)`: `None` when `int()` rejects the text, never an exception. */
  function GetSection(division: string): (r: Option<string>)
    ensures ParseInt(division).None? ==> r.None?
    ensures r.Some? ==> |r.value| == 1 && r.value[0] in SectionLetters
  {
    match ParseInt(division)
    case None => None
    case Some(code) => SectionOf(code)
  }

  /** One row of the section table: divisions `low` to `high`, both included, form section `letter`. */
  datatype SectionRange = SectionRange(low: int, high: int, letter: string)

  predicate Covers(row: SectionRange, code: int) {
    row.low <= code <= row.high
  }

  /** The eighteen ranges the chain tests, as a table in ascending order. */
  const SectionTable: seq<SectionRange> := [
    SectionRange(1, 3, "A"),   SectionRange(5, 39, "B"),  SectionRange(41, 43, "F"),
    SectionRange(45, 47, "G"), SectionRange(49, 53, "H"), SectionRange(55, 56, "I"),
    SectionRange(58, 63, "J"), SectionRange(64, 66, "K"), SectionRange(68, 68, "L"),
    SectionRange(69, 75, "M"), SectionRange(77, 82, "N"), SectionRange(84, 84, "O"),
    SectionRange(85, 85, "P"), SectionRange(86, 88, "Q"), SectionRange(90, 93, "R"),
    SectionRange(94, 96, "S"), SectionRange(97, 98, "T"), SectionRange(99, 99, "U")
  ]

  /** The ranges of the table are disjoint and ascending: no division has two sections. */
  lemma TableAscending()
    ensures forall i, j | 0 <= i < j < |SectionTable| :: SectionTable[i].high < SectionTable[j].low
  {
  }

  /**
   * The chain is a lookup in the table: a number gets a letter exactly when
   * one range covers it, and then it gets that range's letter.
   */
  lemma SectionOfMatchesTable(code: int)
    ensures SectionOf(code).None? <==> forall i | 0 <= i < |SectionTable| :: !Covers(SectionTable[i], code)
    ensures forall i | 0 <= i < |SectionTable| && Covers(SectionTable[i], code) ::
      SectionOf(code) == Some(SectionTable[i].letter)
  {
    SectionOfCovered(code);
    if forall i | 0 <= i < |SectionTable| :: !Covers(SectionTable[i], code) {
      SectionOfUncovered(code);
    }
  }

  /** A number some range covers gets that range's letter. */
  lemma SectionOfCovered(code: int)
    ensures forall i | 0 <= i < |SectionTable| && Covers(SectionTable[i], code) ::
      SectionOf(code) == Some(SectionTable[i].letter)
  {
    forall i | 0 <= i < |SectionTable| && Covers(SectionTable[i], code)
      ensures SectionOf(code) == Some(SectionTable[i].letter)
    {
      var row := SectionTable[i];
      assert row.low <= code <= row.high;
    }
  }

  /** A number no range covers gets no letter. */
  lemma SectionOfUncovered(code: int)
    requires forall i | 0 <= i < |SectionTable| :: !Covers(SectionTable[i], code)
    ensures SectionOf(code).None?
  {
    assert !Covers(SectionTable[0], code) && !Covers(SectionTable[1], code) && !Covers(SectionTable[2], code);
    assert !Covers(SectionTable[3], code) && !Covers(SectionTable[4], code) && !Covers(SectionTable[5], code);
    assert !Covers(SectionTable[6], code) && !Covers(SectionTable[7], code) && !Covers(SectionTable[8], code);
    assert !Covers(SectionTable[9], code) && !Covers(SectionTable[10], code) && !Covers(SectionTable[11], code);
    assert !Covers(SectionTable[12], code) && !Covers(SectionTable[13], code) && !Covers(SectionTable[14], code);
    assert !Covers(SectionTable[15], code) && !Covers(SectionTable[16], code) && !Covers(SectionTable[17], code);
  }

  /** Among divisions 00 to 99, exactly eleven have no section. */
  lemma UnmappedDivisions(code: int)
    requires 0 <= code <= 99
    ensures SectionOf(code).None? <==> code in {0, 4, 40, 44, 48, 54, 57, 67, 76, 83, 89}
  {
  }

  /** Outside 1 to 99 (a negative number, three digits after a sign) there is no section. */
  lemma OutOfRangeUnmapped(code: int)
    requires code < 1 || code > 99
    ensures SectionOf(code).None?
  {
  }

  /** Sections C, D and E of ISIC Rev.4 are never produced: their divisions fall in B. */
  lemma NoSectionsCDE(code: int)
    ensures SectionOf(code) != Some("C") && SectionOf(code) != Some("D") && SectionOf(code) != Some("E")
    ensures 10 <= code <= 39 ==> SectionOf(code) == Some("B")
  {
  }

  /** A division of two ASCII digits gets the section of the number they spell. */
  lemma GetSectionOfDigits(division: string, n: int)
    requires |division| == 2 && IsDigit(division[0]) && IsDigit(division[1])
    requires n == 10 * DigitValue(division[0]) + DigitValue(division[1])
    ensures GetSection(division) == SectionOf(n)
  {
    ParseTwoDigits(division);
  }

  /** A division printed from a number gets that number's section. */
  lemma GetSectionOfText(code: int)
    ensures GetSection(IntText(code)) == SectionOf(code)
  {
    ParseIntText(code);
  }

  /** Text `int()` rejects, such as a division that ends in a decimal point, has no section. */
  lemma GetSectionRejects(division: string, i: int)
    requires 0 <= i < |division|
    requires !(IsDigit(division[i]) || IntSpace(division[i]) || division[i] in "+-_")
    ensures GetSection(division).None?
  {
    if ParseInt(division).Some? {
      ParseIntCharset(division);
    }
  }

  /** A division opening with the separator U+001C has no section, though `str.isspace` calls it whitespace. */
  lemma GetSectionOfSeparator(division: string)
    requires |division| > 0 && division[0] == 28 as char
    ensures GetSection(division).None?
  {
    ParseIntRejectsSeparator(division);
  }
}
