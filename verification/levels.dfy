/**
 * `extract_citi_levels`: the section, division and group of one activity
 * code, read off the leading characters of its text.
 */
module Levels {
  import opened Wrappers
  import opened IntParse
  import opened Sections

  datatype Levels = Levels(section: Option<string>, division: Option<string>, group: Option<string>)

  function ExtractLevels(code: string): (r: Levels)
    ensures |code| < 2 <==> r.division.None?
    ensures |code| < 2 ==> r == Levels(None, None, None)
    ensures r.division.Some? ==> |r.division.value| == 2 && r.division.value <= code
    ensures r.division.Some? ==> r.section == GetSection(r.division.value)
    ensures r.group.Some? <==> |code| >= 3
    ensures r.group.Some? ==> |r.group.value| == 3 && r.group.value <= code
    ensures r.group.Some? ==> r.division.Some? && r.division.value <= r.group.value
    ensures r.section.Some? ==> r.division.Some?
  {
    if |code| < 2 then Levels(None, None, None)
    else
      var division := code[..2];
      var group := if |code| >= 3 then Some(code[..3]) else None;
      Levels(GetSection(division), Some(division), group)
  }

  /** A code of at least two ASCII digits is filed under the section of its first two. */
  lemma SectionOfDigitCode(code: string, n: int)
    requires |code| >= 2 && IsDigit(code[0]) && IsDigit(code[1])
    requires n == 10 * DigitValue(code[0]) + DigitValue(code[1])
    ensures ExtractLevels(code).section == SectionOf(n)
  {
    GetSectionOfDigits(code[..2], n);
    SectionOfDivision(code, n);
  }

  lemma SectionOfDivision(code: string, n: int)
    requires |code| >= 2 && GetSection(code[..2]) == SectionOf(n)
    ensures ExtractLevels(code).section == SectionOf(n)
  {
  }

  /** A wholesale code opening with 471, such as 4711 or 4712, is in group 471 of division 47, section G. */
  lemma LevelsOfGroup471(code: string)
    requires |code| >= 3 && code[..3] == "471"
    ensures ExtractLevels(code) == Levels(Some("G"), Some("47"), Some("471"))
  {
    assert code[0] == '4' && code[1] == '7';
    SectionOfDigitCode(code, 47);
    assert SectionOf(47) == Some("G");
    assert code[..2] == "47";
  }

  /** Software publishing code 6201 is in group 620 of division 62, section J. */
  lemma LevelsOf6201(code: string)
    requires code == "6201"
    ensures ExtractLevels(code) == Levels(Some("J"), Some("62"), Some("620"))
  {
    SectionOfDigitCode(code, 62);
    assert SectionOf(62) == Some("J");
    assert code[..2] == "62" && code[..3] == "620";
  }

  /** Division 20 lies in the widened section B, so code 203 is kept with a section. */
  lemma LevelsOf203(code: string)
    requires code == "203"
    ensures ExtractLevels(code) == Levels(Some("B"), Some("20"), Some("203"))
  {
    SectionOfDigitCode(code, 20);
    assert SectionOf(20) == Some("B");
    assert code[..2] == "20" && code[..3] == code;
  }

  /** A two-character code has a division and a section but no group. */
  lemma LevelsOf62(code: string)
    requires code == "62"
    ensures ExtractLevels(code) == Levels(Some("J"), Some("62"), None)
  {
    SectionOfDigitCode(code, 62);
    assert SectionOf(62) == Some("J");
    assert code[..2] == "62";
  }

  /** A code printed from a float keeps the levels of its leading digits. */
  lemma LevelsOf4711Float(printed: string, code: string)
    requires printed == "4711.0" && code == "4711"
    ensures ExtractLevels(printed) == ExtractLevels(code)
  {
    assert printed[..2] == code[..2] && printed[..3] == code[..3];
  }

  /** A one-digit code yields no level at all. */
  lemma LevelsOf7(code: string)
    requires code == "7"
    ensures ExtractLevels(code) == Levels(None, None, None)
  {
  }
}
