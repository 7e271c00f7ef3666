/**
 * `process_row`: one company's row of (activity code, weight) cells becomes
 * a principal activity code (APE) and the list of its secondary codes.
 *
 * The pairs are read in column order; a pair is kept when its code is
 * present and its weight is positive. The section with the largest total
 * weight wins, then the heaviest division inside it, then the heaviest group
 * inside that division; the principal is a heaviest row of that group, and
 * every other kept code is secondary.
 */
module Classification {
  import opened Wrappers
  import opened Levels
  import opened Frames
  import opened TextOrder

  /** What `process_row` gives back, or where its `idxmax` raises. */
  datatype RowResult =
    | NoCandidates                                          // `(None, None)`: nothing kept
    | Classified(principal: string, secondaries: seq<string>)
    | NoSectionToRank                                       // no kept code has a section
    | NoGroupToRank                                         // no code of the winning division has a group

  /**
   * `float(cell)`, or 0 where it raises. A cell is the number `float()`
   * reads from it; `None` stands both for a cell `float()` rejects and for
   * NaN, neither of which is ever a positive weight.
   */
  function Weight(cell: Option<real>): (w: real)
    ensures cell.None? ==> w == 0.0
    ensures w > 0.0 ==> cell == Some(w)
  {
    match cell
    case Some(x) => x
    case None => 0.0
  }

  /**
   * The test of the loop: the code is not missing and the weight is
   * positive. The fallback weight 0 never passes, so a kept pair always has
   * a weight `float()` read from its cell.
   */
  predicate Keeps(code: Option<string>, cell: Option<real>): (b: bool)
    ensures b <==> code.Some? && cell.Some? && cell.value > 0.0
  {
    code.Some? && Weight(cell) > 0.0
  }

  /** The row the loop appends for a kept pair. */
  function Decompose(code: string, weight: real): Candidate
  {
    var l := ExtractLevels(code);
    Candidate(code, weight, l.section, l.division, l.group)
  }

  /** `zip` stops at the shorter of the two column lists. */
  function PairCount(codes: seq<Option<string>>, cells: seq<Option<real>>): nat
  {
    if |codes| <= |cells| then |codes| else |cells|
  }

  /** Every row with a section also has a division, as `extract_citi_levels` guarantees. */
  ghost predicate DivisionsPresent(frame: seq<Candidate>)
  {
    forall c | c in frame :: c.section.Some? ==> c.division.Some?
  }

  /** The list `data` after the loop has seen the first `n` pairs. */
  function KeptPrefix(codes: seq<Option<string>>, cells: seq<Option<real>>, n: nat): (data: seq<Candidate>)
    requires n <= |codes| && n <= |cells|
    ensures |data| <= n
    ensures forall c | c in data :: c.weight > 0.0 && (c.section.Some? ==> c.division.Some?)
    decreases n
  {
    if n == 0 then []
    else
      var data := KeptPrefix(codes, cells, n - 1);
      if Keeps(codes[n - 1], cells[n - 1]) then data + [Decompose(codes[n - 1].value, Weight(cells[n - 1]))]
      else data
  }

  /** The list `data` after the loop: the kept candidates in column order. */
  function Kept(codes: seq<Option<string>>, cells: seq<Option<real>>): seq<Candidate>
  {
    KeptPrefix(codes, cells, PairCount(codes, cells))
  }

  /** The positions, among the first `n`, of the pairs the loop keeps. */
  function KeptPositions(codes: seq<Option<string>>, cells: seq<Option<real>>, n: nat): (ix: seq<nat>)
    requires n <= |codes| && n <= |cells|
    ensures forall j | 0 <= j < |ix| :: ix[j] < n && Keeps(codes[ix[j]], cells[ix[j]])
    ensures forall i | 0 <= i < n && Keeps(codes[i], cells[i]) :: i in ix
    ensures forall j, j' | 0 <= j < j' < |ix| :: ix[j] < ix[j']
    decreases n
  {
    if n == 0 then []
    else
      var ix := KeptPositions(codes, cells, n - 1);
      if Keeps(codes[n - 1], cells[n - 1]) then ix + [n - 1] else ix
  }

  /**
   * The kept list is exactly the pairs that pass the test, decomposed, in
   * column order: its `j`-th row comes from the `j`-th kept position.
   */
  lemma {:induction false} KeptAtPositions(codes: seq<Option<string>>, cells: seq<Option<real>>, n: nat)
    requires n <= |codes| && n <= |cells|
    ensures |KeptPrefix(codes, cells, n)| == |KeptPositions(codes, cells, n)|
    ensures forall j | 0 <= j < |KeptPositions(codes, cells, n)| ::
      var i := KeptPositions(codes, cells, n)[j];
      KeptPrefix(codes, cells, n)[j] == Decompose(codes[i].value, Weight(cells[i]))
    decreases n
  {
    if n > 0 {
      KeptAtPositions(codes, cells, n - 1);
    }
  }

  /** Columns beyond the shorter list are never read. */
  lemma {:induction false} KeptReadsPrefix(codes: seq<Option<string>>, cells: seq<Option<real>>,
                                           codes': seq<Option<string>>, cells': seq<Option<real>>, n: nat)
    requires n <= |codes| && n <= |cells| && n <= |codes'| && n <= |cells'|
    requires codes[..n] == codes'[..n] && cells[..n] == cells'[..n]
    ensures KeptPrefix(codes, cells, n) == KeptPrefix(codes', cells', n)
    decreases n
  {
    if n > 0 {
      assert codes[..n - 1] == codes'[..n - 1] && cells[..n - 1] == cells'[..n - 1];
      assert codes[n - 1] == codes[..n][n - 1] && codes'[n - 1] == codes'[..n][n - 1];
      assert cells[n - 1] == cells[..n][n - 1] && cells'[n - 1] == cells'[..n][n - 1];
      KeptReadsPrefix(codes, cells, codes', cells', n - 1);
    }
  }

  /** `process_row` sees only the first `min(|a_cols|, |p_cols|)` column pairs. */
  lemma ZipTruncates(codes: seq<Option<string>>, cells: seq<Option<real>>)
    ensures var m := PairCount(codes, cells);
      Kept(codes, cells) == Kept(codes[..m], cells[..m])
  {
    var m := PairCount(codes, cells);
    KeptReadsPrefix(codes, cells, codes[..m], cells[..m], m);
  }

  /** `c` is in the winning section and, inside it, in the winning division. */
  ghost predicate InWinningDivision(data: seq<Candidate>, c: Candidate)
  {
    && c.section.Some?
    && c.division.Some?
    && IsIdxMax(data, Section, c.section.value)
    && IsIdxMax(Restrict(data, Section, c.section.value), Division, c.division.value)
  }

  predicate SameLevels(c: Candidate, d: Candidate)
  {
    c.section == d.section && c.division == d.division && c.group == d.group
  }

  /**
   * `c` may be the principal: it lies in the winning section, division and
   * group, and no kept row of that group weighs more.
   */
  ghost predicate IsPrincipal(data: seq<Candidate>, c: Candidate)
  {
    && InWinningDivision(data, c)
    && c.group.Some?
    && IsIdxMax(Restrict(Restrict(data, Section, c.section.value), Division, c.division.value), Group, c.group.value)
    && forall d | d in data && SameLevels(d, c) :: d.weight <= c.weight
  }

  /** The rows of the winning division are the rows of the twice-narrowed frame. */
  lemma WinningDivisionRows(data: seq<Candidate>, s: string, d: string)
    requires IsIdxMax(data, Section, s)
    requires IsIdxMax(Restrict(data, Section, s), Division, d)
    ensures forall c | c in data ::
      InWinningDivision(data, c) <==> c in Restrict(Restrict(data, Section, s), Division, d)
  {
    forall c | c in data && InWinningDivision(data, c)
      ensures c.section == Some(s) && c.division == Some(d)
    {
      IdxMaxUnique(data, Section, c.section.value, s);
      IdxMaxUnique(Restrict(data, Section, s), Division, c.division.value, d);
    }
  }

  /** A frame with a row in section `s` has a division to rank among the rows of `s`. */
  lemma SectionHasDivision(data: seq<Candidate>, s: string)
    requires DivisionsPresent(data)
    requires HasKey(data, Section, s)
    ensures IdxMax(Restrict(data, Section, s), Division).Some?
  {
    var c :| c in data && c.section == Some(s);
    assert c in Restrict(data, Section, s);
  }

  /**
   * What the result of `process_row` says about the kept list `data`:
   * nothing kept gives `(None, None)`; `idxmax` raises when no row has a
   * section, or when no row of the winning division has a group; otherwise
   * the principal is a heaviest row of the winning group, and the
   * secondaries are all the other kept codes, in order.
   */
  ghost predicate Ranks(data: seq<Candidate>, r: RowResult)
  {
    && (r == NoCandidates <==> data == [])
    && (r == NoSectionToRank <==> data != [] && forall c | c in data :: c.section.None?)
    && (r == NoGroupToRank <==>
         && (exists c | c in data :: c.section.Some?)
         && forall c | c in data && InWinningDivision(data, c) :: c.group.None?)
    && (r.Classified? ==>
         && (exists c | c in data :: c.code == r.principal && IsPrincipal(data, c))
         && r.secondaries == CodesExcept(data, r.principal))
  }

  lemma RanksNoSection(data: seq<Candidate>)
    requires data != [] && forall c | c in data :: c.section.None?
    ensures Ranks(data, NoSectionToRank)
  {
  }

  lemma RanksNoGroup(data: seq<Candidate>, s: string, d: string)
    requires IsIdxMax(data, Section, s)
    requires IsIdxMax(Restrict(data, Section, s), Division, d)
    requires forall c | c in Restrict(Restrict(data, Section, s), Division, d) :: c.group.None?
    ensures Ranks(data, NoGroupToRank)
  {
    WinningDivisionRows(data, s, d);
  }

  /** The heaviest row of the winning group meets the description of the principal. */
  lemma HeaviestIsPrincipal(data: seq<Candidate>, s: string, dv: string, g: string)
    requires IsIdxMax(data, Section, s)
    requires IsIdxMax(Restrict(data, Section, s), Division, dv)
    requires IsIdxMax(Restrict(Restrict(data, Section, s), Division, dv), Group, g)
    ensures var frame := Restrict(Restrict(Restrict(data, Section, s), Division, dv), Group, g);
      |frame| > 0 && frame[FirstHeaviest(frame)] in data && IsPrincipal(data, frame[FirstHeaviest(frame)])
  {
    var dfSection := Restrict(data, Section, s);
    var dfDiv := Restrict(dfSection, Division, dv);
    var frame := Restrict(dfDiv, Group, g);
    var c :| c in dfDiv && c.group == Some(g);
    assert c in frame;
    var top := frame[FirstHeaviest(frame)];
    assert top in frame;
    assert top.section == Some(s) && top.division == Some(dv) && top.group == Some(g);
    forall d | d in data && SameLevels(d, top)
      ensures d.weight <= top.weight
    {
      assert d in dfSection;
      assert d in dfDiv;
      assert d in frame;
    }
  }

  lemma RanksPrincipal(data: seq<Candidate>, top: Candidate)
    requires top in data && IsPrincipal(data, top)
    ensures Ranks(data, Classified(top.code, CodesExcept(data, top.code)))
  {
  }

  /** Lines 86 to 98 of `process_row`: the frame narrowed section, division, group. */
  method RankCandidates(data: seq<Candidate>) returns (r: RowResult)
    requires DivisionsPresent(data)
    ensures Ranks(data, r)
  {
    if data == [] {
      return NoCandidates;
    }
    var sectionMax := IdxMax(data, Section);
    if sectionMax.None? {
      RanksNoSection(data);
      return NoSectionToRank;
    }
    var dfSection := Restrict(data, Section, sectionMax.value);
    SectionHasDivision(data, sectionMax.value);
    var divisionMax := IdxMax(dfSection, Division).value;
    var dfDiv := Restrict(dfSection, Division, divisionMax);

    var groupMax := IdxMax(dfDiv, Group);
    if groupMax.None? {
      RanksNoGroup(data, sectionMax.value, divisionMax);
      return NoGroupToRank;
    }
    var dfGroup := Restrict(dfDiv, Group, groupMax.value);
    HeaviestIsPrincipal(data, sectionMax.value, divisionMax, groupMax.value);
    var top := dfGroup[FirstHeaviest(dfGroup)];
    RanksPrincipal(data, top);
    r := Classified(top.code, CodesExcept(data, top.code));
  }

  /**
   * `process_row(row, a_cols, p_cols)`, with `codes[i]` the cell of
   * `a_cols[i]` and `cells[i]` the cell of `p_cols[i]`.
   */
  method ProcessRow(codes: seq<Option<string>>, cells: seq<Option<real>>) returns (r: RowResult)
    ensures Ranks(Kept(codes, cells), r)
  {
    var data: seq<Candidate> := [];
    for i := 0 to PairCount(codes, cells)
      invariant data == KeptPrefix(codes, cells, i)
    {
      var poids := Weight(cells[i]);
      if codes[i].Some? && poids > 0.0 {
        data := data + [Decompose(codes[i].value, poids)];
      }
    }
    r := RankCandidates(data);
  }

  /**
   * The description of the principal fixes its section, division, group and
   * weight: two rows that both meet it differ at most by code, which only
   * happens on a tie of individual weights.
   */
  lemma PrincipalUpToTies(data: seq<Candidate>, c1: Candidate, c2: Candidate)
    requires IsPrincipal(data, c1) && IsPrincipal(data, c2)
    requires c1 in data && c2 in data
    ensures SameLevels(c1, c2) && c1.weight == c2.weight
  {
    IdxMaxUnique(data, Section, c1.section.value, c2.section.value);
    var dfSection := Restrict(data, Section, c1.section.value);
    IdxMaxUnique(dfSection, Division, c1.division.value, c2.division.value);
    IdxMaxUnique(Restrict(dfSection, Division, c1.division.value), Group, c1.group.value, c2.group.value);
  }

  /**
   * When no other row of the winning group is as heavy under a different
   * code, the description fixes the whole result.
   */
  lemma RanksFromPrincipal(data: seq<Candidate>, r: RowResult, top: Candidate)
    requires Ranks(data, r)
    requires top in data && IsPrincipal(data, top)
    requires forall d | d in data && SameLevels(d, top) && d.weight == top.weight :: d.code == top.code
    ensures r == Classified(top.code, CodesExcept(data, top.code))
  {
    assert InWinningDivision(data, top);
    assert r.Classified?;
    var c :| c in data && c.code == r.principal && IsPrincipal(data, c);
    PrincipalUpToTies(data, c, top);
  }

  /**
   * Wholesale codes 4711 (weight 50) and 4712 (weight 30) against software
   * code 6201 (weight 20): section G outweighs J, group 471 is the only
   * group of division 47, and 4711 is its heavier row.
   */
  lemma WholesaleExample(codes: seq<Option<string>>, cells: seq<Option<real>>, r: RowResult)
    requires codes == [Some("4711"), Some("4712"), Some("6201")]
    requires cells == [Some(50.0), Some(30.0), Some(20.0)]
    requires Ranks(Kept(codes, cells), r)
    ensures r == Classified("4711", ["4712", "6201"])
  {
    var data := WholesaleRows();
    WholesaleKept(codes, cells);
    WholesalePrincipal(data);
    WholesaleNoTie(data);
    WholesaleSecondaries(data);
    RanksFromPrincipal(data, r, data[0]);
  }

  lemma WholesaleKept(codes: seq<Option<string>>, cells: seq<Option<real>>)
    requires codes == [Some("4711"), Some("4712"), Some("6201")]
    requires cells == [Some(50.0), Some(30.0), Some(20.0)]
    ensures Kept(codes, cells) == WholesaleRows()
  {
    KeptAllThree(codes, cells);
    WholesaleGroup(codes[0].value);
    WholesaleGroup(codes[1].value);
    LevelsOf6201(codes[2].value);
  }

  lemma WholesaleGroup(code: string)
    requires code == "4711" || code == "4712"
    ensures ExtractLevels(code) == Levels(Some("G"), Some("47"), Some("471"))
  {
    assert |code| >= 3 && code[..3] == "471";
    LevelsOfGroup471(code);
  }

  /** Three pairs that all pass the test are all kept, in order. */
  lemma KeptAllThree(codes: seq<Option<string>>, cells: seq<Option<real>>)
    requires |codes| == 3 && |cells| == 3
    requires Keeps(codes[0], cells[0]) && Keeps(codes[1], cells[1]) && Keeps(codes[2], cells[2])
    ensures Kept(codes, cells) == [Decompose(codes[0].value, Weight(cells[0])),
                                   Decompose(codes[1].value, Weight(cells[1])),
                                   Decompose(codes[2].value, Weight(cells[2]))]
  {
  }

  function WholesaleRows(): seq<Candidate>
  {
    [Candidate("4711", 50.0, Some("G"), Some("47"), Some("471")),
     Candidate("4712", 30.0, Some("G"), Some("47"), Some("471")),
     Candidate("6201", 20.0, Some("J"), Some("62"), Some("620"))]
  }

  /** 4711 meets the description of the principal: section G, division 47, group 471, and the heavier row there. */
  lemma WholesalePrincipal(data: seq<Candidate>)
    requires data == WholesaleRows()
    ensures IsPrincipal(data, data[0])
  {
    WholesaleSection(data);
    WholesaleDivision(data[..2]);
    assert forall d | d in data && SameLevels(d, data[0]) :: d in data[..2];
  }

  /** No other row of group 471 weighs 50. */
  lemma WholesaleNoTie(data: seq<Candidate>)
    requires data == WholesaleRows()
    ensures forall d | d in data && SameLevels(d, data[0]) && d.weight == data[0].weight :: d == data[0]
  {
  }

  lemma WholesaleSecondaries(data: seq<Candidate>)
    requires data == WholesaleRows()
    ensures CodesExcept(data, "4711") == ["4712", "6201"]
  {
  }

  lemma WholesaleSection(data: seq<Candidate>)
    requires data == WholesaleRows()
    ensures IsIdxMax(data, Section, "G") && Restrict(data, Section, "G") == data[..2]
  {
    assert GroupSum(data, Section, "G") == 80.0;
    assert GroupSum(data, Section, "J") == 20.0;
    forall k | HasKey(data, Section, k)
      ensures k == "G" || k == "J"
    {
    }
  }

  lemma WholesaleDivision(frame: seq<Candidate>)
    requires frame == WholesaleRows()[..2]
    ensures IsIdxMax(frame, Division, "47") && Restrict(frame, Division, "47") == frame
    ensures IsIdxMax(frame, Group, "471")
  {
    assert frame[0] in frame;
    assert forall k | HasKey(frame, Division, k) :: k == "47";
    assert forall k | HasKey(frame, Group, k) :: k == "471";
    LexLeReflexive("47");
    LexLeReflexive("471");
  }

  /**
   * A lone one-digit code is kept, has no section, and `idxmax` raises:
   * the row gets no result at all.
   */
  lemma ShortCodeExample(codes: seq<Option<string>>, cells: seq<Option<real>>, r: RowResult)
    requires codes == [Some("7")] && cells == [Some(5.0)]
    requires Ranks(Kept(codes, cells), r)
    ensures r == NoSectionToRank
  {
    LevelsOf7(codes[0].value);
    assert Kept(codes, cells) == [Candidate("7", 5.0, None, None, None)];
  }

  /** A row with a single kept code: the code is principal, with no secondaries, if it has a group. */
  lemma RanksSingle(c: Candidate, r: RowResult)
    requires c.section.Some? && c.division.Some?
    requires Ranks([c], r)
    ensures c.group.Some? ==> r == Classified(c.code, [])
    ensures c.group.None? ==> r == NoGroupToRank
  {
    var data := [c];
    LexLeReflexive(c.section.value);
    LexLeReflexive(c.division.value);
    assert IsIdxMax(data, Section, c.section.value);
    assert Restrict(data, Section, c.section.value) == data;
    assert IsIdxMax(data, Division, c.division.value);
    assert Restrict(data, Division, c.division.value) == data;
    assert InWinningDivision(data, c);
    if c.group.Some? {
      LexLeReflexive(c.group.value);
      assert IsIdxMax(data, Group, c.group.value);
      assert IsPrincipal(data, c);
      RanksFromPrincipal(data, r, c);
    }
  }

  /**
   * Code 203 alone: division 20 falls in the widened section B, so the code
   * is its own principal.
   */
  lemma DivisionTwentyExample(codes: seq<Option<string>>, cells: seq<Option<real>>, r: RowResult)
    requires codes == [Some("203")] && cells == [Some(10.0)]
    requires Ranks(Kept(codes, cells), r)
    ensures r == Classified("203", [])
  {
    LevelsOf203(codes[0].value);
    assert Kept(codes, cells) == [Candidate("203", 10.0, Some("B"), Some("20"), Some("203"))];
    RanksSingle(Kept(codes, cells)[0], r);
  }

  /** Code 62 alone has a section and a division but no group: `idxmax` raises at the group round. */
  lemma TwoDigitCodeExample(codes: seq<Option<string>>, cells: seq<Option<real>>, r: RowResult)
    requires codes == [Some("62")] && cells == [Some(10.0)]
    requires Ranks(Kept(codes, cells), r)
    ensures r == NoGroupToRank
  {
    LevelsOf62(codes[0].value);
    assert Kept(codes, cells) == [Candidate("62", 10.0, Some("J"), Some("62"), None)];
    RanksSingle(Kept(codes, cells)[0], r);
  }
}
