# Classification CITI: the classification engine, in Dafny

This project models the classification engine of the Classification CITI
application. Each company row holds pairs of columns: an activity code and a
weight, such as a share of revenue. The engine gives the company one
principal activity code (its APE) and a list of secondary codes.

- `get_section` maps a two-character division to a section letter. It
  follows ISIC Rev.4 (CITI in French), except that every division from 05 to
  39 is put in section B. Modelled in `sections.dfy`, with Python's `int()`
  on text in `int_parse.dfy`.
- `extract_citi_levels` splits a code's text into its section, its division
  (the first two characters) and its group (the first three). Modelled in
  `levels.dfy`.
- `process_row` keeps the pairs whose code is present and whose weight is
  positive. It picks the section with the largest total weight, then the
  heaviest division inside it, then the heaviest group inside that division.
  The principal is a heaviest row of that group; every other kept code is
  secondary. Modelled in `classification.dfy`. The pandas operations it uses
  are written out on sequences in `frames.dfy`:
  - `groupby().sum()` drops `None` keys and sorts the rest;
  - `idxmax` takes the first maximal key;
  - a boolean filter keeps row order.
  The key order is Python's order on strings, in `text_order.dfy`.

`process_row` is modelled in its own imperative form. The method
`ProcessRow` runs the `zip` loop that appends to `data`. It then narrows
the frame step by step: `df`, `df_section`, `df_div`, `df_group`, in
`RankCandidates`. Both methods are proved against `Ranks`, a declarative
description of the result:
- nothing kept gives `(None, None)`, which is `NoCandidates`;
- `idxmax` raises when no kept code has a section (`NoSectionToRank`);
- it also raises when no code of the winning division has a group
  (`NoGroupToRank`);
- otherwise the principal lies in the winning section, division and group,
  and weighs at least as much as every row of that group;
- the secondaries are all other kept codes, in order, with every occurrence
  of the principal's code removed.

A reader might expect otherwise in these places; the model follows the code:
- Division 20 has section B, so code 203 is kept and becomes principal
  (`DivisionTwentyExample`).
- Divisions 79 and 80 have section N. The unmapped divisions are 0, 4, 40,
  44, 48, 54, 57, 67, 76, 83 and 89 (`UnmappedDivisions`).
- A kept code with no section (too short, or in an unmapped division) stays
  in the kept list. It counts in no section sum, but it appears among the
  secondaries.
- A row with nothing kept returns `(None, None)`, not an empty list.
- When no kept code has a section, `idxmax` raises rather than returning an
  empty result (`ShortCodeExample`). The same happens when the winning
  division has no code of three or more characters (`TwoDigitCodeExample`).
- Secondaries drop every occurrence of the principal's code, not only the
  first.
- `int()` skips less whitespace than `str.isspace` accepts. Among ASCII
  characters it skips only space, tab, line feed, vertical tab, form feed and
  carriage return. A division opening with the separator U+001C therefore has
  no section (`GetSectionOfSeparator`).

## Model

| member | source | states |
|---|---|---|
| `Sections.GetSection` | Classification_CITI.py:25-67 | returns no section whenever `int()` rejects the text (including text of more than 4300 digits), and otherwise either no section or one of the 18 section letters A, B, F–U; it never raises |
| `Sections.SectionOf` | Classification_CITI.py:30-67 | the chain returns either no section or a single letter among the 18 letters A, B and F to U |
| `Sections.SectionOfMatchesTable` | Classification_CITI.py:30-67 | the if/elif chain agrees with the table of 18 inclusive ranges: a number gets a letter exactly when a range covers it, and then that range's letter |
| `Sections.TableAscending` | Classification_CITI.py:30-65 | the 18 ranges are disjoint and ascending, so the order of the chain does not matter |
| `Sections.UnmappedDivisions` | Classification_CITI.py:30-67 | among 0..99, exactly 0, 4, 40, 44, 48, 54, 57, 67, 76, 83 and 89 have no section |
| `Sections.OutOfRangeUnmapped` | Classification_CITI.py:66-67 | every number below 1 or above 99 has no section |
| `Sections.NoSectionsCDE` | Classification_CITI.py:32-33 | the letters C, D and E are never produced; divisions 10–39 all give B |
| `Sections.GetSectionOfDigits` | Classification_CITI.py:25-33 | a division of two ASCII digits gets the section of the number they spell, leading zero included ("05" is B) |
| `Sections.GetSectionOfText` | Classification_CITI.py:26-27 | a division printed from a number gets that number's section |
| `Sections.GetSectionRejects` | Classification_CITI.py:26-29 | text holding a character other than a digit, sign, underscore or whitespace has no section |
| `IntParse.Strip` | Classification_CITI.py:27 | the whitespace `int()` skips (space, tab, line feed, vertical tab, form feed, carriage return, and the non-ASCII characters `str.isspace` accepts; not U+001C–U+001F): the result neither starts nor ends with such whitespace, is the slice of the input after its leading whitespace, and everything outside it is whitespace |
| `IntParse.ParseInt` | Classification_CITI.py:27-29 | a successful `int()` saw at least one digit, so empty or blank text raises; a negative result needs a minus sign in the text; and the text holds at most 4300 digits (CPython's default `int_max_str_digits`, leading zeros counted, signs and underscores not) |
| `IntParse.ParseIntRejectsSeparator` | Classification_CITI.py:27-29 | `int()` raises on every text opening with U+001C, whatever follows, though `str.isspace` calls that character whitespace |
| `IntParse.ParseIntText` | Classification_CITI.py:27 | `int(str(n)) == n` for every integer `n` of at most 4300 digits; the text of a longer one is refused |
| `IntParse.StripDigitCount` | Classification_CITI.py:27 | the whitespace `int()` skips holds no digit, so the digit limit counts the digits of the whole text |
| `IntParse.ParseIntCharset` | Classification_CITI.py:26-29 | `int()` succeeds only on text made of digits, signs, underscores and whitespace |
| `Sections.GetSectionOfSeparator` | Classification_CITI.py:26-29 | every division opening with U+001C has no section |
| `IntParse.ParseTwoDigits` | Classification_CITI.py:27 | two ASCII digits parse to ten times the first plus the second |
| `Levels.ExtractLevels` | Classification_CITI.py:16-23 | shorter than 2 characters: all three levels absent; otherwise the division is the 2-character prefix and the section is `get_section` of it; the group is the 3-character prefix exactly when the text has 3 or more characters, and it extends the division; a section implies a division |
| `Levels.SectionOfDigitCode` | Classification_CITI.py:20-22 | a code starting with two ASCII digits is filed under the section of the number they spell |
| `Levels.LevelsOfGroup471` | Classification_CITI.py:16-23 | every code opening with 471, such as "4711" and "4712", has section G, division "47", group "471" |
| `Levels.LevelsOf6201` | Classification_CITI.py:16-23 | "6201" has section J, division "62", group "620" |
| `Levels.LevelsOf203` | Classification_CITI.py:16-23 | "203" has section B, division "20", group "203" |
| `Levels.LevelsOf62` | Classification_CITI.py:16-23 | "62" has section J and division "62" but no group |
| `Levels.LevelsOf4711Float` | Classification_CITI.py:17-21 | the float text "4711.0" has the same levels as "4711" |
| `Levels.LevelsOf7` | Classification_CITI.py:18-19 | "7" has no level at all |
| `Frames.GroupSumPresence` | Classification_CITI.py:90-94 | `GroupSum` of a key no row has is zero (pandas leaves that key out of the series); when every weight is positive, a key's sum is positive exactly when some row has the key |
| `Frames.KeyList` | Classification_CITI.py:90 | the keys of a `groupby`: exactly the non-`None` keys of the rows |
| `Frames.PickMax` | Classification_CITI.py:90 | picks a key of the list that ranks at least as high as every key of the list (larger sum, then smaller key) |
| `Frames.IdxMax` | Classification_CITI.py:90-94 | `groupby(...).sum().idxmax()` has no answer (raises) exactly when no row has a key; otherwise its key has a sum no other key exceeds, and on equal sums it is the smallest key |
| `Frames.IdxMaxUnique` | Classification_CITI.py:90-94 | at most one key meets that description, so the choice is deterministic |
| `Frames.Restrict` | Classification_CITI.py:91-95 | the filter `frame[frame[col] == k]` keeps exactly the rows with key `k` and keeps their total weight |
| `Frames.RestrictAppend` | Classification_CITI.py:91-95 | the filter keeps row order and multiplicity: filtering `a + b` gives the filtered `a` followed by the filtered `b` |
| `Frames.RestrictSingle` | Classification_CITI.py:91-95 | a single row passes the filter exactly when its key is `k` |
| `Frames.FirstHeaviest` | Classification_CITI.py:96 | the row taken after the descending sort weighs at least as much as every row of the frame; earlier rows weigh strictly less |
| `Frames.CodesExcept` | Classification_CITI.py:97 | the codes other than `p`: `p` never occurs; every other code occurs as often as in the frame; every row's code is `p` or among them |
| `Frames.CodesExceptAppend` | Classification_CITI.py:97 | the list keeps row order: the codes of `a + b` are those of `a` followed by those of `b` |
| `Frames.CodesExceptSingle` | Classification_CITI.py:97 | a single row contributes its code, unless the code is `p` |
| `Classification.Weight` | Classification_CITI.py:73-76 | a cell `float()` rejects gives weight 0; a positive weight is always the number read from the cell |
| `Classification.Keeps` | Classification_CITI.py:77 | a pair is kept exactly when its code is present and its cell holds a number above 0, so the fallback weight 0 never keeps a pair |
| `Classification.KeptPrefix` | Classification_CITI.py:70-85 | the list built by the loop has no more rows than pairs read, and every row has a positive weight and a division when it has a section |
| `Classification.KeptPositions` | Classification_CITI.py:71-77 | the kept positions are increasing, each passes the test (code present, weight > 0), and every position that passes is among them |
| `Classification.KeptAtPositions` | Classification_CITI.py:71-85 | the `j`-th kept row is the decomposition of the pair at the `j`-th kept position: kept rows are exactly the passing pairs, in column order |
| `Classification.ZipTruncates` | Classification_CITI.py:71 | only the first `min(len(a_cols), len(p_cols))` pairs are read |
| `Classification.WinningDivisionRows` | Classification_CITI.py:90-93 | the rows of `df_div` are exactly the kept rows in the winning section and, within it, the winning division |
| `Classification.SectionHasDivision` | Classification_CITI.py:91-92 | once a section wins, the division round always has a division to pick |
| `Classification.HeaviestIsPrincipal` | Classification_CITI.py:94-96 | the winning group is not empty, and the row taken from it is kept and meets the description of the principal |
| `Classification.RanksNoSection` | Classification_CITI.py:90 | a non-empty kept list with no section anywhere is described by the section-round failure |
| `Classification.RanksNoGroup` | Classification_CITI.py:94 | when no row of the winning division has a group, the result is the group-round failure |
| `Classification.RanksPrincipal` | Classification_CITI.py:95-97 | a kept row meeting the principal's description, with the other codes as secondaries, is a described result |
| `Classification.RankCandidates` | Classification_CITI.py:86-98 | the frame narrowing meets `Ranks`: `(None, None)` exactly for an empty list; the section failure exactly when no row has a section; the group failure exactly when rows have sections but no row of the winning division has a group; otherwise a principal from the winning section, division and group that no row of that group outweighs, and every other kept code, in order, as secondaries |
| `Classification.ProcessRow` | Classification_CITI.py:69-98 | `process_row` meets `Ranks` on the pairs kept from the row |
| `Classification.PrincipalUpToTies` | Classification_CITI.py:90-96 | two rows that both meet the principal's description have the same section, division, group and weight |
| `Classification.RanksFromPrincipal` | Classification_CITI.py:90-97 | when no other code in the winning group is as heavy as the principal, the description fixes the whole result |
| `Classification.RanksSingle` | Classification_CITI.py:90-97 | a single kept code with a section is its own principal with no secondaries if it has a group, and otherwise the group round raises |
| `Classification.WholesaleExample` | Classification_CITI.py:69-98 | codes 4711 (50), 4712 (30), 6201 (20) give principal 4711 and secondaries 4712, 6201 |
| `Classification.DivisionTwentyExample` | Classification_CITI.py:69-98 | code 203 alone is kept under section B and is its own principal |
| `Classification.ShortCodeExample` | Classification_CITI.py:77-90 | code 7 alone is kept but has no section, so the section round raises |
| `Classification.TwoDigitCodeExample` | Classification_CITI.py:77-94 | code 62 alone has no group, so the group round raises |

## Left out

- The Streamlit page, logo, title, tabs and tables (Classification_CITI.py:1-13, 100-120, 139-141): user interface.
- File upload, `read_excel`/`read_csv`, and the Excel export and download button (Classification_CITI.py:103-112, 143-153): I/O.
- The batch driver (Classification_CITI.py:122-137). It picks the columns by their prefixes "A" and "P" and builds the "APE"/"AS1…" columns. On a row with nothing kept it would iterate over `None` (line 133) and raise.
- Column lookup `row[a_col]`: `ProcessRow` takes the cells already read, in column order, as two sequences.
- `str(code)` of a pandas cell: codes are given as their text, so `4711.0` is the text "4711.0".
- Parsing a weight cell with `float()`: a weight cell is the number `float()` returns, or `None` when `float()` raises or the cell is NaN. Infinities, NaN arithmetic and float rounding are not modelled; weights are exact reals.
- `int()` on non-ASCII decimal digits, which Python accepts: the model accepts ASCII digits only.
- IntParse.ParseInt: the digit limit is fixed at CPython's default of 4300. Python before 3.11 (and before 3.10.7, 3.9.14, 3.8.14) has no limit, and `sys.set_int_max_str_digits` or `PYTHONINTMAXSTRDIGITS` can change or remove it.
- Pandas type coercion between codes of mixed types: codes are compared as text.
- Ranks: it does not say which of several equally heavy rows with different codes becomes principal. The model takes the first in frame order (`FirstHeaviest`). The pandas sort at line 96 is not stable and may pick another one.
- RankCandidates: it inherits that tie rule. `Ranks` fixes the principal's section, division, group and weight (`PrincipalUpToTies`), not its code on such a tie.
- Order independence is not proved: reordering the columns does not change the winning section, but no lemma states it.
