/**
 * The pandas operations `process_row` applies to its frame of candidates,
 * written out on sequences of rows:
 *  - `frame.groupby(column)['poids'].sum()`: rows whose key is `None` are
 *    dropped, the keys are sorted;
 *  - `.idxmax()`: the first key, in that sorted order, whose sum is maximal,
 *    and an exception when there is no key at all;
 *  - `frame[frame[column] == k]`: the rows with key `k`, in their order;
 *  - `sort_values('poids', ascending=False)['code'].iloc[0]`: a heaviest row;
 *  - `frame[frame['code'] != p]['code'].tolist()`: the other codes, in order.
 */
module Frames {
  import opened Wrappers
  import opened TextOrder

  /** One row of the frame: a kept code, its weight and its three levels. */
  datatype Candidate = Candidate(
    code: string,
    weight: real,
    section: Option<string>,
    division: Option<string>,
    group: Option<string>)

  /** The three columns the cascade groups by. */
  datatype Level = Section | Division | Group

  function KeyAt(c: Candidate, level: Level): Option<string>
  {
    match level
    case Section => c.section
    case Division => c.division
    case Group => c.group
  }

  /** `k` is one of the keys of `frame.groupby(level)`. */
  predicate HasKey(frame: seq<Candidate>, level: Level, k: string)
  {
    exists c | c in frame :: KeyAt(c, level) == Some(k)
  }

  /** The summed weight of the rows whose key is `k`. */
  function GroupSum(frame: seq<Candidate>, level: Level, k: string): real
    decreases |frame|
  {
    if frame == [] then 0.0
    else (if KeyAt(frame[0], level) == Some(k) then frame[0].weight else 0.0) + GroupSum(frame[1..], level, k)
  }

  /**
   * A key no row has sums to zero; when every weight is positive, as in the
   * kept rows, a key sums to a positive weight exactly when some row has it.
   */
  lemma {:induction false} GroupSumPresence(frame: seq<Candidate>, level: Level, k: string)
    ensures !HasKey(frame, level, k) ==> GroupSum(frame, level, k) == 0.0
    ensures (forall c | c in frame :: c.weight > 0.0) ==>
      (HasKey(frame, level, k) <==> GroupSum(frame, level, k) > 0.0)
    decreases |frame|
  {
    if frame != [] {
      assert forall c | c in frame[1..] :: c in frame;
      assert HasKey(frame, level, k) ==> KeyAt(frame[0], level) == Some(k) || HasKey(frame[1..], level, k);
      GroupSumPresence(frame[1..], level, k);
    }
  }

  /** Key `a` comes no later than key `b` in the ranking `idxmax` reads: larger sum first, then sorted order. */
  predicate Outranks(frame: seq<Candidate>, level: Level, a: string, b: string)
  {
    var sa, sb := GroupSum(frame, level, a), GroupSum(frame, level, b);
    sa > sb || (sa == sb && LexLe(a, b))
  }

  /**
   * `k` is what `frame.groupby(level)['poids'].sum().idxmax()` returns: a key
   * whose sum no other key exceeds, and the smallest such key on a tie.
   */
  ghost predicate IsIdxMax(frame: seq<Candidate>, level: Level, k: string)
  {
    && HasKey(frame, level, k)
    && forall k' | HasKey(frame, level, k') ::
      && GroupSum(frame, level, k') <= GroupSum(frame, level, k)
      && (GroupSum(frame, level, k') == GroupSum(frame, level, k) ==> LexLe(k, k'))
  }

  /** At most one key meets the description of `idxmax`: it is deterministic. */
  lemma IdxMaxUnique(frame: seq<Candidate>, level: Level, a: string, b: string)
    requires IsIdxMax(frame, level, a) && IsIdxMax(frame, level, b)
    ensures a == b
  {
    LexLeAntisymmetric(a, b);
  }

  /** The keys of the frame, one per row that has one, in row order. */
  function KeyList(frame: seq<Candidate>, level: Level): (ks: seq<string>)
    ensures forall k :: k in ks <==> HasKey(frame, level, k)
    decreases |frame|
  {
    if frame == [] then []
    else
      assert frame == [frame[0]] + frame[1..];
      var head := if KeyAt(frame[0], level).Some? then [KeyAt(frame[0], level).value] else [];
      head + KeyList(frame[1..], level)
  }

  lemma OutranksTotal(frame: seq<Candidate>, level: Level, a: string, b: string)
    ensures Outranks(frame, level, a, b) || Outranks(frame, level, b, a)
  {
    LexLeTotal(a, b);
  }

  lemma OutranksAll(frame: seq<Candidate>, level: Level, a: string, b: string, ks: seq<string>)
    requires Outranks(frame, level, a, b)
    requires forall k | k in ks :: Outranks(frame, level, b, k)
    ensures forall k | k in ks :: Outranks(frame, level, a, k)
  {
    forall k | k in ks
      ensures Outranks(frame, level, a, k)
    {
      if GroupSum(frame, level, a) == GroupSum(frame, level, k) {
        LexLeTransitive(a, b, k);
      }
    }
  }

  /** The top of `ks` in the ranking. */
  function PickMax(frame: seq<Candidate>, level: Level, ks: seq<string>): (r: Option<string>)
    ensures r.None? <==> ks == []
    ensures r.Some? ==> r.value in ks && forall k | k in ks :: Outranks(frame, level, r.value, k)
    decreases |ks|
  {
    if ks == [] then None
    else
      assert ks == [ks[0]] + ks[1..];
      var rest := PickMax(frame, level, ks[1..]);
      if rest.None? then
        LexLeReflexive(ks[0]);
        Some(ks[0])
      else if Outranks(frame, level, ks[0], rest.value) then
        LexLeReflexive(ks[0]);
        OutranksAll(frame, level, ks[0], rest.value, ks[1..]);
        Some(ks[0])
      else
        OutranksTotal(frame, level, ks[0], rest.value);
        rest
  }

  /** `frame.groupby(level)['poids'].sum().idxmax()`; `None` where pandas raises on an empty series. */
  function IdxMax(frame: seq<Candidate>, level: Level): (r: Option<string>)
    ensures r.None? <==> forall c | c in frame :: KeyAt(c, level).None?
    ensures r.Some? ==> IsIdxMax(frame, level, r.value)
  {
    var ks := KeyList(frame, level);
    forall c | c in frame && KeyAt(c, level).Some?
      ensures KeyAt(c, level).value in ks
    {
      assert HasKey(frame, level, KeyAt(c, level).value);
    }
    assert ks != [] ==> HasKey(frame, level, ks[0]);
    PickMax(frame, level, ks)
  }

  /** `frame[frame[level] == k]`: the rows whose key is `k`, in their order. */
  function Restrict(frame: seq<Candidate>, level: Level, k: string): (r: seq<Candidate>)
    ensures forall c :: c in r <==> c in frame && KeyAt(c, level) == Some(k)
    ensures GroupSum(r, level, k) == GroupSum(frame, level, k)
    ensures |r| <= |frame|
    decreases |frame|
  {
    if frame == [] then []
    else
      assert frame == [frame[0]] + frame[1..];
      var rest := Restrict(frame[1..], level, k);
      if KeyAt(frame[0], level) == Some(k) then
        assert ([frame[0]] + rest)[1..] == rest;
        [frame[0]] + rest
      else rest
  }

  /** The filter reads row by row: filtering two frames one after the other keeps their order. */
  lemma {:induction false} RestrictAppend(a: seq<Candidate>, b: seq<Candidate>, level: Level, k: string)
    ensures Restrict(a + b, level, k) == Restrict(a, level, k) + Restrict(b, level, k)
    decreases |a|
  {
    if a == [] {
      assert a + b == b;
    } else {
      assert (a + b)[0] == a[0] && (a + b)[1..] == a[1..] + b;
      RestrictAppend(a[1..], b, level, k);
    }
  }

  /** A row whose key is `k` passes the filter on its own; any other row is dropped. */
  lemma RestrictSingle(c: Candidate, level: Level, k: string)
    ensures Restrict([c], level, k) == if KeyAt(c, level) == Some(k) then [c] else []
  {
    assert [c][1..] == [];
  }

  /**
   * The row `sort_values('poids', ascending=False).iloc[0]` yields: one of
   * largest weight, and among equal weights the first in frame order.
   */
  function FirstHeaviest(frame: seq<Candidate>): (i: nat)
    requires |frame| > 0
    ensures i < |frame|
    ensures forall j | 0 <= j < |frame| :: frame[j].weight <= frame[i].weight
    ensures forall j | 0 <= j < i :: frame[j].weight < frame[i].weight
    decreases |frame|
  {
    if |frame| == 1 then 0
    else
      var k := 1 + FirstHeaviest(frame[1..]);
      if frame[0].weight >= frame[k].weight then 0 else k
  }

  /** `frame['code'].tolist()` */
  function Codes(frame: seq<Candidate>): seq<string>
  {
    seq(|frame|, i requires 0 <= i < |frame| => frame[i].code)
  }

  /**
   * `frame[frame['code'] != p]['code'].tolist()`: every code of the frame
   * with each occurrence of `p` taken out, the others kept as often as they
   * occur.
   */
  function CodesExcept(frame: seq<Candidate>, p: string): (r: seq<string>)
    ensures multiset(r) == multiset(Codes(frame))[p := 0]
    ensures p !in r
    ensures forall c | c in frame :: c.code == p || c.code in r
    decreases |frame|
  {
    if frame == [] then []
    else
      var rest := CodesExcept(frame[1..], p);
      assert Codes(frame) == [frame[0].code] + Codes(frame[1..]);
      assert frame == [frame[0]] + frame[1..];
      if frame[0].code != p then [frame[0].code] + rest else rest
  }

  /** The codes come out in row order: listing two frames one after the other concatenates their lists. */
  lemma {:induction false} CodesExceptAppend(a: seq<Candidate>, b: seq<Candidate>, p: string)
    ensures CodesExcept(a + b, p) == CodesExcept(a, p) + CodesExcept(b, p)
    decreases |a|
  {
    if a == [] {
      assert a + b == b;
    } else {
      assert (a + b)[0] == a[0] && (a + b)[1..] == a[1..] + b;
      CodesExceptAppend(a[1..], b, p);
    }
  }

  /** One row gives its code, unless the code is `p`. */
  lemma CodesExceptSingle(c: Candidate, p: string)
    ensures CodesExcept([c], p) == if c.code == p then [] else [c.code]
  {
    assert [c][1..] == [];
  }
}
