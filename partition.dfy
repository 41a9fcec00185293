/** Cutting the decimal digits of the integer search into four contiguous
    groups at three chosen gaps, and parsing each group. Gap g lies between
    digit g and digit g + 1. */
module Partition {
  import opened Decimal
  import opened Combinatorics

  /** `[1 if i in partitioning else 0 for i in range(n_gaps)]`, as booleans. */
  function GapFlags(c: Cut, nGaps: nat): (flags: seq<bool>)
    ensures |flags| == nGaps
    ensures IsCut(c, nGaps) ==>
              forall g :: 0 <= g < nGaps ==> (flags[g] <==> CutsBefore(c, g + 1) == CutsBefore(c, g) + 1)
  {
    seq(nGaps, g => g == c.i || g == c.j || g == c.k)
  }

  /** The four digit groups a cut makes, stated directly by their
      boundaries: up to gap i, gap i to gap j, gap j to gap k, after gap k. */
  function Pieces(digits: string, c: Cut): seq<string>
    requires IsCut(c, |digits| - 1)
  {
    [digits[..c.i + 1], digits[c.i + 1..c.j + 1], digits[c.j + 1..c.k + 1], digits[c.k + 1..]]
  }

  /** `int(digits[lo:hi])`, read off the digit string by position: leading
      zeros collapse, and an empty range is worth 0. */
  function GroupValue(digits: string, lo: nat, hi: nat): (v: nat)
    requires IsDigits(digits) && lo <= hi <= |digits|
    ensures v < Pow10(hi - lo)
    decreases hi
  {
    if hi == lo then 0 else GroupValue(digits, lo, hi - 1) * 10 + DigitValue(digits[hi - 1])
  }

  /** The positional reading agrees with parsing the slice. */
  lemma {:induction false} GroupValueParse(digits: string, lo: nat, hi: nat)
    requires IsDigits(digits) && lo <= hi <= |digits|
    ensures IsDigits(digits[lo..hi])
    ensures GroupValue(digits, lo, hi) == ParseDecimal(digits[lo..hi])
    decreases hi
  {
    DigitsSlice(digits, lo, hi);
    if hi > lo {
      var s := digits[lo..hi];
      assert s[..|s| - 1] == digits[lo..hi - 1];
      assert s[|s| - 1] == digits[hi - 1];
      GroupValueParse(digits, lo, hi - 1);
    }
  }

  /** Reading a range in two parts: the left part is shifted by the length
      of the right part. */
  lemma {:induction false} GroupValueSplit(digits: string, lo: nat, mid: nat, hi: nat)
    requires IsDigits(digits) && lo <= mid <= hi <= |digits|
    ensures GroupValue(digits, lo, hi) == GroupValue(digits, lo, mid) * Pow10(hi - mid) + GroupValue(digits, mid, hi)
    decreases hi
  {
    if hi > mid {
      GroupValueSplit(digits, lo, mid, hi - 1);
      var a, p, b, e := GroupValue(digits, lo, mid), Pow10(hi - 1 - mid), GroupValue(digits, mid, hi - 1), DigitValue(digits[hi - 1]);
      ShiftAdd(a, p, b, e);
    }
  }

  /** The numbers of the four groups: each group's digits parsed, leading
      zeros collapsing. */
  function GroupValues(digits: string, c: Cut): (g: seq<int>)
    requires IsDigits(digits) && IsCut(c, |digits| - 1)
    ensures |g| == 4
  {
    [GroupValue(digits, 0, c.i + 1), GroupValue(digits, c.i + 1, c.j + 1),
     GroupValue(digits, c.j + 1, c.k + 1), GroupValue(digits, c.k + 1, |digits|)]
  }

  lemma DigitsSlice(digits: string, a: nat, b: nat)
    requires IsDigits(digits) && a <= b <= |digits|
    ensures IsDigits(digits[a..b])
  {
    forall t | 0 <= t < b - a ensures IsDigit(digits[a..b][t]) {
      assert digits[a..b][t] == digits[a + t];
    }
  }

  /** A cut yields exactly four non-empty groups which, put back together,
      give the original digit string. */
  lemma PiecesPartition(digits: string, c: Cut)
    requires IsCut(c, |digits| - 1)
    ensures |Pieces(digits, c)| == 4
    ensures forall t :: 0 <= t < 4 ==> |Pieces(digits, c)[t]| >= 1
    ensures Pieces(digits, c)[0] + Pieces(digits, c)[1] + Pieces(digits, c)[2] + Pieces(digits, c)[3] == digits
    ensures IsDigits(digits) ==>
              forall t :: 0 <= t < 4 ==>
                IsDigits(Pieces(digits, c)[t]) && GroupValues(digits, c)[t] == ParseDecimal(Pieces(digits, c)[t])
  {
    PiecesJoin(digits, c);
    if IsDigits(digits) {
      PiecesParse(digits, c);
    }
  }

  lemma PiecesJoin(digits: string, c: Cut)
    requires IsCut(c, |digits| - 1)
    ensures Pieces(digits, c)[0] + Pieces(digits, c)[1] + Pieces(digits, c)[2] + Pieces(digits, c)[3] == digits
  {
    var p := Pieces(digits, c);
    assert p[0] + p[1] == digits[..c.j + 1];
    assert p[0] + p[1] + p[2] == digits[..c.k + 1];
  }

  lemma PiecesParse(digits: string, c: Cut)
    requires IsDigits(digits) && IsCut(c, |digits| - 1)
    ensures forall t :: 0 <= t < 4 ==>
              IsDigits(Pieces(digits, c)[t]) && GroupValues(digits, c)[t] == ParseDecimal(Pieces(digits, c)[t])
  {
    forall t | 0 <= t < 4
      ensures IsDigits(Pieces(digits, c)[t]) && GroupValues(digits, c)[t] == ParseDecimal(Pieces(digits, c)[t])
    {
      var lo, hi := GroupStart(c, t), GroupEnd(c, t, |digits|);
      PieceAt(digits, c, t);
      GroupAt(digits, c, t);
      GroupValueParse(digits, lo, hi);
    }
  }

  /** Piece m of a cut is the digits from its start to its end. */
  lemma PieceAt(digits: string, c: Cut, m: nat)
    requires IsCut(c, |digits| - 1) && m < 4
    ensures GroupStart(c, m) <= GroupEnd(c, m, |digits|) <= |digits|
    ensures Pieces(digits, c)[m] == digits[GroupStart(c, m)..GroupEnd(c, m, |digits|)]
  {
    var p := Pieces(digits, c);
    if m == 0 {
      assert p[0] == digits[..c.i + 1];
    } else if m == 1 {
      assert p[1] == digits[c.i + 1..c.j + 1];
    } else if m == 2 {
      assert p[2] == digits[c.j + 1..c.k + 1];
    } else {
      assert p[3] == digits[c.k + 1..];
    }
  }

  /** How many of the cut's gaps lie before gap g. */
  function CutsBefore(c: Cut, g: nat): nat {
    (if c.i < g then 1 else 0) + (if c.j < g then 1 else 0) + (if c.k < g then 1 else 0)
  }

  /** Where group m starts. */
  function GroupStart(c: Cut, m: nat): nat
    requires m < 4
  {
    if m == 0 then 0 else if m == 1 then c.i + 1 else if m == 2 then c.j + 1 else c.k + 1
  }

  /** Where group m ends. */
  function GroupEnd(c: Cut, m: nat, n: nat): nat
    requires m < 4
  {
    if m == 0 then c.i + 1 else if m == 1 then c.j + 1 else if m == 2 then c.k + 1 else n
  }

  /** Group m of a cut is the digits from its start to its end. */
  lemma GroupAt(digits: string, c: Cut, m: nat)
    requires IsDigits(digits) && IsCut(c, |digits| - 1) && m < 4
    ensures GroupStart(c, m) <= GroupEnd(c, m, |digits|) <= |digits|
    ensures GroupValues(digits, c)[m] == GroupValue(digits, GroupStart(c, m), GroupEnd(c, m, |digits|))
  {
    var g := GroupValues(digits, c);
    if m == 0 {
      assert g[0] == GroupValue(digits, 0, c.i + 1);
    } else if m == 1 {
      assert g[1] == GroupValue(digits, c.i + 1, c.j + 1);
    } else if m == 2 {
      assert g[2] == GroupValue(digits, c.j + 1, c.k + 1);
    } else {
      assert g[3] == GroupValue(digits, c.k + 1, |digits|);
    }
  }

  /** The splitting loop of the source: walk the gap flags, close a group at
      each flagged gap, then close the last group at the end. */
  method SplitAtGaps(digits: string, c: Cut) returns (numbers: seq<int>)
    requires IsDigits(digits) && IsCut(c, |digits| - 1)
    ensures numbers == GroupValues(digits, c)
  {
    var nGaps := |digits| - 1;
    var flags := GapFlags(c, nGaps);
    ghost var expected := GroupValues(digits, c);
    numbers := [];
    var lastGap := 0;
    for g := 0 to nGaps
      invariant |numbers| == CutsBefore(c, g)
      invariant numbers == expected[..|numbers|]
      invariant lastGap == GroupStart(c, |numbers|)
    {
      if flags[g] {
        numbers := numbers + [GroupValue(digits, lastGap, g + 1)];
        lastGap := g + 1;
      }
    }
    numbers := numbers + [GroupValue(digits, lastGap, |digits|)];
  }

  /** The worked example beside the search: in 86455 the gaps 0, 1 and 3
      are flagged, giving the groups 8, 6, 45 and 5. */
  lemma ExampleGroups86455()
    ensures GapFlags(Cut(0, 1, 3), 4) == [true, true, false, true]
    ensures GroupValues("86455", Cut(0, 1, 3)) == [8, 6, 45, 5]
  {
  }
}
