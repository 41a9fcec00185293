/** Why the integer search terminates. With the numbers a, b, c, e (all
    non-negative) and any order of subtract, divide and multiply, a positive
    left-to-right result is at most a*b, a*c or a*e: subtracting a
    non-negative number, or dividing a positive value by a positive integer,
    never makes it larger, and exactly one multiplication happens. When the
    four numbers are the groups of the digits of num, a times any later
    group is below num, because the later groups occupy fewer digit
    positions than a is shifted by. */
module Bounds {
  import opened Decimal
  import opened Evaluator
  import opened Combinatorics
  import opened Partition
  import opened Rational

  lemma MulMono(y: real, z: real, d: real)
    requires y <= z && d >= 0.0
    ensures y * d <= z * d
  {
  }

  lemma DivShrinks(x: real, c: real)
    requires c >= 1.0 && x >= 0.0
    ensures 0.0 <= x / c <= x
  {
    assert x / c * c == x;
  }

  lemma PositiveFactor(y: real, d: real)
    requires d >= 0.0 && y * d > 0.0
    ensures y > 0.0
  {
    if y <= 0.0 { MulMono(y, 0.0, d); }
  }

  lemma PositiveDividend(x: real, c: real)
    requires c > 0.0 && x / c > 0.0
    ensures x > 0.0
  {
    assert x == x / c * c;
    MulMono(0.0, x / c, c);
  }

  /** The fold over three pairs, step by step. */
  lemma FoldThree(acc: real, b: int, c: int, e: int, o: seq<char>)
    requires |o| == 3
    ensures Fold(acc, [b, c, e], o) ==
            match Step(acc, b, o[0])
            case Err(err) => Err(err)
            case Ok(x) =>
              match Step(x, c, o[1])
              case Err(err) => Err(err)
              case Ok(y) => Step(y, e, o[2])
  {
    var o1, o2 := o[1..], o[2..];
    assert o1[0] == o[1] && o1[1..] == o2 && o2[0] == o[2] && o2[1..] == [];
    assert [b, c, e][1..] == [c, e] && [c, e][1..] == [e] && [e][1..] == [];
    match Step(acc, b, o[0])
    case Err(err) =>
    case Ok(x) =>
      assert Fold(acc, [b, c, e], o) == Fold(x, [c, e], o1);
      match Step(x, c, o[1])
      case Err(err) =>
      case Ok(y) =>
        assert Fold(x, [c, e], o1) == Fold(y, [e], o2);
        match Step(y, e, o[2])
        case Err(err) =>
        case Ok(z) =>
          assert Fold(y, [e], o2) == Fold(z, [], []);
  }

  /** A positive result of any operator order on four non-negative numbers
      is at most the first number times one of the others. */
  lemma OrderedCandidateBound(ns: seq<int>, o: seq<char>, v: int)
    requires |ns| == 4 && forall t :: 0 <= t < 4 ==> ns[t] >= 0
    requires o in OperatorOrders() && Candidate(ns, o) == Ok(v)
    ensures v <= ns[0] * ns[1] || v <= ns[0] * ns[2] || v <= ns[0] * ns[3]
  {
    if o == "sdm" {
      CandidateBoundSdm(ns, v);
    } else if o == "smd" {
      CandidateBoundSmd(ns, v);
    } else if o == "dsm" {
      CandidateBoundDsm(ns, v);
    } else if o == "dms" {
      CandidateBoundDms(ns, v);
    } else if o == "msd" {
      CandidateBoundMsd(ns, v);
    } else {
      assert o == "mds";
      CandidateBoundMds(ns, v);
    }
  }

  lemma CandidateBoundSdm(ns: seq<int>, v: int)
    requires |ns| == 4 && forall t :: 0 <= t < 4 ==> ns[t] >= 0
    requires Candidate(ns, "sdm") == Ok(v)
    ensures v <= ns[0] * ns[3]
  {
    UnrollCandidate(ns, "sdm", v);
    var a, b, c, e := ns[0] as real, ns[1] as real, ns[2] as real, ns[3] as real;
    var w := v as real;
    assert ns[2] != 0 && w == ((a - b) / c) * e;
    BoundSdm(a, b, c, e, w);
    AsRealBound(v, ns[0], ns[3]);
  }

  lemma CandidateBoundSmd(ns: seq<int>, v: int)
    requires |ns| == 4 && forall t :: 0 <= t < 4 ==> ns[t] >= 0
    requires Candidate(ns, "smd") == Ok(v)
    ensures v <= ns[0] * ns[2]
  {
    UnrollCandidate(ns, "smd", v);
    var a, b, c, e := ns[0] as real, ns[1] as real, ns[2] as real, ns[3] as real;
    var w := v as real;
    assert ns[3] != 0 && w == ((a - b) * c) / e;
    BoundSmd(a, b, c, e, w);
    AsRealBound(v, ns[0], ns[2]);
  }

  lemma CandidateBoundDsm(ns: seq<int>, v: int)
    requires |ns| == 4 && forall t :: 0 <= t < 4 ==> ns[t] >= 0
    requires Candidate(ns, "dsm") == Ok(v)
    ensures v <= ns[0] * ns[3]
  {
    UnrollCandidate(ns, "dsm", v);
    var a, b, c, e := ns[0] as real, ns[1] as real, ns[2] as real, ns[3] as real;
    var w := v as real;
    assert ns[1] != 0 && w == (a / b - c) * e;
    BoundDsm(a, b, c, e, w);
    AsRealBound(v, ns[0], ns[3]);
  }

  lemma CandidateBoundDms(ns: seq<int>, v: int)
    requires |ns| == 4 && forall t :: 0 <= t < 4 ==> ns[t] >= 0
    requires Candidate(ns, "dms") == Ok(v)
    ensures v <= ns[0] * ns[2]
  {
    UnrollCandidate(ns, "dms", v);
    var a, b, c, e := ns[0] as real, ns[1] as real, ns[2] as real, ns[3] as real;
    var w := v as real;
    assert ns[1] != 0 && w == (a / b) * c - e;
    BoundDms(a, b, c, e, w);
    AsRealBound(v, ns[0], ns[2]);
  }

  lemma CandidateBoundMsd(ns: seq<int>, v: int)
    requires |ns| == 4 && forall t :: 0 <= t < 4 ==> ns[t] >= 0
    requires Candidate(ns, "msd") == Ok(v)
    ensures v <= ns[0] * ns[1]
  {
    UnrollCandidate(ns, "msd", v);
    var a, b, c, e := ns[0] as real, ns[1] as real, ns[2] as real, ns[3] as real;
    var w := v as real;
    assert ns[3] != 0 && w == (a * b - c) / e;
    BoundMsd(a, b, c, e, w);
    AsRealBound(v, ns[0], ns[1]);
  }

  lemma CandidateBoundMds(ns: seq<int>, v: int)
    requires |ns| == 4 && forall t :: 0 <= t < 4 ==> ns[t] >= 0
    requires Candidate(ns, "mds") == Ok(v)
    ensures v <= ns[0] * ns[1]
  {
    UnrollCandidate(ns, "mds", v);
    var a, b, c, e := ns[0] as real, ns[1] as real, ns[2] as real, ns[3] as real;
    var w := v as real;
    assert ns[2] != 0 && w == (a * b) / c - e;
    BoundMds(a, b, c, e, w);
    AsRealBound(v, ns[0], ns[1]);
  }

  /** An accepted candidate over four numbers, with its fold written out. */
  lemma UnrollCandidate(ns: seq<int>, o: seq<char>, v: int)
    requires |ns| == 4 && |o| == 3 && Candidate(ns, o) == Ok(v)
    ensures v >= 1
    ensures Ok(v as real) ==
            match Step(ns[0] as real, ns[1], o[0])
            case Err(err) => Err(err)
            case Ok(x) =>
              match Step(x, ns[2], o[1])
              case Err(err) => Err(err)
              case Ok(y) => Step(y, ns[3], o[2])
  {
    CandidateOkIff(ns, o, v);
    assert ns[1..] == [ns[1], ns[2], ns[3]];
    FoldThree(ns[0] as real, ns[1], ns[2], ns[3], o);
  }

  lemma AsRealBound(v: int, x: int, y: int)
    requires v as real <= x as real * y as real
    ensures v <= x * y
  {
    ProductAsReal(x, y);
  }

  // One lemma per operator order; a divisor is a non-zero non-negative
  // integer, hence at least 1.

  lemma BoundSdm(a: real, b: real, c: real, e: real, w: real)
    requires a >= 0.0 && b >= 0.0 && c >= 1.0 && e >= 0.0
    requires w == ((a - b) / c) * e && w > 0.0
    ensures w <= a * e
  {
    PositiveFactor((a - b) / c, e);
    PositiveDividend(a - b, c);
    DivShrinks(a - b, c);
    MulMono((a - b) / c, a, e);
  }

  lemma BoundSmd(a: real, b: real, c: real, e: real, w: real)
    requires a >= 0.0 && b >= 0.0 && c >= 0.0 && e >= 1.0
    requires w == ((a - b) * c) / e && w > 0.0
    ensures w <= a * c
  {
    PositiveDividend((a - b) * c, e);
    DivShrinks((a - b) * c, e);
    PositiveFactor(a - b, c);
    MulMono(a - b, a, c);
  }

  lemma BoundDsm(a: real, b: real, c: real, e: real, w: real)
    requires a >= 0.0 && b >= 1.0 && c >= 0.0 && e >= 0.0
    requires w == (a / b - c) * e && w > 0.0
    ensures w <= a * e
  {
    PositiveFactor(a / b - c, e);
    DivShrinks(a, b);
    MulMono(a / b - c, a, e);
  }

  lemma BoundDms(a: real, b: real, c: real, e: real, w: real)
    requires a >= 0.0 && b >= 1.0 && c >= 0.0 && e >= 0.0
    requires w == (a / b) * c - e && w > 0.0
    ensures w <= a * c
  {
    DivShrinks(a, b);
    MulMono(a / b, a, c);
  }

  lemma BoundMsd(a: real, b: real, c: real, e: real, w: real)
    requires a >= 0.0 && b >= 0.0 && c >= 0.0 && e >= 1.0
    requires w == (a * b - c) / e && w > 0.0
    ensures w <= a * b
  {
    PositiveDividend(a * b - c, e);
    DivShrinks(a * b - c, e);
  }

  lemma BoundMds(a: real, b: real, c: real, e: real, w: real)
    requires a >= 0.0 && b >= 0.0 && c >= 1.0 && e >= 0.0
    requires w == (a * b) / c - e && w > 0.0
    ensures w <= a * b
  {
    MulMono(0.0, a, b);
    DivShrinks(a * b, c);
  }

  lemma ProductAsReal(x: int, y: int)
    ensures (x * y) as real == x as real * y as real
  {
  }

  lemma MulStrict(a: int, y: int, p: int)
    requires a >= 1 && 0 <= y < p
    ensures a * y < a * p
  {
    assert a * p - a * y == a * (p - y);
    assert a * (p - y) >= p - y by {
      assert a * (p - y) == (a - 1) * (p - y) + (p - y);
      NonNegativeProduct(a - 1, p - y);
    }
  }

  /** With a digit string cut into groups, the first group times any later
      group is below the value of the whole string (the first group being
      at least 1). */
  lemma GroupProductBelow(d: string, c: Cut, t: nat)
    requires IsDigits(d) && IsCut(c, |d| - 1) && 1 <= t < 4
    requires GroupValues(d, c)[0] >= 1
    ensures GroupValues(d, c)[0] * GroupValues(d, c)[t] < GroupValue(d, 0, |d|)
  {
    var g := GroupValues(d, c);
    var p := Pow10(|d| - (c.i + 1));
    GroupValueSplit(d, 0, c.i + 1, |d|);
    LaterGroupsBelow(d, c, t);
    MulStrict(g[0], g[t], p);
  }

  /** Each later group has fewer digits than follow the first group. */
  lemma LaterGroupsBelow(d: string, c: Cut, t: nat)
    requires IsDigits(d) && IsCut(c, |d| - 1) && 1 <= t < 4
    ensures GroupValues(d, c)[t] < Pow10(|d| - (c.i + 1))
  {
    GroupAt(d, c, t);
    PowMonotone(GroupEnd(c, t, |d|) - GroupStart(c, t), |d| - (c.i + 1));
  }
}
