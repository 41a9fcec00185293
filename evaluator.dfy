/** The expression evaluator `calc_core_candidate`: a strictly left-to-right
    fold of a list of integers with the operator tags 's' (subtract),
    'd' (true division) and 'm' (multiply), accepted only when the result is
    a positive integer.

    The source's accumulator becomes a Python float after the first
    division; the model computes with exact fractions instead, so the
    "positive and integral" test is decided exactly. Float rounding, which
    could in principle make the source accept or reject a different value,
    is not modelled. */
module Evaluator {
  import opened Rational

  /** Why one candidate expression is discarded. In the source an unknown
      operator and an invalid result are `ValueError`s, and a division by
      zero is a `ZeroDivisionError`; the searches catch all three and skip
      the candidate. */
  datatype EvalError = UnknownOperator | DivisionByZero | InvalidResult

  datatype Result<T> = Ok(value: T) | Err(error: EvalError)

  /** A (numbers, operator tags) pair as the searches hand it to the
      evaluator. */
  datatype Expr = Expr(numbers: seq<int>, ops: seq<char>)

  /** The only tags the evaluator knows. */
  predicate IsKnownOp(op: char) {
    op == 's' || op == 'd' || op == 'm'
  }

  /** `zip(numbers[1:], operands)` stops at the shorter of the two. */
  function PairCount(numbers: seq<int>, ops: seq<char>): (k: nat)
    requires |numbers| > 0
    ensures k <= |numbers| - 1 && k <= |ops|
    ensures k == |numbers| - 1 || k == |ops|
  {
    if |numbers| - 1 <= |ops| then |numbers| - 1 else |ops|
  }

  /** One step of the fold: the accumulator combined with the next number. */
  function Step(acc: real, n: int, op: char): Result<real> {
    if op == 's' then Ok(acc - n as real)
    else if op == 'd' then (if n == 0 then Err(DivisionByZero) else Ok(acc / n as real))
    else if op == 'm' then Ok(acc * n as real)
    else Err(UnknownOperator)
  }

  /** The exact left-to-right fold of the zipped pairs, starting from `acc`;
      the first failing step decides the error, as the first exception
      raised does in the source. */
  function Fold(acc: real, ns: seq<int>, ops: seq<char>): Result<real>
    decreases |ns|
  {
    if ns == [] || ops == [] then Ok(acc)
    else match Step(acc, ns[0], ops[0])
      case Err(e) => Err(e)
      case Ok(next) => Fold(next, ns[1..], ops[1..])
  }

  /** What `calc_core_candidate(numbers, operands)` returns or raises. */
  function Candidate(numbers: seq<int>, ops: seq<char>): Result<int>
    requires |numbers| > 0
  {
    match Fold(numbers[0] as real, numbers[1..], ops)
    case Err(e) => Err(e)
    case Ok(x) => if x <= 0.0 || x != x.Floor as real then Err(InvalidResult) else Ok(x.Floor)
  }

  /** A pair that makes the fold fail: an unknown tag, or a division by a
      zero number. */
  predicate Blocks(n: int, op: char) {
    !IsKnownOp(op) || (op == 'd' && n == 0)
  }

  /** The source's loop over the zipped pairs, with the accumulator held
      as an exact fraction. */
  method CalcCoreCandidate(numbers: seq<int>, ops: seq<char>) returns (r: Result<int>)
    requires |numbers| > 0
    ensures r == Candidate(numbers, ops)
    ensures r.Ok? ==> r.value >= 1
  {
    var acc := FromInt(numbers[0]);
    var pairs := PairCount(numbers, ops);
    var i := 0;
    while i < pairs
      invariant 0 <= i <= pairs
      invariant Fold(Value(acc), numbers[1 + i..], ops[i..]) == Fold(numbers[0] as real, numbers[1..], ops)
    {
      var n, op := numbers[1 + i], ops[i];
      ghost var before := Value(acc);
      if op == 's' {
        StepMinus(acc, n);
        acc := Minus(acc, n);
      } else if op == 'd' {
        if n == 0 {
          assert Step(before, n, op) == Err(DivisionByZero);
          return Err(DivisionByZero);
        }
        StepOver(acc, n);
        acc := Over(acc, n);
      } else if op == 'm' {
        StepTimes(acc, n);
        acc := Times(acc, n);
      } else {
        assert Step(before, n, op) == Err(UnknownOperator);
        return Err(UnknownOperator);
      }
      FoldStepOk(before, Value(acc), numbers[1 + i..], ops[i..]);
      assert numbers[1 + i..][1..] == numbers[1 + (i + 1)..];
      assert ops[i..][1..] == ops[i + 1..];
      i := i + 1;
    }
    assert numbers[1 + i..] == [] || ops[i..] == [];
    if !IsPositive(acc) || !IsIntegral(acc) {
      return Err(InvalidResult);
    }
    r := Ok(ToInt(acc));
  }

  lemma StepMinus(r: Rat, n: int)
    ensures Step(Value(r), n, 's') == Ok(Value(Minus(r, n)))
  {
  }

  lemma StepOver(r: Rat, n: int)
    requires n != 0
    ensures Step(Value(r), n, 'd') == Ok(Value(Over(r, n)))
  {
  }

  lemma StepTimes(r: Rat, n: int)
    ensures Step(Value(r), n, 'm') == Ok(Value(Times(r, n)))
  {
  }

  lemma FoldStepOk(acc: real, next: real, ns: seq<int>, ops: seq<char>)
    requires ns != [] && ops != [] && Step(acc, ns[0], ops[0]) == Ok(next)
    ensures Fold(acc, ns, ops) == Fold(next, ns[1..], ops[1..])
  {
  }

  /** Strictly left to right, no precedence: the last pair is applied to the
      fold of everything before it. */
  lemma {:induction false} FoldLastStep(acc: real, ns: seq<int>, ops: seq<char>, n: int, op: char)
    requires |ns| == |ops|
    decreases |ns|
    ensures Fold(acc, ns + [n], ops + [op]) ==
            match Fold(acc, ns, ops)
            case Err(e) => Err(e)
            case Ok(x) => Step(x, n, op)
  {
    if ns == [] {
      assert ns + [n] == [n] && ops + [op] == [op];
    } else {
      assert (ns + [n])[1..] == ns[1..] + [n];
      assert (ops + [op])[1..] == ops[1..] + [op];
      match Step(acc, ns[0], ops[0])
      case Err(e) =>
      case Ok(next) => FoldLastStep(next, ns[1..], ops[1..], n, op);
    }
  }

  /** The fold fails exactly when some zipped pair has an unknown tag or
      divides by zero. */
  lemma {:induction false} FoldFailsIff(acc: real, ns: seq<int>, ops: seq<char>)
    ensures Fold(acc, ns, ops).Err? <==>
            exists i :: 0 <= i < |ns| && i < |ops| && Blocks(ns[i], ops[i])
    decreases |ns|
  {
    if ns != [] && ops != [] {
      match Step(acc, ns[0], ops[0])
      case Err(e) =>
        assert Blocks(ns[0], ops[0]);
      case Ok(next) =>
        FoldFailsIff(next, ns[1..], ops[1..]);
        assert !Blocks(ns[0], ops[0]);
        if exists i :: 0 <= i < |ns| && i < |ops| && Blocks(ns[i], ops[i]) {
          var i :| 0 <= i < |ns| && i < |ops| && Blocks(ns[i], ops[i]);
          assert i > 0 && Blocks(ns[1..][i - 1], ops[1..][i - 1]);
        }
        if exists i :: 0 <= i < |ns| - 1 && i < |ops| - 1 && Blocks(ns[1..][i], ops[1..][i]) {
          var i :| 0 <= i < |ns| - 1 && i < |ops| - 1 && Blocks(ns[1..][i], ops[1..][i]);
          assert Blocks(ns[i + 1], ops[i + 1]);
        }
    }
  }

  /** Which error a failing fold reports: the one of its first blocking
      pair. */
  lemma {:induction false} FoldFirstError(acc: real, ns: seq<int>, ops: seq<char>, i: nat)
    requires i < |ns| && i < |ops| && Blocks(ns[i], ops[i])
    requires forall j :: 0 <= j < i ==> !Blocks(ns[j], ops[j])
    ensures Fold(acc, ns, ops) == Err(if IsKnownOp(ops[i]) then DivisionByZero else UnknownOperator)
    decreases i
  {
    if i > 0 {
      assert !Blocks(ns[0], ops[0]);
      match Step(acc, ns[0], ops[0])
      case Ok(next) =>
        forall j | 0 <= j < i - 1 ensures !Blocks(ns[1..][j], ops[1..][j]) {
          assert !Blocks(ns[j + 1], ops[j + 1]);
        }
        FoldFirstError(next, ns[1..], ops[1..], i - 1);
    }
  }

  /** The evaluator succeeds exactly with the positive integer that the exact
      fold produces. */
  lemma CandidateOkIff(numbers: seq<int>, ops: seq<char>, v: int)
    requires |numbers| > 0
    ensures Candidate(numbers, ops) == Ok(v) <==>
            (v >= 1 && Fold(numbers[0] as real, numbers[1..], ops) == Ok(v as real))
  {
  }

  function AsReal(k: int): real {
    k as real
  }

  /** The value is one of 1, 2, 3, ... */
  ghost predicate IsPositiveInteger(x: real) {
    exists k: int :: k >= 1 && AsReal(k) == x
  }

  /** The evaluator reports `InvalidResult` exactly when the fold goes through
      but its value is not a positive integer (zero, negative, or with a
      fractional part). */
  lemma CandidateInvalidIff(numbers: seq<int>, ops: seq<char>)
    requires |numbers| > 0
    ensures Candidate(numbers, ops) == Err(InvalidResult) <==>
            (Fold(numbers[0] as real, numbers[1..], ops).Ok? &&
             var x := Fold(numbers[0] as real, numbers[1..], ops).value;
             !IsPositiveInteger(x))
  {
    var f := Fold(numbers[0] as real, numbers[1..], ops);
    if f.Ok? && f.value > 0.0 && f.value == f.value.Floor as real {
      assert AsReal(f.value.Floor) == f.value;
    }
    FoldNeverInvalid(numbers[0] as real, numbers[1..], ops);
  }

  /** The fold itself never reports `InvalidResult`; only the final check
      does. */
  lemma {:induction false} FoldNeverInvalid(acc: real, ns: seq<int>, ops: seq<char>)
    ensures Fold(acc, ns, ops) != Err(InvalidResult)
    decreases |ns|
  {
    if ns != [] && ops != [] {
      match Step(acc, ns[0], ops[0])
      case Err(e) =>
      case Ok(next) => FoldNeverInvalid(next, ns[1..], ops[1..]);
    }
  }

  /** `[9,3,2]` with `("d","m")`: 9/3 = 3, 3*2 = 6. */
  lemma ExampleNineThreeTwo()
    ensures Candidate([9, 3, 2], ['d', 'm']) == Ok(6)
  {
  }

  /** `[8,6,4,5]` with `("s","d","m")`: 8-6 = 2, 2/4 = 0.5, 0.5*5 = 2.5,
      not an integer. */
  lemma ExampleEightSixFourFive()
    ensures Candidate([8, 6, 4, 5], ['s', 'd', 'm']) == Err(InvalidResult)
  {
    assert Fold(8.0, [6, 4, 5], ['s', 'd', 'm']) == Ok(2.5);
    assert 2.5.Floor == 2;
  }

  /** `[1, 49, 49, 0]` with `("d","m","s")`: exactly 1/49*49 - 0 = 1, which
      is accepted here; in floating point the source computes
      0.9999999999999999 and rejects it. */
  lemma ExampleExactDivision()
    ensures Candidate([1, 49, 49, 0], ['d', 'm', 's']) == Ok(1)
  {
    assert Fold(1.0, [49, 49, 0], ['d', 'm', 's']) == Ok(1.0);
  }
}
