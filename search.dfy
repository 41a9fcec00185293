/** `calc_numeric_core`: cut the decimal digits of num into four groups at
    every triple of gaps, evaluate the groups under every operator order,
    take the smallest accepted value, and repeat on it while it has more
    than three digits. */
module Search {
  import opened Decimal
  import opened Evaluator
  import opened Combinatorics
  import opened Partition
  import opened Selection
  import opened Bounds

  /** The digits of num and the cut triples the search tries. */
  function Digits(num: nat): string {
    DecimalString(num)
  }

  function Cuts(num: nat): seq<Cut> {
    Combinations3(|Digits(num)| - 1)
  }

  /** Every entry of `cuts` is a cut triple of `nGaps` gaps. */
  predicate AllCuts(cuts: seq<Cut>, nGaps: int) {
    forall k :: 0 <= k < |cuts| ==> IsCut(cuts[k], nGaps)
  }

  lemma CombinationsAreCuts(n: nat)
    ensures AllCuts(Combinations3(n), n)
  {
    Combinations3Facts(n);
    forall k | 0 <= k < |Combinations3(n)| ensures IsCut(Combinations3(n)[k], n) {
      assert Combinations3(n)[k] in Combinations3(n);
    }
  }

  /** The first p cuts of `cuts`, each paired with the six operator orders,
      in the order the two loops of the search try them. */
  function CandidatesOf(d: string, cuts: seq<Cut>, p: nat): (es: seq<Expr>)
    requires IsDigits(d) && AllCuts(cuts, |d| - 1) && p <= |cuts|
    ensures |es| == 6 * p
    ensures WellFormed(es)
  {
    if p == 0 then []
    else
      var a := CandidatesOf(d, cuts, p - 1);
      var es := a + Expand(GroupValues(d, cuts[p - 1]), OperatorOrders());
      assert WellFormed(es) by {
        forall k | 0 <= k < |es| ensures |es[k].numbers| > 0 {
          if k < |a| { assert es[k] == a[k]; }
        }
      }
      es
  }

  /** The candidate expressions for num. */
  function Candidates(num: nat): (es: seq<Expr>)
    ensures WellFormed(es)
  {
    var d := Digits(num);
    CombinationsAreCuts(|d| - 1);
    CandidatesOf(d, Cuts(num), |Cuts(num)|)
  }

  /** `results` after both loops, for num. */
  function LevelResults(num: nat): seq<int> {
    Successes(Candidates(num))
  }

  /** The recursion of `calc_numeric_core`: `min(results)`, re-searched
      while it has more than three digits. */
  function NumericCore(num: nat): SearchResult
    decreases num
  {
    var results := LevelResults(num);
    LevelResultsBelow(num);
    if |results| == 0 then Unsolvable
    else
      var answer := MinOf(results);
      if |DecimalString(answer)| > 3 then NumericCore(answer) else Found(answer)
  }

  /** The source's search: the loops that collect `results`, `min`, and the
      recursive call. */
  method CalcNumericCore(num: nat) returns (r: SearchResult)
    ensures r == NumericCore(num)
    decreases num
  {
    var results := CollectResults(num);
    LevelResultsBelow(num);
    if |results| == 0 {
      return Unsolvable;
    }
    var answer := MinOf(results);
    if |DecimalString(answer)| > 3 {
      r := CalcNumericCore(answer);
    } else {
      r := Found(answer);
    }
  }

  /** The loop over cut triples, the splitting loop and the loop over
      operator orders, appending every accepted value to `results`. */
  method CollectResults(num: nat) returns (results: seq<int>)
    ensures results == LevelResults(num)
  {
    var digits := DecimalString(num);
    var nGaps := |digits| - 1;
    var patterns := Combinations3(nGaps);
    CombinationsAreCuts(nGaps);
    results := [];
    for p := 0 to |patterns|
      invariant results == Successes(CandidatesOf(digits, patterns, p))
    {
      var numbers := SplitAtGaps(digits, patterns[p]);
      results := TryOrders(numbers, results);
      NextCut(digits, patterns, p, OperatorOrders());
    }
  }

  /** The loop over the six operator orders: evaluate the numbers under
      each, appending every accepted value to `results`. */
  method TryOrders(numbers: seq<int>, results: seq<int>) returns (out: seq<int>)
    requires |numbers| > 0
    ensures out == results + Successes(Expand(numbers, OperatorOrders()))
  {
    var orders := OperatorOrders();
    out := results;
    for q := 0 to |orders|
      invariant WellFormed(Expand(numbers, orders[..q]))
      invariant out == results + Successes(Expand(numbers, orders[..q]))
    {
      TryOneMore(numbers, orders, q);
      var res := CalcCoreCandidate(numbers, orders[q]);
      if res.Ok? {
        out := out + [res.value];
      }
    }
    assert orders[..|orders|] == orders;
  }

  /** The inner loop's step: one more operator order, one more candidate. */
  lemma TryOneMore(numbers: seq<int>, orders: seq<seq<char>>, q: nat)
    requires |numbers| > 0 && q < |orders|
    ensures WellFormed(Expand(numbers, orders[..q + 1]))
    ensures Successes(Expand(numbers, orders[..q + 1])) ==
            Successes(Expand(numbers, orders[..q])) + Accepted(Expr(numbers, orders[q]))
  {
    ExpandSnoc(numbers, orders, q);
    SuccessesSnoc(Expand(numbers, orders[..q]), Expr(numbers, orders[q]));
  }

  /** The outer loop's step: the candidates of one more cut triple. */
  lemma NextCut(d: string, cuts: seq<Cut>, p: nat, orders: seq<seq<char>>)
    requires IsDigits(d) && AllCuts(cuts, |d| - 1) && p < |cuts|
    requires orders == OperatorOrders()
    ensures Successes(CandidatesOf(d, cuts, p + 1)) ==
            Successes(CandidatesOf(d, cuts, p)) + Successes(Expand(GroupValues(d, cuts[p]), orders))
  {
    SuccessesAppend(CandidatesOf(d, cuts, p), Expand(GroupValues(d, cuts[p]), orders));
  }

  lemma ExpandSnoc(numbers: seq<int>, orders: seq<seq<char>>, q: nat)
    requires q < |orders|
    ensures Expand(numbers, orders[..q + 1]) == Expand(numbers, orders[..q]) + [Expr(numbers, orders[q])]
  {
  }

  /** Every value the search accepts for num is a positive integer below
      num: this is why the recursion stops. */
  lemma LevelResultsBelow(num: nat)
    ensures forall x :: x in LevelResults(num) ==> 1 <= x < num
  {
    forall x | x in LevelResults(num) ensures 1 <= x < num {
      ResultBelow(num, x);
    }
  }

  lemma ResultBelow(num: nat, x: int)
    requires x in LevelResults(num)
    ensures 1 <= x < num
  {
    var es := Candidates(num);
    SuccessesIff(es, x);
    var i :| 0 <= i < |es| && Candidate(es[i].numbers, es[i].ops) == Ok(x);
    var d, cuts := Digits(num), Cuts(num);
    CombinationsAreCuts(|d| - 1);
    CandidateHasCut(d, cuts, |cuts|, es[i]);
    var k, o :| 0 <= k < |cuts| && o in OperatorOrders() && es[i] == Expr(GroupValues(d, cuts[k]), o);
    AcceptedBelow(d, cuts[k], o, x);
    DigitsValue(num);
  }

  /** Reading all the digits of num back gives num. */
  lemma DigitsValue(num: nat)
    ensures GroupValue(Digits(num), 0, |Digits(num)|) == num
  {
    var d := Digits(num);
    GroupValueParse(d, 0, |d|);
    assert d[0..|d|] == d;
    ParseDecimalString(num);
  }

  /** One accepted candidate of a cut is below the value of the digits. */
  lemma AcceptedBelow(d: string, c: Cut, o: seq<char>, x: int)
    requires IsDigits(d) && IsCut(c, |d| - 1) && o in OperatorOrders()
    requires Candidate(GroupValues(d, c), o) == Ok(x)
    ensures 1 <= x < GroupValue(d, 0, |d|)
  {
    var g := GroupValues(d, c);
    CandidateOkIff(g, o, x);
    OrderedCandidateBound(g, o, x);
    var t := if x <= g[0] * g[1] then 1 else if x <= g[0] * g[2] then 2 else 3;
    var below := g[0] * g[t];
    assert x <= below;
    FirstFactorPositive(g[0], g[t], x);
    GroupProductBelow(d, c, t);
  }

  /** A product that is at least 1, of two non-negative factors, has a
      positive first factor. */
  lemma FirstFactorPositive(a: int, b: int, x: int)
    requires a >= 0 && b >= 0 && 1 <= x <= a * b
    ensures a >= 1
  {
  }

  /** The candidates are exactly the groups of the cut triples under each
      operator order. */
  lemma CandidatesMembership(num: nat, e: Expr)
    ensures AllCuts(Cuts(num), |Digits(num)| - 1)
    ensures e in Candidates(num) <==>
            exists k, o :: 0 <= k < |Cuts(num)| && o in OperatorOrders() &&
                           e == Expr(GroupValues(Digits(num), Cuts(num)[k]), o)
  {
    var d, cuts := Digits(num), Cuts(num);
    CombinationsAreCuts(|d| - 1);
    if e in Candidates(num) {
      CandidateHasCut(d, cuts, |cuts|, e);
    }
    if exists k, o :: 0 <= k < |cuts| && o in OperatorOrders() && e == Expr(GroupValues(d, cuts[k]), o) {
      var k, o :| 0 <= k < |cuts| && o in OperatorOrders() && e == Expr(GroupValues(d, cuts[k]), o);
      CutHasCandidate(d, cuts, |cuts|, k, o);
    }
  }

  lemma {:induction false} CandidateHasCut(d: string, cuts: seq<Cut>, p: nat, e: Expr)
    requires IsDigits(d) && AllCuts(cuts, |d| - 1) && p <= |cuts|
    requires e in CandidatesOf(d, cuts, p)
    ensures exists k, o :: 0 <= k < p && o in OperatorOrders() && e == Expr(GroupValues(d, cuts[k]), o)
    decreases p
  {
    var tail := Expand(GroupValues(d, cuts[p - 1]), OperatorOrders());
    assert CandidatesOf(d, cuts, p) == CandidatesOf(d, cuts, p - 1) + tail;
    if e in tail {
      ExpandMembership(GroupValues(d, cuts[p - 1]), OperatorOrders(), e);
      assert e == Expr(GroupValues(d, cuts[p - 1]), e.ops);
    } else {
      CandidateHasCut(d, cuts, p - 1, e);
    }
  }

  lemma {:induction false} CutHasCandidate(d: string, cuts: seq<Cut>, p: nat, k: nat, o: seq<char>)
    requires IsDigits(d) && AllCuts(cuts, |d| - 1) && k < p <= |cuts| && o in OperatorOrders()
    ensures Expr(GroupValues(d, cuts[k]), o) in CandidatesOf(d, cuts, p)
    decreases p
  {
    var tail := Expand(GroupValues(d, cuts[p - 1]), OperatorOrders());
    assert CandidatesOf(d, cuts, p) == CandidatesOf(d, cuts, p - 1) + tail;
    if k == p - 1 {
      ExpandMembership(GroupValues(d, cuts[k]), OperatorOrders(), Expr(GroupValues(d, cuts[k]), o));
    } else {
      CutHasCandidate(d, cuts, p - 1, k, o);
    }
  }

  /** The search tries six expressions per cut triple: 6 * C(n_gaps, 3). */
  lemma CandidateCount(num: nat)
    ensures |Candidates(num)| == 6 * Binomial(|DecimalString(num)| - 1, 3)
  {
    Combinations3Facts(|DecimalString(num)| - 1);
  }

  /** Fewer than four digits leave fewer than three gaps, so nothing is
      tried and `min` of the empty list fails: every num below 1000,
      zero included, has no core. */
  lemma ShortInputUnsolvable(num: nat)
    requires num < 1000
    ensures Candidates(num) == []
    ensures NumericCore(num) == Unsolvable
  {
    AtMostThreeDigits(num);
    CandidateCount(num);
    BinomialSmall(|DecimalString(num)| - 1, 3);
  }

  /** A core, when there is one, is a positive number of at most three
      digits, below the input. */
  lemma {:induction false} CoreBounds(num: nat, v: nat)
    requires NumericCore(num) == Found(v)
    ensures 1 <= v < num && v < 1000
    decreases num
  {
    LevelResultsBelow(num);
    var m := MinOf(LevelResults(num));
    AtMostThreeDigits(m);
    if |DecimalString(m)| > 3 {
      CoreBounds(m, v);
    }
  }

  /** m is reached from num by the re-searches: num itself, or a level
      reached from the minimum of num's results when that minimum has more
      than three digits. */
  predicate OnChain(num: nat, m: nat)
    decreases num
  {
    m == num ||
    (LevelResultsBelow(num);
     var results := LevelResults(num);
     |results| > 0 && |DecimalString(MinOf(results))| > 3 && OnChain(MinOf(results), m))
  }

  /** The level at which a successful search stops: the number whose own
      minimum has at most three digits. */
  function FinalLevel(num: nat): (m: nat)
    requires NumericCore(num).Found?
    ensures m <= num
    decreases num
  {
    LevelResultsBelow(num);
    var answer := MinOf(LevelResults(num));
    if |DecimalString(answer)| > 3 then FinalLevel(answer) else num
  }

  /** A core is the smallest accepted value of the search at the final
      level of the chain of re-searches, and that level is at most num. */
  lemma {:induction false} CoreIsLevelMinimum(num: nat, v: nat)
    requires NumericCore(num) == Found(v)
    ensures OnChain(num, FinalLevel(num))
    ensures |LevelResults(FinalLevel(num))| > 0 && v == MinOf(LevelResults(FinalLevel(num)))
    ensures |DecimalString(v)| <= 3
    ensures v in LevelResults(FinalLevel(num)) && forall x :: x in LevelResults(FinalLevel(num)) ==> v <= x
    decreases num
  {
    LevelResultsBelow(num);
    var m := MinOf(LevelResults(num));
    if |DecimalString(m)| > 3 {
      CoreIsLevelMinimum(m, v);
    }
  }

  /** The core of a number has no core of its own: feeding a core back in
      finds no cut triple. */
  lemma CoreOfCoreUnsolvable(num: nat, v: nat)
    requires NumericCore(num) == Found(v)
    ensures NumericCore(v) == Unsolvable
  {
    CoreBounds(num, v);
    ShortInputUnsolvable(v);
  }

  /** 86455 has five digits, four gaps, and so four cut triples: 24
      candidates. */
  lemma Example86455()
    ensures |Candidates(86455)| == 24
  {
    Digits86455();
    CandidateCount(86455);
    assert Binomial(4, 3) == 4;
  }

  /** `str(86455)` */
  lemma Digits86455()
    ensures |DecimalString(86455)| == 5
  {
    assert DecimalString(8) == "8";
    assert DecimalString(86) == "86";
    assert DecimalString(864) == "864";
    assert DecimalString(8645) == "8645";
  }

  /** `str(1000)` */
  lemma Digits1000()
    ensures DecimalString(1000) == "1000"
  {
    assert DecimalString(1) == "1";
    assert DecimalString(10) == "10";
    assert DecimalString(100) == "100";
  }

  /** 1000 has one cut triple, giving 1, 0, 0, 0; every operator order
      divides by one of the zeros, so nothing is accepted. */
  lemma ExampleThousand()
    ensures NumericCore(1000) == Unsolvable
  {
    var es := Candidates(1000);
    ThousandCandidates();
    forall k | 0 <= k < |es| ensures Candidate(es[k].numbers, es[k].ops).Err? {
      assert OperatorOrders()[k] in OperatorOrders();
      TrailingZerosDivide(1, OperatorOrders()[k]);
    }
    NoneAccepted(es);
  }

  lemma ThousandCandidates()
    ensures Candidates(1000) == Expand([1, 0, 0, 0], OperatorOrders())
  {
    Digits1000();
    assert Combinations3(3) == [Cut(0, 1, 2)];
    assert GroupValues("1000", Cut(0, 1, 2)) == [1, 0, 0, 0];
  }

  /** Groups a, 0, 0, 0: whatever the order, its division is by zero. */
  lemma TrailingZerosDivide(a: int, o: seq<char>)
    requires o in OperatorOrders()
    ensures Candidate([a, 0, 0, 0], o) == Err(DivisionByZero)
  {
    var ns := [a, 0, 0, 0];
    assert ns[1..] == [0, 0, 0];
    var i := if o in ["dsm", "dms"] then 0 else if o in ["sdm", "mds"] then 1 else 2;
    FoldFirstError(a as real, ns[1..], o, i);
  }

  /** `str(9312)` */
  lemma Digits9312()
    ensures DecimalString(9312) == "9312"
  {
    assert DecimalString(9) == "9";
    assert DecimalString(93) == "93";
    assert DecimalString(931) == "931";
  }

  /** 9312 gives 9, 3, 1, 2; the order "dms" yields 9/3*1-2 = 1, the
      least value any candidate can take, and 1 has a single digit. */
  lemma ExampleNineThreeOneTwo()
    ensures NumericCore(9312) == Found(1)
  {
    NineThreeOneTwoCandidates();
    OneAccepted();
    LevelResultsBelow(9312);
    MinOfUnique(LevelResults(9312), 1);
  }

  /** Some order accepts 9, 3, 1, 2 with value 1. */
  lemma OneAccepted()
    ensures 1 in Successes(Expand([9, 3, 1, 2], OperatorOrders()))
  {
    var es := Expand([9, 3, 1, 2], OperatorOrders());
    DividesToOne();
    assert es[3] == Expr([9, 3, 1, 2], "dms");
    SuccessesIff(es, 1);
  }

  /** 9 / 3 * 1 - 2 */
  lemma DividesToOne()
    ensures Candidate([9, 3, 1, 2], "dms") == Ok(1)
  {
  }

  lemma NineThreeOneTwoCandidates()
    ensures Candidates(9312) == Expand([9, 3, 1, 2], OperatorOrders())
  {
    Digits9312();
    assert Combinations3(3) == [Cut(0, 1, 2)];
    assert GroupValues("9312", Cut(0, 1, 2)) == [9, 3, 1, 2];
  }
}
