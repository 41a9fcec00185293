/** What both searches share: pairing one list of numbers with every
    operator order, keeping the values of the candidates the evaluator
    accepts (the `try`/`except`/`continue` of the source), and Python's
    `min` over them. */
module Selection {
  import opened Evaluator

  /** The outcome of a search: its core, or `Unsolvable` where the source's
      `min(results)` raises on an empty list. */
  datatype SearchResult = Found(core: nat) | Unsolvable

  /** One list of numbers with each operator order, in order. */
  function Expand(numbers: seq<int>, orders: seq<seq<char>>): (es: seq<Expr>)
    ensures |es| == |orders|
    ensures forall q :: 0 <= q < |orders| ==> es[q] == Expr(numbers, orders[q])
  {
    seq(|orders|, q requires 0 <= q < |orders| => Expr(numbers, orders[q]))
  }

  /** The candidates of one list of numbers are that list with each order. */
  lemma ExpandMembership(numbers: seq<int>, orders: seq<seq<char>>, e: Expr)
    ensures e in Expand(numbers, orders) <==> e.numbers == numbers && e.ops in orders
  {
    var es := Expand(numbers, orders);
    if e.numbers == numbers && e.ops in orders {
      var q :| 0 <= q < |orders| && orders[q] == e.ops;
      assert es[q] == e;
    }
  }

  /** Every candidate has a first number for the evaluator to start from. */
  predicate WellFormed(es: seq<Expr>) {
    forall k :: 0 <= k < |es| ==> |es[k].numbers| > 0
  }

  /** The value a candidate contributes to `results`: one value if the
      evaluator accepts it, none if it raises. */
  function Accepted(e: Expr): seq<int>
    requires |e.numbers| > 0
  {
    match Candidate(e.numbers, e.ops)
    case Ok(v) => [v]
    case Err(_) => []
  }

  /** `results` after trying the candidates in order. */
  function Successes(es: seq<Expr>): seq<int>
    requires WellFormed(es)
  {
    if es == [] then [] else Successes(es[..|es| - 1]) + Accepted(es[|es| - 1])
  }

  lemma {:induction false} SuccessesAppend(a: seq<Expr>, b: seq<Expr>)
    requires WellFormed(a) && WellFormed(b)
    ensures WellFormed(a + b)
    ensures Successes(a + b) == Successes(a) + Successes(b)
    decreases |b|
  {
    assert WellFormed(a + b) by {
      forall k | 0 <= k < |a + b| ensures |(a + b)[k].numbers| > 0 {
        if k < |a| { assert (a + b)[k] == a[k]; } else { assert (a + b)[k] == b[k - |a|]; }
      }
    }
    if b == [] {
      assert a + b == a;
    } else {
      var b' := b[..|b| - 1];
      assert (a + b)[..|a + b| - 1] == a + b';
      assert (a + b)[|a + b| - 1] == b[|b| - 1];
      SuccessesAppend(a, b');
    }
  }

  /** Trying one more candidate appends its value, if any, to `results`. */
  lemma SuccessesSnoc(es: seq<Expr>, e: Expr)
    requires WellFormed(es) && |e.numbers| > 0
    ensures WellFormed(es + [e])
    ensures Successes(es + [e]) == Successes(es) + Accepted(e)
  {
    assert (es + [e])[..|es|] == es;
    assert WellFormed(es + [e]) by {
      forall k | 0 <= k < |es + [e]| ensures |(es + [e])[k].numbers| > 0 {
        if k < |es| { assert (es + [e])[k] == es[k]; }
      }
    }
  }

  /** A value is in `results` exactly when some candidate evaluates to it;
      and every such value is a positive integer. */
  lemma {:induction false} SuccessesIff(es: seq<Expr>, v: int)
    requires WellFormed(es)
    ensures v in Successes(es) <==>
            exists k :: 0 <= k < |es| && Candidate(es[k].numbers, es[k].ops) == Ok(v)
    ensures v in Successes(es) ==> v >= 1
    decreases |es|
  {
    if es != [] {
      var init, last := es[..|es| - 1], es[|es| - 1];
      SuccessesIff(init, v);
      if Candidate(last.numbers, last.ops) == Ok(v) {
        CandidateOkIff(last.numbers, last.ops, v);
      }
      if exists k :: 0 <= k < |es| && Candidate(es[k].numbers, es[k].ops) == Ok(v) {
        var k :| 0 <= k < |es| && Candidate(es[k].numbers, es[k].ops) == Ok(v);
        if k < |es| - 1 { assert init[k] == es[k]; }
      }
      if exists k :: 0 <= k < |init| && Candidate(init[k].numbers, init[k].ops) == Ok(v) {
        var k :| 0 <= k < |init| && Candidate(init[k].numbers, init[k].ops) == Ok(v);
        assert es[k] == init[k];
      }
    }
  }

  /** When every candidate raises, `results` stays empty. */
  lemma NoneAccepted(es: seq<Expr>)
    requires WellFormed(es)
    requires forall k :: 0 <= k < |es| ==> Candidate(es[k].numbers, es[k].ops).Err?
    ensures Successes(es) == []
  {
    if Successes(es) != [] {
      SuccessesIff(es, Successes(es)[0]);
    }
  }

  /** `min(results)` on a non-empty list: one of its values, and no larger
      than any of them. */
  function MinOf(s: seq<int>): (m: int)
    requires |s| > 0
    ensures m in s
    ensures forall x :: x in s ==> m <= x
  {
    if |s| == 1 then s[0]
    else
      var rest := MinOf(s[1..]);
      assert forall x :: x in s ==> x == s[0] || x in s[1..];
      if s[0] <= rest then s[0] else rest
  }

  /** The two properties of `min` determine it. */
  lemma MinOfUnique(s: seq<int>, v: int)
    requires v in s && forall x :: x in s ==> v <= x
    ensures MinOf(s) == v
  {
  }
}
