/** The two enumerations of the integer search:
    `combinations(range(n_gaps), 3)`, every strictly increasing triple of gap
    indices in lexicographic order, and `permutations("sdm", 3)`, the six
    operator orders. */
module Combinatorics {

  /** Three gap indices at which the digit string is cut. */
  datatype Cut = Cut(i: nat, j: nat, k: nat)

  /** A strictly increasing triple of gaps among `nGaps` gaps. */
  predicate IsCut(c: Cut, nGaps: int) {
    c.i < c.j < c.k < nGaps
  }

  predicate NoDuplicates<T(==)>(s: seq<T>) {
    forall a, b :: 0 <= a < b < |s| ==> s[a] != s[b]
  }

  /** The binomial coefficient, by Pascal's rule. */
  function Binomial(n: nat, r: nat): nat {
    if r == 0 then 1 else if n == 0 then 0 else Binomial(n - 1, r - 1) + Binomial(n - 1, r)
  }

  /** The triples (i, j, k') with k <= k' < n, in increasing k'. */
  function Thirds(i: nat, j: nat, k: nat, n: nat): seq<Cut>
    decreases n - k
  {
    if k >= n then [] else [Cut(i, j, k)] + Thirds(i, j, k + 1, n)
  }

  /** The triples (i, j', k) with j <= j' < k < n, in lexicographic order. */
  function Seconds(i: nat, j: nat, n: nat): seq<Cut>
    decreases n - j
  {
    if j >= n then [] else Thirds(i, j, j + 1, n) + Seconds(i, j + 1, n)
  }

  /** The triples (i', j, k) with i <= i' < j < k < n, in lexicographic
      order. */
  function Firsts(i: nat, n: nat): seq<Cut>
    decreases n - i
  {
    if i >= n then [] else Seconds(i, i + 1, n) + Firsts(i + 1, n)
  }

  /** `combinations(range(n), 3)` */
  function Combinations3(n: nat): seq<Cut> {
    Firsts(0, n)
  }

  lemma {:induction false} ThirdsFacts(i: nat, j: nat, k: nat, n: nat)
    requires k <= n
    ensures |Thirds(i, j, k, n)| == n - k
    ensures forall c :: c in Thirds(i, j, k, n) <==> c.i == i && c.j == j && k <= c.k < n
    ensures NoDuplicates(Thirds(i, j, k, n))
    decreases n - k
  {
    if k < n {
      ThirdsFacts(i, j, k + 1, n);
      NoDuplicatesConcat([Cut(i, j, k)], Thirds(i, j, k + 1, n));
    }
  }

  lemma {:induction false} SecondsFacts(i: nat, j: nat, n: nat)
    requires j <= n
    ensures |Seconds(i, j, n)| == Binomial(n - j, 2)
    ensures forall c :: c in Seconds(i, j, n) <==> c.i == i && j <= c.j < c.k < n
    ensures NoDuplicates(Seconds(i, j, n))
    decreases n - j
  {
    if j < n {
      ThirdsFacts(i, j, j + 1, n);
      SecondsFacts(i, j + 1, n);
      BinomialOne(n - j - 1);
      NoDuplicatesConcat(Thirds(i, j, j + 1, n), Seconds(i, j + 1, n));
    }
  }

  lemma {:induction false} FirstsFacts(i: nat, n: nat)
    requires i <= n
    ensures |Firsts(i, n)| == Binomial(n - i, 3)
    ensures forall c :: c in Firsts(i, n) <==> i <= c.i < c.j < c.k < n
    ensures NoDuplicates(Firsts(i, n))
    decreases n - i
  {
    if i < n {
      SecondsFacts(i, i + 1, n);
      FirstsFacts(i + 1, n);
      NoDuplicatesConcat(Seconds(i, i + 1, n), Firsts(i + 1, n));
    }
  }

  /** The enumeration lists every strictly increasing gap triple, nothing
      else, and each exactly once; so there are C(n, 3) of them. */
  lemma Combinations3Facts(n: nat)
    ensures forall c :: c in Combinations3(n) <==> IsCut(c, n)
    ensures NoDuplicates(Combinations3(n))
    ensures |Combinations3(n)| == Binomial(n, 3)
  {
    FirstsFacts(0, n);
  }

  lemma {:induction false} BinomialOne(n: nat)
    ensures Binomial(n, 1) == n
  {
    if n > 0 { BinomialOne(n - 1); }
  }

  /** Fewer than three gaps give no triple: C(n, 3) == 0 for n < 3. */
  lemma BinomialSmall(n: nat, r: nat)
    requires n < r
    ensures Binomial(n, r) == 0
  {
  }

  lemma NoDuplicatesConcat<T>(a: seq<T>, b: seq<T>)
    requires NoDuplicates(a) && NoDuplicates(b)
    requires forall x :: x in a ==> x !in b
    ensures NoDuplicates(a + b)
  {
    forall p, q | 0 <= p < q < |a + b| ensures (a + b)[p] != (a + b)[q] {
      if q < |a| {
        assert (a + b)[p] == a[p] && (a + b)[q] == a[q];
      } else if p >= |a| {
        assert (a + b)[p] == b[p - |a|] && (a + b)[q] == b[q - |a|];
      } else {
        assert (a + b)[p] == a[p] && (a + b)[q] == b[q - |a|];
        assert a[p] in a && b[q - |a|] in b;
      }
    }
  }

  /** `permutations("sdm", 3)`, in the order itertools produces them. */
  function OperatorOrders(): seq<seq<char>> {
    ["sdm", "smd", "dsm", "dms", "msd", "mds"]
  }

  /** An order of the three operators: three tags among which 's', 'd' and
      'm' all occur, hence each exactly once. */
  predicate IsOperatorOrder(o: seq<char>) {
    |o| == 3 && 's' in o && 'd' in o && 'm' in o
  }

  /** The six orders are exactly the permutations of "sdm", each listed
      once. */
  lemma OperatorOrdersFacts()
    ensures |OperatorOrders()| == 6
    ensures NoDuplicates(OperatorOrders())
    ensures forall o :: o in OperatorOrders() <==> IsOperatorOrder(o)
  {
    OperatorOrdersDistinct();
    forall o | o in OperatorOrders() ensures IsOperatorOrder(o) {
      OrderIsPermutation(o);
    }
    forall o | IsOperatorOrder(o) ensures o in OperatorOrders() {
      PermutationOfSdm(o);
    }
  }

  lemma OperatorOrdersDistinct()
    ensures NoDuplicates(OperatorOrders())
  {
    var all := OperatorOrders();
    forall a, b | 0 <= a < b < |all| ensures all[a] != all[b] {
      assert all[a][0] != all[b][0] || all[a][1] != all[b][1];
    }
  }

  lemma OrderIsPermutation(o: seq<char>)
    requires o in OperatorOrders()
    ensures IsOperatorOrder(o)
  {
    assert o[0] in o && o[1] in o && o[2] in o;
  }

  lemma PermutationOfSdm(o: seq<char>)
    requires IsOperatorOrder(o)
    ensures o in OperatorOrders()
  {
    assert o == [o[0], o[1], o[2]];
    assert forall ch :: ch in o ==> ch == o[0] || ch == o[1] || ch == o[2];
  }
}
