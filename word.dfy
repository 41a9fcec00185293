/** The word side of the package: `numeric_core_4letters`, which evaluates
    the letter positions of a word under the six operator orders, and
    `word_to_number`, which writes a word's letter positions side by side
    as one decimal number. */
module Word {
  import opened Decimal
  import opened Evaluator
  import opened Combinatorics
  import opened Selection
  import opened Bounds
  import opened Search

  datatype Option<T> = None | Some(value: T)

  predicate IsLetter(ch: char) {
    'a' <= ch <= 'z' || 'A' <= ch <= 'Z'
  }

  /** `ch.lower()` on the ASCII range. */
  function Lower(ch: char): (l: char)
    ensures IsLetter(ch) ==> 'a' <= l <= 'z'
    ensures !('A' <= ch <= 'Z') ==> l == ch
  {
    if 'A' <= ch <= 'Z' then (ch as int - 'A' as int + 'a' as int) as char else ch
  }

  const Alphabet: string := "abcdefghijklmnopqrstuvwxyz"

  /** `ord(letter.lower()) - ord("a") + 1`: a letter of either case gets its
      position in the alphabet, counting from 1, so distinct letters get
      distinct codes; any other character is taken as it is, and may give
      zero, a negative number or one above 26. */
  function LetterCode(ch: char): (n: int)
    ensures IsLetter(ch) ==> 1 <= n <= 26 && Alphabet[n - 1] == Lower(ch)
  {
    Lower(ch) as int - 'a' as int + 1
  }

  /** The list comprehension turning a word into its letter codes. */
  function LetterCodes(w: string): (ns: seq<int>)
    ensures |ns| == |w|
    ensures forall i :: 0 <= i < |w| ==> ns[i] == LetterCode(w[i])
    ensures forall i :: 0 <= i < |w| && IsLetter(w[i]) ==> 1 <= ns[i] <= 26 && Alphabet[ns[i] - 1] == Lower(w[i])
  {
    seq(|w|, i requires 0 <= i < |w| => LetterCode(w[i]))
  }

  /** `results` after trying the six operator orders on the codes. */
  function WordResults(w: string): seq<int>
    requires |w| > 0
  {
    Successes(Expand(LetterCodes(w), OperatorOrders()))
  }

  lemma WordResultsPositive(w: string)
    requires |w| > 0
    ensures forall x :: x in WordResults(w) ==> x >= 1
  {
    forall x | x in WordResults(w) ensures x >= 1 {
      SuccessesIff(Expand(LetterCodes(w), OperatorOrders()), x);
    }
  }

  /** What `numeric_core_4letters(w)` returns: `min(results)`, handed to
      the integer search when it has more than three digits. */
  function WordCore(w: string): SearchResult
    requires |w| > 0
  {
    var results := WordResults(w);
    WordResultsPositive(w);
    if |results| == 0 then Unsolvable
    else
      var answer := MinOf(results);
      if |DecimalString(answer)| > 3 then NumericCore(answer) else Found(answer)
  }

  /** The source's loop over the operator orders. */
  method NumericCore4Letters(letters: string) returns (r: SearchResult)
    requires |letters| > 0
    ensures r == WordCore(letters)
  {
    var results := TryOrders(LetterCodes(letters), []);
    assert results == WordResults(letters);
    WordResultsPositive(letters);
    if |results| == 0 {
      return Unsolvable;
    }
    var answer := MinOf(results);
    if |DecimalString(answer)| > 3 {
      r := CalcNumericCore(answer);
    } else {
      r := Found(answer);
    }
  }

  /** On four letters every accepted value is at most 26 * 26. */
  lemma WordResultsBounded(w: string)
    requires |w| == 4 && forall i :: 0 <= i < 4 ==> IsLetter(w[i])
    ensures forall x :: x in WordResults(w) ==> 1 <= x <= 676
  {
    var ns := LetterCodes(w);
    var es := Expand(ns, OperatorOrders());
    forall x | x in WordResults(w) ensures 1 <= x <= 676 {
      SuccessesIff(es, x);
      var k :| 0 <= k < |es| && Candidate(es[k].numbers, es[k].ops) == Ok(x);
      assert OperatorOrders()[k] in OperatorOrders();
      OrderedCandidateBound(ns, OperatorOrders()[k], x);
      var t :| 1 <= t < 4 && x <= ns[0] * ns[t];
      ProductAtMost(ns[0], ns[t], 26);
    }
  }

  lemma ProductAtMost(a: int, b: int, m: int)
    requires 0 <= a <= m && 0 <= b <= m
    ensures a * b <= m * m
  {
    MulMono(a as real, m as real, b as real);
    MulMono(b as real, m as real, m as real);
    ProductAsReal(a, b);
    ProductAsReal(m, m);
  }

  /** On four letters the integer search is never called: the core is the
      smallest accepted value, and there is none exactly when no order is
      accepted. */
  lemma WordCoreIsMinimum(w: string, v: nat)
    requires |w| == 4 && forall i :: 0 <= i < 4 ==> IsLetter(w[i])
    ensures WordCore(w) == Found(v) <==>
            v in WordResults(w) && forall x :: x in WordResults(w) ==> v <= x
    ensures WordCore(w) == Unsolvable <==> WordResults(w) == []
  {
    WordResultsBounded(w);
    var results := WordResults(w);
    if |results| > 0 {
      AtMostThreeDigits(MinOf(results));
      if v in results && forall x :: x in results ==> v <= x {
        MinOfUnique(results, v);
      }
    }
  }

  /** Whichever way the word search ends, a core has at most three digits. */
  lemma WordCoreBounds(w: string, v: nat)
    requires |w| > 0 && WordCore(w) == Found(v)
    ensures 1 <= v < 1000
  {
    WordResultsPositive(w);
    var m := MinOf(WordResults(w));
    AtMostThreeDigits(m);
    if |DecimalString(m)| > 3 {
      CoreBounds(m, v);
    }
  }

  /** The core of a word does not depend on the case of its letters. */
  lemma WordCoreIgnoresCase(w: string, w': string)
    requires |w| == |w'| > 0
    requires forall i :: 0 <= i < |w| ==> Lower(w[i]) == Lower(w'[i])
    ensures WordCore(w) == WordCore(w')
  {
    assert LetterCodes(w) == LetterCodes(w');
  }

  /** "zzzz": 26, 26, 26, 26; only "msd" is accepted: (26*26-26)/26 = 25. */
  lemma ExampleZzzz()
    ensures WordCore("zzzz") == Found(25)
  {
    assert LetterCodes("zzzz") == [26, 26, 26, 26];
    ZzzzResults();
    WordCoreIsMinimum("zzzz", 25);
  }

  /** Of the six orders on 26, 26, 26, 26 only "msd" is accepted. */
  lemma ZzzzResults()
    ensures 25 in Successes(Expand([26, 26, 26, 26], OperatorOrders()))
    ensures forall x :: x in Successes(Expand([26, 26, 26, 26], OperatorOrders())) ==> x == 25
  {
    var ns := [26, 26, 26, 26];
    var es := Expand(ns, OperatorOrders());
    ZzzzOrders();
    assert es[4] == Expr(ns, "msd");
    SuccessesIff(es, 25);
    forall k | 0 <= k < |es| && k != 4 ensures Candidate(es[k].numbers, es[k].ops).Err? {
      assert es[k] == Expr(ns, OperatorOrders()[k]);
    }
    forall x | x in Successes(es) ensures x == 25 {
      SuccessesIff(es, x);
    }
  }

  lemma ZzzzOrders()
    ensures Candidate([26, 26, 26, 26], "sdm") == Err(InvalidResult)
    ensures Candidate([26, 26, 26, 26], "smd") == Err(InvalidResult)
    ensures Candidate([26, 26, 26, 26], "dsm").Err?
    ensures Candidate([26, 26, 26, 26], "dms") == Err(InvalidResult)
    ensures Candidate([26, 26, 26, 26], "msd") == Ok(25)
    ensures Candidate([26, 26, 26, 26], "mds") == Err(InvalidResult)
  {
  }

  /** "abcd": 1, 2, 3, 4; every order goes negative or stays below 1. */
  lemma ExampleAbcd()
    ensures WordCore("abcd") == Unsolvable
  {
    var ns := LetterCodes("abcd");
    assert ns == [1, 2, 3, 4];
    var es := Expand(ns, OperatorOrders());
    forall k | 0 <= k < |es| ensures Candidate(es[k].numbers, es[k].ops).Err? {
      assert es[k] == Expr(ns, OperatorOrders()[k]);
    }
    NoneAccepted(es);
  }

  /** `str(n)` for any integer, as `word_to_number` applies it to letter
      codes. */
  function IntString(n: int): string {
    if n < 0 then "-" + DecimalString(-n) else DecimalString(n)
  }

  /** `"".join(parts)` */
  function Join(parts: seq<string>): string {
    if parts == [] then "" else parts[0] + Join(parts[1..])
  }

  /** `int(s)` on a string made of digits and minus signs, the only
      characters `str` of an integer can produce: an optional sign, then at
      least one digit (leading zeros allowed); anything else raises. */
  function PythonInt(s: string): (r: Option<int>)
    ensures r.Some? <==> (|s| > 0 && IsDigits(s)) || (|s| > 1 && s[0] == '-' && IsDigits(s[1..]))
  {
    if |s| > 0 && IsDigits(s) then Some(ParseDecimal(s))
    else if |s| > 1 && s[0] == '-' && IsDigits(s[1..]) then Some(-(ParseDecimal(s[1..]) as int))
    else None
  }

  /** `int(str(n)) == n` for an integer of either sign. */
  lemma PythonIntString(n: int)
    ensures PythonInt(IntString(n)) == Some(n)
  {
    if n < 0 {
      PythonIntNegative(n);
    } else {
      ParseDecimalString(n);
    }
  }

  lemma PythonIntNegative(n: int)
    requires n < 0
    ensures PythonInt(IntString(n)) == Some(n)
  {
    var s, t := IntString(n), DecimalString(-n);
    assert s[1..] == t;
    assert !IsDigits(s) by { assert !IsDigit(s[0]); }
    ParseDecimalString(-n);
  }

  /** The letter codes of a word, each written in decimal. */
  function Numerics(w: string): (parts: seq<string>)
    ensures |parts| == |w|
  {
    seq(|w|, i requires 0 <= i < |w| => IntString(LetterCode(w[i])))
  }

  /** `word_to_number` as written: the `isdigit` test builds a `ValueError`
      without raising it, so the result is whatever `int` makes of the
      joined string. */
  function WordToNumber(w: string): (r: Option<int>)
    ensures r.Some? ==> |w| > 0
    ensures r.Some? && r.value < 0 ==> LetterCode(w[0]) < 0
  {
    var s := Join(Numerics(w));
    JoinStart(Numerics(w));
    PythonInt(s)
  }

  /** `word_to_number` with the check raising as evidently intended: only
      an all-digit joined string is converted. */
  function WordToNumberChecked(w: string): (r: Option<int>)
    ensures r.Some? ==> r.value >= 0 && WordToNumber(w) == r
  {
    var s := Join(Numerics(w));
    if |s| > 0 && IsDigits(s) then Some(ParseDecimal(s)) else None
  }

  /** A joined string starts with the first part's first character; the
      empty list joins to "". */
  lemma JoinStart(parts: seq<string>)
    requires forall i :: 0 <= i < |parts| ==> |parts[i]| > 0
    ensures |Join(parts)| > 0 <==> |parts| > 0
    ensures |parts| > 0 ==> Join(parts)[0] == parts[0][0]
  {
  }

  /** On a word of letters the codes are written side by side: the result
      is the number whose decimal form is exactly the joined codes, and the
      check agrees. */
  lemma WordToNumberLetters(w: string)
    requires |w| > 0 && forall i :: 0 <= i < |w| ==> IsLetter(w[i])
    ensures WordToNumber(w).Some? && WordToNumber(w).value >= 1
    ensures DecimalString(WordToNumber(w).value) == Join(Numerics(w))
    ensures WordToNumberChecked(w) == WordToNumber(w)
  {
    var parts := Numerics(w);
    forall i | 0 <= i < |parts| ensures IsDigits(parts[i]) && |parts[i]| >= 1 && parts[i][0] != '0' {
      assert parts[i] == DecimalString(LetterCode(w[i]));
    }
    JoinDigits(parts);
    var s := Join(parts);
    DecimalStringParse(s);
  }

  /** Joining digit strings that do not start with '0' gives such a string. */
  lemma {:induction false} JoinDigits(parts: seq<string>)
    requires |parts| > 0
    requires forall i :: 0 <= i < |parts| ==> IsDigits(parts[i]) && |parts[i]| >= 1 && parts[i][0] != '0'
    ensures IsDigits(Join(parts)) && |Join(parts)| >= 1 && Join(parts)[0] != '0'
    decreases |parts|
  {
    var rest := parts[1..];
    if rest == [] {
      assert Join(parts) == parts[0] + Join(rest);
      assert Join(rest) == "";
      DigitsConcat(parts[0], "");
    } else {
      forall i | 0 <= i < |rest| ensures IsDigits(rest[i]) && |rest[i]| >= 1 && rest[i][0] != '0' {
        assert rest[i] == parts[i + 1];
      }
      JoinDigits(rest);
      DigitsConcat(parts[0], Join(rest));
    }
  }

  /** The empty word joins to "", on which `int` raises. */
  lemma EmptyWordFails()
    ensures WordToNumber("") == None
    ensures WordToNumberChecked("") == None
  {
  }

  /** '^' is the character before 'a' by two: its code is -2, "-2" fails
      the `isdigit` test, and yet the source returns -2, since the error is
      never raised. */
  lemma CaretSlipsThrough()
    ensures WordToNumber("^") == Some(-2)
    ensures WordToNumberChecked("^") == None
  {
    assert LetterCode('^') == -2;
    assert DecimalString(2) == "2";
    assert IntString(-2) == "-2";
    assert Numerics("^") == ["-2"];
    assert Join(["-2"]) == "-2";
    assert !IsDigit('-');
  }

  /** The check only removes outcomes, and what it removes are the
      results of a leading minus sign. */
  lemma CheckedRefinesAsWritten(w: string)
    ensures WordToNumberChecked(w).Some? ==> WordToNumber(w) == WordToNumberChecked(w)
    ensures WordToNumberChecked(w).Some? ==> WordToNumberChecked(w).value >= 0
    ensures WordToNumber(w).Some? && WordToNumberChecked(w).None? ==>
              WordToNumber(w).value <= 0 && Join(Numerics(w))[0] == '-'
  {
  }
}
