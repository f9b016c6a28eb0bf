/** The running standard deviation, over exact reals. */
module Welford {
  import opened Outcome
  import Permutations

  function Sum(xs: seq<real>): real {
    if xs == [] then 0.0 else Sum(xs[..|xs| - 1]) + xs[|xs| - 1]
  }

  function SumOfSquares(xs: seq<real>): real {
    if xs == [] then 0.0 else SumOfSquares(xs[..|xs| - 1]) + Square(xs[|xs| - 1])
  }

  function Mean(xs: seq<real>): real {
    if xs == [] then 0.0 else Sum(xs) / |xs| as real
  }

  /** The sum of squared deviations from `c`. */
  function Deviations(xs: seq<real>, c: real): (r: real)
    ensures r >= 0.0
  {
    if xs == [] then 0.0 else Deviations(xs[..|xs| - 1], c) + Square(xs[|xs| - 1] - c)
  }

  function Square(x: real): (r: real)
    ensures r >= 0.0
  {
    x * x
  }

  /** A product, kept whole in proofs about sums. */
  function Times(x: real, y: real): real {
    x * y
  }

  /** The arguments that are numbers. */
  function Numbers(args: seq<Option<real>>): seq<real> {
    if args == [] then []
    else
      var rest := Numbers(args[..|args| - 1]);
      match args[|args| - 1]
      case None => rest
      case Some(x) => rest + [x]
  }

  /** The accumulator of `StandardDeviation`. */
  class StandardDeviation {
    var count: nat
    var mean: real
    var m2: real

    constructor ()
      ensures Holds([])
    {
      count, mean, m2 := 0, 0.0, 0.0;
    }

    /** The accumulator describes the numbers `xs`: their true mean and their true sum of squared
        deviations from it. */
    ghost predicate Holds(xs: seq<real>)
      reads this
    {
      count == |xs| && mean == Mean(xs) && m2 == Deviations(xs, Mean(xs))
    }

    method Step(arg: Option<real>, ghost args: seq<Option<real>>)
      requires Holds(Numbers(args))
      modifies this
      ensures Holds(Numbers(args + [arg]))
    {
      hide *;
      ghost var xs := Numbers(args);
      NumbersStep(args, arg);
      HoldsMeans(xs);
      if arg.Some? {
        var x := arg.value;
        count := count + 1;
        var delta := x - mean;
        mean := mean + delta / count as real;
        var delta2 := x - mean;
        m2 := m2 + delta * delta2;
        OneMore(xs, x, mean);
        assert Times(delta, delta2) == delta * delta2 by {
          TimesIs(delta, delta2);
        }
        HoldsMeans(xs + [x]);
      } else {
        HoldsMeans(xs);
      }
    }

    lemma HoldsMeans(xs: seq<real>)
      ensures Holds(xs) <==> count == |xs| && mean == Mean(xs) && m2 == Deviations(xs, Mean(xs))
    {
    }

    /** The square root of the variance, which is never negative; none below two numbers. */
    method Finalize(sqrt: real -> real, ghost args: seq<Option<real>>) returns (r: Option<real>)
      requires Holds(Numbers(args))
      ensures var xs := Numbers(args);
              && r == (if |xs| < 2 then None else Some(sqrt(Deviations(xs, Mean(xs)) / (|xs| - 1) as real)))
              && (|xs| >= 2 ==> Deviations(xs, Mean(xs)) / (|xs| - 1) as real >= 0.0)
    {
      if count < 2 {
        return None;
      }
      Quotient(m2, (count - 1) as real);
      var variance := m2 / (count - 1) as real;
      r := Some(sqrt(variance));
    }
  }

  /** The aggregate over a whole column. */
  method StdDev(sqrt: real -> real, args: seq<Option<real>>) returns (r: Option<real>)
    ensures var xs := Numbers(args);
            r == if |xs| < 2 then None else Some(sqrt(Deviations(xs, Mean(xs)) / (|xs| - 1) as real))
  {
    var acc := new StandardDeviation();
    for i := 0 to |args|
      invariant acc.Holds(Numbers(args[..i]))
    {
      acc.Step(args[i], args[..i]);
      assert args[..i] + [args[i]] == args[..i + 1];
    }
    assert args[..|args|] == args;
    r := acc.Finalize(sqrt, args);
  }

  lemma Quotient(a: real, b: real)
    requires a >= 0.0 && b > 0.0
    ensures a / b >= 0.0
  {
  }

  lemma TimesIs(x: real, y: real)
    ensures Times(x, y) == x * y
  {
  }

  lemma NumbersStep(args: seq<Option<real>>, arg: Option<real>)
    ensures Numbers(args + [arg]) == if arg.Some? then Numbers(args) + [arg.value] else Numbers(args)
  {
    assert (args + [arg])[..|args|] == args;
  }

  lemma {:induction false} DeviationsExpand(xs: seq<real>, c: real)
    ensures Deviations(xs, c) == SumOfSquares(xs) - 2.0 * Times(c, Sum(xs)) + Times(|xs| as real, Square(c))
  {
    hide Times, Square;
    if xs != [] {
      var front, x := xs[..|xs| - 1], xs[|xs| - 1];
      DeviationsExpand(front, c);
      SquareExpand(x, c, Sum(front), |front| as real);
      assert |xs| as real == |front| as real + 1.0;
    } else {
      ZeroTimes(c);
    }
  }

  lemma ZeroTimes(c: real)
    ensures Times(c, 0.0) == 0.0 == Times(0.0, Square(c))
  {
  }

  lemma SquareExpand(x: real, c: real, s: real, n: real)
    ensures Square(x - c) == Square(x) - 2.0 * Times(c, x) + Square(c)
    ensures Times(c, s + x) == Times(c, s) + Times(c, x)
    ensures Times(n + 1.0, Square(c)) == Times(n, Square(c)) + Square(c)
  {
  }

  lemma MeanTimesCount(xs: seq<real>)
    ensures Times(|xs| as real, Mean(xs)) == Sum(xs)
  {
  }

  /** The deviations from the mean, from the two sums alone. */
  lemma DeviationsFromMean(xs: seq<real>)
    ensures Deviations(xs, Mean(xs)) == SumOfSquares(xs) - Times(Mean(xs), Sum(xs))
  {
    hide *;
    var m := Mean(xs);
    DeviationsExpand(xs, m);
    MeanTimesCount(xs);
    Cancel(m, Sum(xs), |xs| as real);
  }

  lemma Cancel(m: real, s: real, n: real)
    requires Times(n, m) == s
    ensures Times(n, Square(m)) == Times(m, s)
  {
  }

  lemma SumsStep(xs: seq<real>, x: real)
    ensures Sum(xs + [x]) == Sum(xs) + x && SumOfSquares(xs + [x]) == SumOfSquares(xs) + Square(x)
  {
    hide Square;
    assert (xs + [x])[..|xs|] == xs;
  }

  lemma MeanStep(xs: seq<real>, x: real)
    ensures Mean(xs + [x]) == (Sum(xs) + x) / (|xs| + 1) as real
  {
    hide Sum, SumOfSquares;
    SumsStep(xs, x);
  }

  /** Welford's step is exact. */
  lemma OneMore(xs: seq<real>, x: real, m': real)
    requires m' == Mean(xs) + (x - Mean(xs)) / (|xs| + 1) as real
    ensures m' == Mean(xs + [x])
    ensures Deviations(xs, Mean(xs)) + Times(x - Mean(xs), x - m') == Deviations(xs + [x], m')
  {
    hide *;
    var n, m := |xs| as real, Mean(xs);
    SumsStep(xs, x);
    MeanStep(xs, x);
    MeanTimesCount(xs);
    assert (|xs| + 1) as real == n + 1.0;
    NewMean(n, m, x, m', Sum(xs));
    DeviationsFromMean(xs);
    DeviationsFromMean(xs + [x]);
    StepIdentity(m, m', x, n, Sum(xs));
  }

  lemma NewMean(n: real, m: real, x: real, m': real, s: real)
    requires n >= 0.0 && Times(n, m) == s && m' == m + (x - m) / (n + 1.0)
    ensures Times(n + 1.0, m') == s + x && m' == (s + x) / (n + 1.0)
  {
    assert (n + 1.0) * ((x - m) / (n + 1.0)) == x - m;
    assert (n + 1.0) * m' == (n + 1.0) * m + (x - m);
  }

  lemma StepIdentity(m: real, m': real, x: real, n: real, s: real)
    requires Times(n, m) == s && Times(n + 1.0, m') == s + x
    ensures Times(x - m, x - m') - Times(m, s) == Square(x) - Times(m', s + x)
  {
    assert m * (s + x) == m * ((n + 1.0) * m') == m' * (n * m) + m' * m;
  }

  // ----- order does not matter -----

  lemma {:induction false} SumsWithout(xs: seq<real>, i: nat)
    requires i < |xs|
    ensures Sum(xs) == Sum(xs[..i] + xs[i + 1..]) + xs[i]
    ensures SumOfSquares(xs) == SumOfSquares(xs[..i] + xs[i + 1..]) + Square(xs[i])
  {
    hide Square;
    var rest := xs[..i] + xs[i + 1..];
    if i == |xs| - 1 {
      assert rest == xs[..i];
    } else {
      var front := xs[..|xs| - 1];
      SumsWithout(front, i);
      assert rest[..|rest| - 1] == front[..i] + front[i + 1..];
    }
  }

  lemma {:induction false} SumsPermuted(xs: seq<real>, ys: seq<real>)
    requires multiset(xs) == multiset(ys)
    ensures |xs| == |ys| && Sum(xs) == Sum(ys) && SumOfSquares(xs) == SumOfSquares(ys)
  {
    Permutations.SameLength(xs, ys);
    if xs != [] {
      hide *;
      var l, r := Permutations.TakeOut(xs, ys);
      SumsPermuted(xs[1..], l + r);
      SumsAround([], xs[0], xs[1..]);
      SumsAround(l, xs[0], r);
      assert [] + [xs[0]] + xs[1..] == xs && [] + xs[1..] == xs[1..];
    }
  }

  lemma SumsAround(l: seq<real>, x: real, r: seq<real>)
    ensures Sum(l + [x] + r) == Sum(l + r) + x && SumOfSquares(l + [x] + r) == SumOfSquares(l + r) + Square(x)
  {
    hide *;
    var xs := l + [x] + r;
    SumsWithout(xs, |l|);
    assert xs[..|l|] == l && xs[|l| + 1..] == r && xs[|l|] == x;
  }

  /** The same numbers in any order give the same mean and the same deviations. */
  lemma OrderDoesNotMatter(xs: seq<real>, ys: seq<real>)
    requires multiset(xs) == multiset(ys)
    ensures Mean(xs) == Mean(ys) && Deviations(xs, Mean(xs)) == Deviations(ys, Mean(ys))
  {
    SumsPermuted(xs, ys);
    assert Mean(xs) == Mean(ys);
    hide *;
    DeviationsFromMean(xs);
    DeviationsFromMean(ys);
  }
}
