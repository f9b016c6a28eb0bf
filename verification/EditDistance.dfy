/** The edit distance behind "did you mean" suggestions for manual pages. */
module EditDistance {
  import opened Outcome

  // ----- edit scripts -----

  datatype Edit = Insert(at: nat, c: char) | Delete(at: nat) | Substitute(at: nat, c: char)

  function Apply(e: Edit, s: string): Option<string> {
    match e
    case Insert(i, c) => if i <= |s| then Some(s[..i] + [c] + s[i..]) else None
    case Delete(i) => if i < |s| then Some(s[..i] + s[i + 1..]) else None
    case Substitute(i, c) => if i < |s| then Some(s[..i] + [c] + s[i + 1..]) else None
  }

  function ApplyAll(script: seq<Edit>, s: string): Option<string>
    decreases script
  {
    if script == [] then Some(s)
    else
      match Apply(script[0], s)
      case None => None
      case Some(t) => ApplyAll(script[1..], t)
  }

  // ----- the recurrence -----

  function Front(s: string): string
    requires s != []
  {
    s[..|s| - 1]
  }

  function Last(s: string): char
    requires s != []
  {
    s[|s| - 1]
  }

  function Min3(x: nat, y: nat, z: nat): nat {
    if x <= y && x <= z then x else if y <= z then y else z
  }

  function SubstitutionCost(x: char, y: char): nat {
    if x == y then 0 else 1
  }

  /** The distance between two strings, by their last characters. */
  function Distance(a: string, b: string): nat
    decreases |a| + |b|
  {
    if a == [] then |b|
    else if b == [] then |a|
    else
      Min3(Distance(Front(a), b) + 1,
           Distance(a, Front(b)) + 1,
           Distance(Front(a), Front(b)) + SubstitutionCost(Last(a), Last(b)))
  }

  // ----- no script is shorter -----

  /** Two strings that differ in their last character only, in value or in presence. */
  predicate Adjacent(p: string, q: string) {
    || (q != [] && Front(q) == p)
    || (p != [] && Front(p) == q)
    || (p != [] && q != [] && Front(p) == Front(q))
  }

  lemma FrontOfAppend(p: string, u: string)
    requires u != []
    ensures p + u != [] && Front(p + u) == p + Front(u) && Last(p + u) == Last(u)
  {
  }

  /** One edit at the end of a string moves its distance to any other by at most one. */
  lemma {:induction false} LastEditApart(p: string, q: string, b: string)
    requires Adjacent(p, q)
    ensures Distance(p, b) <= Distance(q, b) + 1
    decreases |b|
  {
    if b != [] {
      LastEditApart(p, q, Front(b));
    }
  }

  /** One edit anywhere in a string moves its distance to any other by at most one. */
  lemma {:induction false} OneEditApart(p: string, q: string, u: string, b: string)
    requires Adjacent(p, q)
    ensures Distance(p + u, b) <= Distance(q + u, b) + 1
    decreases |u| + |b|
  {
    assert |p| <= |q| + 1;
    hide Adjacent;
    if u == [] {
      assert p + u == p && q + u == q;
      LastEditApart(p, q, b);
    } else if b != [] {
      FrontOfAppend(p, u);
      FrontOfAppend(q, u);
      OneEditApart(p, q, Front(u), b);
      OneEditApart(p, q, u, Front(b));
      OneEditApart(p, q, Front(u), Front(b));
    }
  }

  lemma EditMovesByOne(e: Edit, s: string, b: string)
    requires Apply(e, s).Some?
    ensures Distance(s, b) <= Distance(Apply(e, s).value, b) + 1
  {
    hide Distance;
    var t := Apply(e, s).value;
    match e {
      case Insert(i, c) =>
        var q := s[..i] + [c];
        assert Front(q) == s[..i] && s == s[..i] + s[i..];
        OneEditApart(s[..i], q, s[i..], b);
      case Delete(i) =>
        assert Front(s[..i + 1]) == s[..i] && s == s[..i + 1] + s[i + 1..];
        OneEditApart(s[..i + 1], s[..i], s[i + 1..], b);
      case Substitute(i, c) =>
        var q := s[..i] + [c];
        assert Front(s[..i + 1]) == s[..i] == Front(q) && s == s[..i + 1] + s[i + 1..];
        OneEditApart(s[..i + 1], q, s[i + 1..], b);
    }
  }

  lemma {:induction false} DistanceToSelf(a: string)
    ensures Distance(a, a) == 0
  {
    if a != [] {
      DistanceToSelf(Front(a));
    }
  }

  /** Every script that turns `a` into `b` is at least as long as the distance. */
  lemma {:induction false} NoShorterScript(script: seq<Edit>, a: string, b: string)
    requires ApplyAll(script, a) == Some(b)
    ensures |script| >= Distance(a, b)
    decreases script
  {
    if script == [] {
      DistanceToSelf(a);
    } else {
      hide Distance, Apply;
      EditMovesByOne(script[0], a, b);
      NoShorterScript(script[1..], Apply(script[0], a).value, b);
    }
  }

  // ----- and one is as short -----

  lemma ApplyInFront(e: Edit, s: string, c: char)
    requires Apply(e, s).Some?
    ensures Apply(e, s + [c]) == Some(Apply(e, s).value + [c])
  {
    var i := e.at;
    var result := Apply(e, s).value + [c];
    assert (s + [c])[..i] == s[..i] && (s + [c])[i..] == s[i..] + [c];
    match e {
      case Insert(_, x) => assert s[..i] + [x] + (s[i..] + [c]) == result;
      case Delete(_) => assert (s + [c])[..i] + (s + [c])[i + 1..] == result;
      case Substitute(_, x) => assert (s + [c])[..i] + [x] + (s + [c])[i + 1..] == result;
    }
  }

  lemma {:induction false} ApplyAllInFront(script: seq<Edit>, s: string, c: char)
    requires ApplyAll(script, s).Some?
    ensures ApplyAll(script, s + [c]) == Some(ApplyAll(script, s).value + [c])
    decreases script
  {
    if script != [] {
      hide Apply;
      ApplyInFront(script[0], s, c);
      ApplyAllInFront(script[1..], Apply(script[0], s).value, c);
    }
  }

  lemma {:induction false} ApplyAllAppend(x: seq<Edit>, y: seq<Edit>, s: string)
    requires ApplyAll(x, s).Some?
    ensures ApplyAll(x + y, s) == ApplyAll(y, ApplyAll(x, s).value)
    decreases x
  {
    if x == [] {
      assert x + y == y;
    } else {
      hide Apply;
      assert (x + y)[1..] == x[1..] + y;
      ApplyAllAppend(x[1..], y, Apply(x[0], s).value);
    }
  }

  lemma ApplyOne(e: Edit, s: string)
    ensures ApplyAll([e], s) == Apply(e, s)
  {
    assert [e][1..] == [];
  }

  /** A script of exactly that length. */
  function Script(a: string, b: string): seq<Edit>
    decreases |a| + |b|
  {
    if a == [] && b == [] then []
    else if a != [] && (b == [] || Distance(a, b) == Distance(Front(a), b) + 1) then
      [Delete(|a| - 1)] + Script(Front(a), b)
    else if a == [] || Distance(a, b) == Distance(a, Front(b)) + 1 then
      Script(a, Front(b)) + [Insert(|b| - 1, Last(b))]
    else
      Script(Front(a), Front(b)) + (if Last(a) == Last(b) then [] else [Substitute(|b| - 1, Last(b))])
  }

  lemma {:induction false} ScriptIsShort(a: string, b: string)
    ensures |Script(a, b)| == Distance(a, b)
    decreases |a| + |b|
  {
    if a != [] {
      ScriptIsShort(Front(a), b);
    }
    if b != [] {
      ScriptIsShort(a, Front(b));
    }
    if a != [] && b != [] {
      ScriptIsShort(Front(a), Front(b));
    }
  }

  lemma {:induction false} ScriptWorks(a: string, b: string)
    ensures ApplyAll(Script(a, b), a) == Some(b)
    decreases |a| + |b|
  {
    hide Distance;
    if a == [] && b == [] {
    } else if a != [] && (b == [] || Distance(a, b) == Distance(Front(a), b) + 1) {
      ScriptWorks(Front(a), b);
      ApplyOne(Delete(|a| - 1), a);
      assert a[..|a| - 1] + a[|a|..] == Front(a);
      ApplyAllAppend([Delete(|a| - 1)], Script(Front(a), b), a);
    } else if a == [] || Distance(a, b) == Distance(a, Front(b)) + 1 {
      ScriptWorks(a, Front(b));
      ApplyAllAppend(Script(a, Front(b)), [Insert(|b| - 1, Last(b))], a);
      ApplyOne(Insert(|b| - 1, Last(b)), Front(b));
      assert Front(b)[..|b| - 1] + [Last(b)] + Front(b)[|b| - 1..] == b;
    } else {
      ScriptWorks(Front(a), Front(b));
      LastCharacters(a, b, Script(Front(a), Front(b)));
    }
  }

  lemma LastCharacters(a: string, b: string, x: seq<Edit>)
    requires a != [] && b != [] && ApplyAll(x, Front(a)) == Some(Front(b))
    ensures ApplyAll(x + (if Last(a) == Last(b) then [] else [Substitute(|b| - 1, Last(b))]), a) == Some(b)
  {
    hide ApplyAll;
    assert a == Front(a) + [Last(a)] && b == Front(b) + [Last(b)];
    ApplyAllInFront(x, Front(a), Last(a));
    if Last(a) == Last(b) {
      assert x + [] == x;
    } else {
      var e := Substitute(|b| - 1, Last(b));
      ApplyAllAppend(x, [e], a);
      ApplyOne(e, Front(b) + [Last(a)]);
      assert (Front(b) + [Last(a)])[..|b| - 1] + [Last(b)] + (Front(b) + [Last(a)])[|b|..] == b;
    }
  }

  /** The distance is the least length of a script. */
  lemma DistanceIsLeast(a: string, b: string)
    ensures exists script :: ApplyAll(script, a) == Some(b) && |script| == Distance(a, b)
    ensures forall script | ApplyAll(script, a) == Some(b) :: |script| >= Distance(a, b)
  {
    ScriptIsShort(a, b);
    ScriptWorks(a, b);
    forall script | ApplyAll(script, a) == Some(b)
      ensures |script| >= Distance(a, b)
    {
      NoShorterScript(script, a, b);
    }
  }

  // ----- a metric -----

  lemma {:induction false} Symmetric(a: string, b: string)
    ensures Distance(a, b) == Distance(b, a)
    decreases |a| + |b|
  {
    if a != [] && b != [] {
      Symmetric(Front(a), b);
      Symmetric(a, Front(b));
      Symmetric(Front(a), Front(b));
    }
  }

  lemma ZeroExactlyOnEqual(a: string, b: string)
    ensures Distance(a, b) == 0 <==> a == b
  {
    hide Distance;
    DistanceToSelf(a);
    ScriptIsShort(a, b);
    ScriptWorks(a, b);
  }

  lemma Triangle(a: string, b: string, c: string)
    ensures Distance(a, c) <= Distance(a, b) + Distance(b, c)
  {
    hide Distance, ApplyAll;
    ScriptIsShort(a, b);
    ScriptWorks(a, b);
    ScriptIsShort(b, c);
    ScriptWorks(b, c);
    ApplyAllAppend(Script(a, b), Script(b, c), a);
    NoShorterScript(Script(a, b) + Script(b, c), a, c);
  }

  lemma {:induction false} AtMostLonger(a: string, b: string)
    ensures Distance(a, b) <= Longer(a, b)
    decreases |a| + |b|
  {
    if a != [] && b != [] {
      AtMostLonger(Front(a), Front(b));
    }
  }

  function Longer(a: string, b: string): nat {
    if |a| >= |b| then |a| else |b|
  }

  // ----- the two-row loop -----

  /** `levenshtein`, which keeps one row of the table and builds the next. */
  method Levenshtein(a: string, b: string) returns (d: nat)
    ensures d == Distance(a, b)
  {
    EmptyDistances(a);
    EmptyDistances(b);
    hide Distance;
    if |a| == 0 {
      return |b|;
    }
    if |b| == 0 {
      return |a|;
    }
    var previous := new nat[|b| + 1](j => j);
    var current := new nat[|b| + 1](_ => 0);
    forall j | 0 <= j <= |b|
      ensures previous[j] == Distance(a[..0], b[..j])
    {
      EmptyDistances(b[..j]);
    }
    for i := 1 to |a| + 1
      invariant forall j | 0 <= j <= |b| :: previous[j] == Distance(a[..i - 1], b[..j])
    {
      current[0] := i;
      EmptyDistances(a[..i]);
      for j := 1 to |b| + 1
        invariant forall k | 0 <= k <= |b| :: previous[k] == Distance(a[..i - 1], b[..k])
        invariant forall k | 0 <= k < j :: current[k] == Distance(a[..i], b[..k])
      {
        var cost := if a[i - 1] == b[j - 1] then 0 else 1;
        current[j] := Min3(previous[j] + 1, current[j - 1] + 1, previous[j - 1] + cost);
        TableEntry(a, b, i, j);
      }
      forall j | 0 <= j <= |b| {
        previous[j] := current[j];
      }
    }
    assert a[..|a|] == a && b[..|b|] == b;
    d := previous[|b|];
  }

  lemma EmptyDistances(s: string)
    ensures Distance([], s) == |s| == Distance(s, [])
  {
  }

  lemma TableEntry(a: string, b: string, i: nat, j: nat)
    requires 1 <= i <= |a| && 1 <= j <= |b|
    ensures Distance(a[..i], b[..j])
         == Min3(Distance(a[..i - 1], b[..j]) + 1, Distance(a[..i], b[..j - 1]) + 1,
                 Distance(a[..i - 1], b[..j - 1]) + SubstitutionCost(a[i - 1], b[j - 1]))
  {
    assert Front(a[..i]) == a[..i - 1] && Front(b[..j]) == b[..j - 1];
  }

  // ----- the suggestion -----

  /** Whether a page name is close enough to suggest, over exact reals. */
  predicate Close(page: string, candidate: string) {
    var longer := Longer(page, candidate);
    longer != 0 && Distance(page, candidate) as real / longer as real < 0.4
  }

  /** That is, its distance is less than two fifths of the longer of the two names. */
  lemma CloseExactly(page: string, candidate: string)
    ensures Close(page, candidate) <==>
            5 * Distance(page, candidate) < 2 * |page| || 5 * Distance(page, candidate) < 2 * |candidate|
  {
    hide Distance;
    var d, n := Distance(page, candidate), Longer(page, candidate);
    if n != 0 {
      Ratio(d, n);
    }
  }

  lemma Ratio(d: nat, n: nat)
    requires n > 0
    ensures d as real / n as real < 0.4 <==> 5 * d < 2 * n
  {
    Quotient(d as real, n as real);
  }

  lemma Quotient(a: real, b: real)
    requires b > 0.0
    ensures a / b < 0.4 <==> a < 0.4 * b
  {
    var q := a / b;
    assert a == q * b;
    if q < 0.4 {
      assert (0.4 - q) * b > 0.0;
    } else {
      assert (q - 0.4) * b >= 0.0;
    }
  }

  /** `find_closest_manual_page`: the first of the nearest pages among those that are close. */
  method FindClosest(page: string, pages: seq<string>) returns (r: Option<string>)
    ensures r.None? <==> forall c | c in pages :: !Close(page, c)
    ensures r.Some? ==>
      exists k | 0 <= k < |pages| ::
        && r.value == pages[k] && Close(page, pages[k])
        && (forall i | 0 <= i < |pages| && Close(page, pages[i])
             :: Distance(page, pages[k]) <= Distance(page, pages[i]))
        && (forall i | 0 <= i < k && Close(page, pages[i]) :: Distance(page, pages[k]) < Distance(page, pages[i]))
  {
    hide Distance;
    r := None;
    var best := 0;
    ghost var at := 0;
    for n := 0 to |pages|
      invariant r.None? <==> forall i | 0 <= i < n :: !Close(page, pages[i])
      invariant r.Some? ==>
        && 0 <= at < n && r.value == pages[at] && Close(page, pages[at]) && best == Distance(page, pages[at])
        && (forall i | 0 <= i < n && Close(page, pages[i]) :: best <= Distance(page, pages[i]))
        && (forall i | 0 <= i < at && Close(page, pages[i]) :: best < Distance(page, pages[i]))
    {
      var distance := Levenshtein(page, pages[n]);
      var longer := Longer(page, pages[n]);
      if longer != 0 {
        if distance as real / longer as real < 0.4 {
          if r.None? || distance < best {
            r, best, at := Some(pages[n]), distance, n;
          }
        }
      }
    }
  }
}
