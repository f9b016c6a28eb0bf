/** Decimal rendering and parsing of unsigned integers, as `format!` and `str::parse` do them. */
module Decimal {
  import opened Outcome

  predicate IsDigit(c: char) {
    48 <= c as int <= 57
  }

  function Digit(d: nat): (c: char)
    requires d < 10
    ensures IsDigit(c) && DigitValue(c) == d
  {
    (48 + d) as char
  }

  function DigitValue(c: char): nat
    requires IsDigit(c)
  {
    c as int - 48
  }

  function Render(n: nat): (s: string)
    ensures s != [] && forall c | c in s :: IsDigit(c)
    ensures n > 0 ==> s[0] != '0'
  {
    if n < 10 then [Digit(n)] else Render(n / 10) + [Digit(n % 10)]
  }

  function Value(s: string): nat
    requires forall c | c in s :: IsDigit(c)
  {
    if s == [] then 0
    else
      assert s[|s| - 1] in s;
      10 * Value(s[..|s| - 1]) + DigitValue(s[|s| - 1])
  }

  /** `str::parse` for an unsigned type whose largest value is `max`: one optional plus sign, then
      at least one digit and nothing else. */
  function Parse(s: string, max: nat): (r: Option<nat>)
    ensures r.Some? ==> r.value <= max
  {
    var digits := if |s| > 1 && s[0] == '+' then s[1..] else s;
    if digits == [] || exists c | c in digits :: !IsDigit(c) then None
    else if Value(digits) > max then None
    else Some(Value(digits))
  }

  /** A number is read from digits alone, after at most one plus sign, and only if the type can hold it. */
  lemma ParseExactly(s: string, max: nat)
    ensures var digits := if s != "" && s[0] as int == 43 then s[1..] else s;
      Parse(s, max) == if digits != "" && (forall c | c in digits :: IsDigit(c)) && Value(digits) <= max
                       then Some(Value(digits)) else None
  {
    if s == "+" {
      assert s[0] in s;
    }
  }

  lemma {:induction false} ValueOfRender(n: nat)
    ensures Value(Render(n)) == n
  {
    if n >= 10 {
      ValueOfRender(n / 10);
      var s := Render(n);
      assert s[..|s| - 1] == Render(n / 10);
    } else {
      assert Render(n)[..0] == [];
    }
  }

  /** Parsing undoes rendering exactly on the values the type can hold. */
  lemma ParseOfRender(n: nat, max: nat)
    ensures Parse(Render(n), max) == if n <= max then Some(n) else None
  {
    ValueOfRender(n);
    var s := Render(n);
    assert s[0] in s;
  }

  lemma LastDigit(v: nat, d: nat)
    requires d < 10
    ensures (10 * v + d) / 10 == v && (10 * v + d) % 10 == d
  {
  }

  /** A digit string without a leading zero is the rendering of its value. */
  lemma {:induction false} RenderOfValue(s: string)
    requires s != [] && forall c | c in s :: IsDigit(c)
    requires s[0] != '0' || |s| == 1
    ensures Render(Value(s)) == s
    ensures s[0] != '0' ==> Value(s) > 0
  {
    var n := |s| - 1;
    assert s[n] in s;
    var front, d := s[..n], DigitValue(s[n]);
    assert Value(s) == 10 * Value(front) + d;
    assert Digit(d) == s[n];
    if n == 0 {
      assert s == [Digit(d)];
    } else {
      assert front[0] == s[0];
      RenderOfValue(front);
      LastDigit(Value(front), d);
      RenderStep(Value(front), d);
      assert s == front + [s[n]];
    }
  }

  lemma RenderStep(v: nat, d: nat)
    requires v > 0 && d < 10
    ensures Render(10 * v + d) == Render(v) + [Digit(d)]
  {
    LastDigit(v, d);
  }
}
