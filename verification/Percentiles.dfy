/** Median and percentile aggregates, over exact reals. */
module Percentiles {
  import opened Outcome
  import Permutations

  datatype Kind = Percent | Cont | Disc

  datatype Error = InvalidPercentile | NotAFraction | Inconsistent | NotProvided

  /** A row whose two arguments are numbers: the value and the percentile asked for. */
  datatype Row = Row(y: real, p: real)

  datatype State = State(values: seq<real>, p: Option<real>, error: Option<Error>)

  /** `percentile` counts to 100, the two others to 1. */
  function Scale(kind: Kind): (r: real)
    ensures r > 0.0
  {
    if kind.Percent? then 100.0 else 1.0
  }

  function OutOfRange(kind: Kind): Error {
    if kind.Percent? then InvalidPercentile else NotAFraction
  }

  function Abs(x: real): real {
    if x >= 0.0 then x else -x
  }

  // ----- accumulation -----

  /** Why a row is refused in the light of the percentile already noted. */
  function Refusal(kind: Kind, p: Option<real>, row: Row): Option<Error> {
    if !(0.0 <= row.p <= Scale(kind)) then Some(OutOfRange(kind))
    else if p.Some? && Abs(p.value - row.p) >= 0.001 then Some(Inconsistent)
    else None
  }

  /** The percentile of the first row whose percentile is in range. */
  function Noted(kind: Kind, rows: seq<Row>): (r: Option<real>)
    ensures r.Some? ==> 0.0 <= r.value <= Scale(kind)
  {
    if rows == [] then None
    else if 0.0 <= rows[0].p <= Scale(kind) then Some(rows[0].p)
    else Noted(kind, rows[1..])
  }

  /** The values of the rows that are not refused, in order. */
  function Accepted(kind: Kind, rows: seq<Row>, p: Option<real>): seq<real> {
    if rows == [] then []
    else
      (if Refusal(kind, p, rows[0]).None? then [rows[0].y] else []) + Accepted(kind, rows[1..], p)
  }

  /** Why the first refused row is. */
  function FirstRefusal(kind: Kind, rows: seq<Row>, p: Option<real>): Option<Error> {
    if rows == [] then None
    else if Refusal(kind, p, rows[0]).Some? then Refusal(kind, p, rows[0])
    else FirstRefusal(kind, rows[1..], p)
  }

  /** What rows leave behind, with no reference to the order of the accumulator's tests. */
  function Summary(kind: Kind, rows: seq<Row>): State {
    var p := Noted(kind, rows);
    State(Accepted(kind, rows, p), p, FirstRefusal(kind, rows, p))
  }

  // ----- the sorted values -----

  predicate Ascending(s: seq<real>) {
    forall i, j | 0 <= i <= j < |s| :: s[i] <= s[j]
  }

  lemma AscendingCons(x: real, s: seq<real>)
    requires Ascending(s) && forall y | y in s :: x <= y
    ensures Ascending([x] + s)
  {
    var t := [x] + s;
    forall i, j | 0 <= i <= j < |t|
      ensures t[i] <= t[j]
    {
      assert j > 0 ==> t[j] == s[j - 1] && t[j] in s;
      assert i > 0 ==> t[i] == s[i - 1];
    }
  }

  lemma AscendingHead(s: seq<real>)
    requires Ascending(s) && s != []
    ensures Ascending(s[1..]) && forall y | y in s :: s[0] <= y
  {
  }

  function Insert(x: real, s: seq<real>): (r: seq<real>)
    requires Ascending(s)
    ensures Ascending(r) && |r| == |s| + 1 && forall y | y in r :: y == x || y in s
  {
    if s == [] then [x]
    else
      AscendingHead(s);
      if x <= s[0] then
        AscendingCons(x, s);
        [x] + s
      else
        var rest := Insert(x, s[1..]);
        AscendingCons(s[0], rest);
        [s[0]] + rest
  }

  lemma {:induction false} InsertKeeps(x: real, s: seq<real>)
    requires Ascending(s)
    ensures multiset(Insert(x, s)) == multiset(s) + multiset{x}
  {
    if !(s == [] || x <= s[0]) {
      InsertKeeps(x, s[1..]);
      assert s == [s[0]] + s[1..];
    }
  }

  /** What `sort_by` leaves. */
  function Sorted(s: seq<real>): (r: seq<real>)
    ensures Ascending(r) && multiset(r) == multiset(s) && |r| == |s|
  {
    if s == [] then []
    else
      assert s == [s[0]] + s[1..];
      InsertKeeps(s[0], Sorted(s[1..]));
      Insert(s[0], Sorted(s[1..]))
  }

  /** There is only one ascending order of the same numbers. */
  lemma {:induction false} SortedIsUnique(s: seq<real>, t: seq<real>)
    requires Ascending(s) && Ascending(t) && multiset(s) == multiset(t)
    ensures s == t
  {
    assert |multiset(s)| == |s| && |multiset(t)| == |t|;
    if s != [] && t != [] {
      AscendingHead(s);
      AscendingHead(t);
      SameHead(s, t);
      hide Ascending;
      SortedIsUnique(s[1..], t[1..]);
      assert s == [s[0]] + s[1..] && t == [t[0]] + t[1..];
    }
  }

  lemma SameHead(s: seq<real>, t: seq<real>)
    requires s != [] && t != [] && multiset(s) == multiset(t)
    requires (forall y | y in s :: s[0] <= y) && forall y | y in t :: t[0] <= y
    ensures s[0] == t[0] && multiset(s[1..]) == multiset(t[1..])
  {
    assert s[0] in multiset(s) && t[0] in multiset(t);
    assert s[0] in t && t[0] in s;
    assert s[0] == t[0];
    HeadAside(s);
    HeadAside(t);
    Permutations.Cancel(multiset(s[1..]), multiset(t[1..]), s[0]);
  }

  lemma HeadAside(s: seq<real>)
    requires s != []
    ensures multiset(s) == multiset(s[1..]) + multiset{s[0]}
  {
    Permutations.Parts([], s[0], s[1..]);
    assert [] + [s[0]] + s[1..] == s && [] + s[1..] == s[1..];
  }

  // ----- the results -----

  function Ceiling(x: real): int {
    -((-x).Floor)
  }

  function Blend(a: real, b: real, weight: real): real {
    a * (1.0 - weight) + b * weight
  }

  /** The value at a fractional position of a list, between its two neighbours. */
  function At(s: seq<real>, index: real): real
    requires s != [] && 0.0 <= index <= (|s| - 1) as real
  {
    var lower, upper := index.Floor, Ceiling(index);
    if lower == upper then s[lower]
    else
      var weight := index - lower as real;
      Blend(s[lower], s[upper], weight)
  }

  function Index(kind: Kind, p: real, n: nat): (r: real)
    requires n > 0 && 0.0 <= p <= Scale(kind)
    ensures 0.0 <= r <= (n - 1) as real
  {
    IndexInRange(p, Scale(kind), (n - 1) as real);
    p * (n - 1) as real / Scale(kind)
  }

  lemma IndexInRange(p: real, scale: real, m: real)
    requires 0.0 <= p <= scale && scale > 0.0 && m >= 0.0
    ensures 0.0 <= p * m / scale <= m
  {
    assert 0.0 <= p * m <= scale * m;
    assert scale * m / scale == m;
  }

  function Aggregate(kind: Kind, st: State): Result<Option<real>, Error>
    requires st.p.Some? ==> 0.0 <= st.p.value <= Scale(kind)
  {
    if st.values == [] then Ok(None)
    else if st.error.Some? then Err(st.error.value)
    else if |st.values| == 1 && !kind.Disc? then Ok(Some(st.values[0]))
    else if st.p.None? then Err(NotProvided)
    else
      var s := Sorted(st.values);
      var index := Index(kind, st.p.value, |s|);
      Ok(Some(if kind.Disc? then s[index.Floor] else At(s, index)))
  }

  // ----- the accumulator -----

  class Accumulator {
    const kind: Kind
    var values: seq<real>
    var p: Option<real>
    var error: Option<Error>

    constructor (kind: Kind)
      ensures this.kind == kind && Holds([])
    {
      this.kind := kind;
      values, p, error := [], None, None;
    }

    ghost predicate Holds(rows: seq<Row>)
      reads this
    {
      State(values, p, error) == Summary(kind, rows)
    }

    /** `step`. A row with an argument that is not a number is skipped. */
    method Step(y: Option<real>, q: Option<real>, ghost rows: seq<Row>)
      requires Holds(rows)
      modifies this
      ensures Holds(if y.Some? && q.Some? then rows + [Row(y.value, q.value)] else rows)
    {
      if y.Some? && q.Some? {
        SummaryStep(kind, rows, Row(y.value, q.value));
        hide Summary;
        if !(0.0 <= q.value <= Scale(kind)) {
          if error.None? {
            error := Some(OutOfRange(kind));
          }
          return;
        }
        if p.Some? {
          if Abs(p.value - q.value) >= 0.001 {
            if error.None? {
              error := Some(Inconsistent);
            }
            return;
          }
        } else {
          p := q;
        }
        values := values + [y.value];
      }
    }

    method Finalize(ghost rows: seq<Row>) returns (r: Result<Option<real>, Error>)
      requires Holds(rows)
      modifies this
      ensures r == Aggregate(kind, Summary(kind, rows))
    {
      if values == [] {
        return Ok(None);
      }
      if error.Some? {
        return Err(error.value);
      }
      if |values| == 1 && !kind.Disc? {
        return Ok(Some(values[0]));
      }
      if p.None? {
        return Err(NotProvided);
      }
      hide Summary, Sorted, Blend;
      values := Sorted(values);
      var index := Index(kind, p.value, |values|);
      if kind.Disc? {
        return Ok(Some(values[index.Floor]));
      }
      var lower, upper := index.Floor, Ceiling(index);
      if lower == upper {
        return Ok(Some(values[lower]));
      }
      var weight := index - lower as real;
      r := Ok(Some(Blend(values[lower], values[upper], weight)));
    }
  }

  predicate InRange(kind: Kind, row: Row) {
    0.0 <= row.p <= Scale(kind)
  }

  /** Until a percentile is noted every row is out of range. */
  lemma {:induction false} NothingNoted(kind: Kind, rows: seq<Row>, p: Option<real>)
    requires Noted(kind, rows).None?
    ensures Accepted(kind, rows, p) == []
    ensures FirstRefusal(kind, rows, p) == if rows == [] then None else Some(OutOfRange(kind))
  {
    if rows != [] {
      NothingNoted(kind, rows[1..], p);
    }
  }

  lemma {:induction false} NotedStep(kind: Kind, rows: seq<Row>, row: Row)
    ensures Noted(kind, rows + [row])
         == if Noted(kind, rows).Some? then Noted(kind, rows) else if InRange(kind, row) then Some(row.p) else None
  {
    if rows == [] {
      assert (rows + [row])[1..] == [];
    } else {
      assert (rows + [row])[1..] == rows[1..] + [row];
      NotedStep(kind, rows[1..], row);
    }
  }

  lemma {:induction false} AcceptedStep(kind: Kind, rows: seq<Row>, row: Row, p: Option<real>)
    ensures Accepted(kind, rows + [row], p)
         == Accepted(kind, rows, p) + (if Refusal(kind, p, row).None? then [row.y] else [])
  {
    hide Refusal;
    if rows == [] {
      assert (rows + [row])[1..] == [];
    } else {
      assert (rows + [row])[1..] == rows[1..] + [row];
      AcceptedStep(kind, rows[1..], row, p);
      var first, rest := if Refusal(kind, p, rows[0]).None? then [rows[0].y] else [], Accepted(kind, rows[1..], p);
      var last := if Refusal(kind, p, row).None? then [row.y] else [];
      assert first + (rest + last) == (first + rest) + last;
    }
  }

  lemma {:induction false} RefusalStep(kind: Kind, rows: seq<Row>, row: Row, p: Option<real>)
    ensures FirstRefusal(kind, rows + [row], p)
         == if FirstRefusal(kind, rows, p).Some? then FirstRefusal(kind, rows, p) else Refusal(kind, p, row)
  {
    hide Refusal;
    if rows == [] {
      assert (rows + [row])[1..] == [];
    } else {
      assert (rows + [row])[1..] == rows[1..] + [row];
      RefusalStep(kind, rows[1..], row, p);
    }
  }

  lemma SummaryStep(kind: Kind, rows: seq<Row>, row: Row)
    ensures Summary(kind, rows + [row])
         == var st := Summary(kind, rows);
            var refusal := Refusal(kind, st.p, row);
            if refusal.Some? then st.(error := if st.error.Some? then st.error else refusal)
            else st.(values := st.values + [row.y], p := if st.p.Some? then st.p else Some(row.p))
  {
    var p := Noted(kind, rows + [row]);
    NotedStep(kind, rows, row);
    AcceptedStep(kind, rows, row, p);
    RefusalStep(kind, rows, row, p);
    if Noted(kind, rows).None? {
      NothingNoted(kind, rows, p);
      NothingNoted(kind, rows, None);
      assert Abs(row.p - row.p) == 0.0;
    }
  }

  // ----- what the aggregates return -----

  /** The outcome by cases: null exactly when every row was refused, an error exactly when some but not all
      were, and then that of the first; never for want of a percentile. */
  lemma Outcomes(kind: Kind, rows: seq<Row>)
    ensures var st := Summary(kind, rows);
            var r := Aggregate(kind, st);
            && (r == Ok(None) <==> st.values == [])
            && (r.Err? <==> st.values != [] && st.error.Some?)
            && (r.Err? ==> r.error == st.error.value && r.error != NotProvided)
  {
    var p := Noted(kind, rows);
    if p.None? {
      NothingNoted(kind, rows, p);
    }
    RefusalKinds(kind, rows, p);
    hide Accepted, FirstRefusal, Noted;
  }

  lemma {:induction false} RefusalKinds(kind: Kind, rows: seq<Row>, p: Option<real>)
    ensures FirstRefusal(kind, rows, p) != Some(NotProvided)
  {
    if rows != [] {
      RefusalKinds(kind, rows[1..], p);
    }
  }

  lemma BlendBetween(a: real, b: real, w: real)
    requires a <= b && 0.0 <= w <= 1.0
    ensures a <= Blend(a, b, w) <= b
  {
    ProductNotNegative(b - a, w);
    ProductNotNegative(b - a, 1.0 - w);
    assert Blend(a, b, w) == a + (b - a) * w;
    assert (b - a) * (1.0 - w) == (b - a) - (b - a) * w;
  }

  lemma ProductNotNegative(x: real, y: real)
    requires x >= 0.0 && y >= 0.0
    ensures x * y >= 0.0
  {
  }

  /** The two neighbours of a position are in the list, next to each other or the same, around it. */
  lemma NeighboursInRange(n: nat, index: real)
    requires n > 0 && 0.0 <= index <= (n - 1) as real
    ensures 0 <= index.Floor <= Ceiling(index) < n && Ceiling(index) <= index.Floor + 1
    ensures index.Floor as real <= index <= Ceiling(index) as real
    ensures index.Floor == Ceiling(index) <==> index == index.Floor as real
  {
  }

  /** The value at a position lies between its neighbours in the sorted list. */
  lemma Between(s: seq<real>, index: real)
    requires Ascending(s) && s != [] && 0.0 <= index <= (|s| - 1) as real
    ensures s[index.Floor] <= At(s, index) <= s[Ceiling(index)]
    ensures s[0] <= At(s, index) <= s[|s| - 1]
  {
    hide Blend;
    if index.Floor != Ceiling(index) {
      BlendBetween(s[index.Floor], s[Ceiling(index)], index - index.Floor as real);
    }
  }

  lemma BlendGrows(a: real, b: real, w: real, v: real)
    requires a <= b && w <= v
    ensures Blend(a, b, w) <= Blend(a, b, v) && Blend(a, b, 0.0) == a
  {
    assert Blend(a, b, v) - Blend(a, b, w) == (b - a) * (v - w);
    ProductNotNegative(b - a, v - w);
  }

  /** A later position never has a smaller value. */
  lemma AtGrows(s: seq<real>, i: real, j: real)
    requires Ascending(s) && s != [] && 0.0 <= i <= j <= (|s| - 1) as real
    ensures At(s, i) <= At(s, j)
  {
    hide Blend;
    Between(s, i);
    Between(s, j);
    var l := i.Floor;
    if j.Floor == l {
      if Ceiling(i) != l {
        BlendGrows(s[l], s[l + 1], i - l as real, j - l as real);
      }
    } else {
      assert Ceiling(i) <= j.Floor;
    }
  }

  // ----- relations between the aggregates -----

  /** With the percentile noted, the result depends on the accepted values, not on their order. */
  lemma OrderDoesNotMatter(kind: Kind, st: State, values: seq<real>)
    requires st.p.Some? ==> 0.0 <= st.p.value <= Scale(kind)
    requires multiset(values) == multiset(st.values)
    ensures Aggregate(kind, st.(values := values)) == Aggregate(kind, st)
  {
    hide At, Index, Ascending;
    SortedIsUnique(Sorted(values), Sorted(st.values));
    assert |values| == |Sorted(values)| == |st.values|;
    if |values| == 1 {
      assert st.values[0] in multiset(values);
    }
  }

  function Ys(rows: seq<Row>): seq<real> {
    if rows == [] then [] else [rows[0].y] + Ys(rows[1..])
  }

  /** What rows that all ask for the same percentile leave behind. */
  lemma {:induction false} AlikeRows(kind: Kind, rows: seq<Row>, q: real)
    requires forall r | r in rows :: r.p == q
    ensures 0.0 <= q <= Scale(kind) ==>
              Accepted(kind, rows, Some(q)) == Ys(rows) && FirstRefusal(kind, rows, Some(q)).None?
    ensures Noted(kind, rows) == if rows != [] && 0.0 <= q <= Scale(kind) then Some(q) else None
  {
    if rows != [] {
      assert rows[0] in rows;
      assert forall r | r in rows[1..] :: r in rows;
      AlikeRows(kind, rows[1..], q);
    }
  }

  lemma AlikeSummary(kind: Kind, rows: seq<Row>, q: real)
    requires forall r | r in rows :: r.p == q
    ensures Summary(kind, rows)
         == if rows == [] then State([], None, None)
            else if 0.0 <= q <= Scale(kind) then State(Ys(rows), Some(q), None)
            else State([], None, Some(OutOfRange(kind)))
  {
    AlikeRows(kind, rows, q);
    if Noted(kind, rows).None? {
      NothingNoted(kind, rows, None);
    }
    hide Accepted, FirstRefusal, Noted;
  }

  lemma {:induction false} YsAppend(a: seq<Row>, b: seq<Row>)
    ensures Ys(a + b) == Ys(a) + Ys(b)
  {
    if a == [] {
      assert a + b == b;
    } else {
      assert (a + b)[1..] == a[1..] + b;
      YsAppend(a[1..], b);
    }
  }

  lemma {:induction false} YsPermuted(rows: seq<Row>, rows': seq<Row>)
    requires multiset(rows) == multiset(rows')
    ensures multiset(Ys(rows)) == multiset(Ys(rows'))
  {
    Permutations.SameLength(rows, rows');
    if rows != [] {
      var l, r := Permutations.TakeOut(rows, rows');
      Permutations.SameLength(rows[1..], l + r);
      YsPermuted(rows[1..], l + r);
      YsWith(l, rows[0], r);
      assert Ys(rows) == [rows[0].y] + Ys(rows[1..]);
      hide Ys;
      assert multiset([rows[0].y] + Ys(rows[1..])) == multiset{rows[0].y} + multiset(Ys(rows[1..]));
    }
  }

  lemma YsWith(l: seq<Row>, x: Row, r: seq<Row>)
    ensures multiset(Ys(l + [x] + r)) == multiset(Ys(l + r)) + multiset{x.y}
  {
    YsAppend(l + [x], r);
    YsAppend(l, [x]);
    YsAppend(l, r);
    assert [x][1..] == [] && Ys([x]) == [x.y];
  }

  /** Rows that all ask for the same percentile may come in any order. */
  lemma RowOrderDoesNotMatter(kind: Kind, rows: seq<Row>, rows': seq<Row>, q: real)
    requires (forall r | r in rows :: r.p == q) && multiset(rows) == multiset(rows')
    ensures Aggregate(kind, Summary(kind, rows)) == Aggregate(kind, Summary(kind, rows'))
  {
    Permutations.SameLength(rows, rows');
    forall r | r in rows'
      ensures r.p == q
    {
      assert r in multiset(rows') && r in multiset(rows);
    }
    hide Summary, Aggregate, Ys;
    AlikeSummary(kind, rows, q);
    AlikeSummary(kind, rows', q);
    YsPermuted(rows, rows');
    if rows != [] && 0.0 <= q <= Scale(kind) {
      OrderDoesNotMatter(kind, State(Ys(rows), Some(q), None), Ys(rows'));
    }
  }

  /** A larger percentile never gives a smaller result, nor one outside the values. */
  lemma PercentileGrows(kind: Kind, st: State, q: real)
    requires st.values != [] && st.error.None? && st.p.Some? && 0.0 <= st.p.value <= q <= Scale(kind)
    ensures var r, r' := Aggregate(kind, st), Aggregate(kind, st.(p := Some(q)));
            var s := Sorted(st.values);
            && r.Ok? && r'.Ok? && r.value.Some? && r'.value.Some?
            && s[0] <= r.value.value <= r'.value.value <= s[|s| - 1]
            && (kind.Disc? ==> r.value.value in st.values)
  {
    var s := Sorted(st.values);
    var i, j := Index(kind, st.p.value, |s|), Index(kind, q, |s|);
    IndexGrows(kind, st.p.value, q, |s|);
    if |s| == 1 {
      assert s[0] in multiset(st.values);
    }
    Between(s, i);
    Between(s, j);
    AtGrows(s, i, j);
    assert s[i.Floor] in multiset(st.values);
    hide Sorted, At, Index;
  }

  lemma IndexGrows(kind: Kind, p: real, q: real, n: nat)
    requires n > 0 && 0.0 <= p <= q <= Scale(kind)
    ensures Index(kind, p, n) <= Index(kind, q, n)
  {
    assert p * (n - 1) as real <= q * (n - 1) as real;
  }

  /** `percentile` on its scale is `percentile_cont` on its own. */
  lemma PercentIsCont(st: State, p: real)
    requires 0.0 <= p <= 1.0
    ensures Aggregate(Percent, st.(p := Some(100.0 * p))) == Aggregate(Cont, st.(p := Some(p)))
  {
    hide At, Sorted;
    if st.values != [] {
      assert Index(Percent, 100.0 * p, |st.values|) == Index(Cont, p, |st.values|);
    }
  }

  lemma IndexOfFraction(kind: Kind, p: real, n: nat)
    requires n > 0 && 0.0 <= p <= 1.0 && !kind.Percent?
    ensures Index(kind, p, n) == p * (n - 1) as real
    ensures n == 1 ==> Index(kind, p, n) == 0.0
  {
  }

  /** The discrete percentile is the value at the largest position not above `p * (n - 1)`. */
  lemma DiscreteIsAt(values: seq<real>, p: real, k: nat)
    requires values != [] && 0.0 <= p <= 1.0
    requires k as real <= p * (|values| - 1) as real < (k + 1) as real
    ensures k < |Sorted(values)| == |values|
    ensures Aggregate(Disc, State(values, Some(p), None)) == Ok(Some(Sorted(values)[k]))
  {
    hide Sorted, Index;
    IndexOfFraction(Disc, p, |values|);
  }

  lemma ContinuousIsAt(values: seq<real>, p: real)
    requires values != [] && 0.0 <= p <= 1.0
    ensures |Sorted(values)| == |values|
    ensures Aggregate(Cont, State(values, Some(p), None)) == Ok(Some(At(Sorted(values), Index(Cont, p, |values|))))
  {
    var s := Sorted(values);
    hide Sorted, Index;
    if |s| == 1 {
      assert s[0] in multiset(values);
      IndexOfFraction(Cont, p, 1);
    }
    hide Blend;
  }

  /** The value at `k + t` on the line between the values at `k` and `k + 1`. */
  function Line(s: seq<real>, k: nat, t: real): real
    requires k < |s| && (t != 0.0 ==> k + 1 < |s|)
  {
    if t == 0.0 then s[k] else s[k] + (s[k + 1] - s[k]) * t
  }

  /** The continuous one lies on the line between the values at the two nearest positions. */
  lemma ContinuousIsOnLine(values: seq<real>, p: real, k: nat, t: real)
    requires values != [] && 0.0 <= p <= 1.0
    requires p * (|values| - 1) as real == k as real + t && 0.0 <= t < 1.0
    ensures k < |Sorted(values)| == |values| && (t > 0.0 ==> k + 1 < |values|)
    ensures Aggregate(Cont, State(values, Some(p), None)) == Ok(Some(Line(Sorted(values), k, t)))
  {
    hide Sorted, Index, At, Aggregate, Line;
    IndexOfFraction(Cont, p, |values|);
    ContinuousIsAt(values, p);
    OnLine(Sorted(values), Index(Cont, p, |values|), k, t);
  }

  lemma OnLine(s: seq<real>, index: real, k: nat, t: real)
    requires s != [] && 0.0 <= index <= (|s| - 1) as real && index == k as real + t && 0.0 <= t < 1.0
    ensures k < |s| && (t > 0.0 ==> k + 1 < |s|)
    ensures At(s, index) == Line(s, k, t)
  {
    assert index.Floor == k;
    if t > 0.0 {
      assert Ceiling(index) == k + 1;
      assert index - k as real == t;
      LineIs(s[k], s[k + 1], t);
    }
  }

  lemma LineIs(a: real, b: real, t: real)
    ensures Blend(a, b, t) == a + (b - a) * t
  {
  }

  // ----- which rows count -----

  predicate InScale(kind: Kind, row: Row) {
    0.0 <= row.p <= if kind == Percent then 100.0 else 1.0
  }

  /** The row asks for the percentile `p`, up to a thousandth. */
  predicate Agrees(row: Row, p: real) {
    -0.001 < row.p - p < 0.001
  }

  predicate Fits(kind: Kind, row: Row, p: real) {
    InScale(kind, row) && Agrees(row, p)
  }

  /** The first row whose percentile is in range sets it. If every row fits that one, all values count. */
  lemma RowsThatFit(kind: Kind, rows: seq<Row>, first: nat)
    requires first < |rows| && InScale(kind, rows[first]) && forall i | 0 <= i < first :: !InScale(kind, rows[i])
    ensures Summary(kind, rows).p == Some(rows[first].p)
    ensures (forall row | row in rows :: Fits(kind, row, rows[first].p)) ==>
              Summary(kind, rows) == State(Ys(rows), Some(rows[first].p), None)
  {
    FirstIsNoted(kind, rows, first);
    hide Noted, Accepted, FirstRefusal, InScale, Agrees, Fits, Ys;
    if forall row | row in rows :: Fits(kind, row, rows[first].p) {
      AllAccepted(kind, rows, rows[first].p);
    }
  }

  /** Otherwise the first row that does not fit decides the error. */
  lemma RowThatDoesNotFit(kind: Kind, rows: seq<Row>, first: nat, bad: nat)
    requires first < |rows| && InScale(kind, rows[first]) && forall i | 0 <= i < first :: !InScale(kind, rows[i])
    requires bad < |rows| && !Fits(kind, rows[bad], rows[first].p)
    requires forall i | 0 <= i < bad :: Fits(kind, rows[i], rows[first].p)
    ensures Aggregate(kind, Summary(kind, rows))
         == Err(if InScale(kind, rows[bad]) then Inconsistent
                else if kind == Percent then InvalidPercentile else NotAFraction)
  {
    var p := rows[first].p;
    FirstIsNoted(kind, rows, first);
    AcceptedAt(kind, rows, p, first);
    RefusedAt(kind, rows, p, bad);
    hide Noted, Accepted, FirstRefusal;
  }

  /** If none is in range there is no result. */
  lemma NoRowCounts(kind: Kind, rows: seq<Row>)
    requires forall row | row in rows :: !InScale(kind, row)
    ensures Aggregate(kind, Summary(kind, rows)) == Ok(None)
  {
    NoneNoted(kind, rows);
    NothingNoted(kind, rows, None);
  }

  lemma {:induction false} NoneNoted(kind: Kind, rows: seq<Row>)
    requires forall row | row in rows :: !InScale(kind, row)
    ensures Noted(kind, rows) == None
  {
    if rows != [] {
      assert rows[0] in rows && forall row | row in rows[1..] :: row in rows;
      NoneNoted(kind, rows[1..]);
    }
  }

  lemma {:induction false} FirstIsNoted(kind: Kind, rows: seq<Row>, first: nat)
    requires first < |rows| && InScale(kind, rows[first]) && forall i | 0 <= i < first :: !InScale(kind, rows[i])
    ensures Noted(kind, rows) == Some(rows[first].p)
  {
    if first > 0 {
      assert !InScale(kind, rows[0]);
      FirstIsNoted(kind, rows[1..], first - 1);
    }
  }

  lemma {:induction false} AcceptedAt(kind: Kind, rows: seq<Row>, p: real, k: nat)
    requires k < |rows| && Refusal(kind, Some(p), rows[k]).None?
    ensures Accepted(kind, rows, Some(p)) != []
  {
    if k > 0 {
      AcceptedAt(kind, rows[1..], p, k - 1);
    }
  }

  lemma {:induction false} AllAccepted(kind: Kind, rows: seq<Row>, p: real)
    requires forall row | row in rows :: Fits(kind, row, p)
    ensures Accepted(kind, rows, Some(p)) == Ys(rows) && FirstRefusal(kind, rows, Some(p)) == None
  {
    if rows != [] {
      assert rows[0] in rows && forall row | row in rows[1..] :: row in rows;
      AllAccepted(kind, rows[1..], p);
    }
  }

  lemma {:induction false} RefusedAt(kind: Kind, rows: seq<Row>, p: real, bad: nat)
    requires bad < |rows| && !Fits(kind, rows[bad], p)
    requires forall i | 0 <= i < bad :: Fits(kind, rows[i], p)
    ensures FirstRefusal(kind, rows, Some(p)) == Refusal(kind, Some(p), rows[bad])
  {
    if bad > 0 {
      assert Fits(kind, rows[0], p);
      RefusedAt(kind, rows[1..], p, bad - 1);
    }
  }

  /** `Median`. */
  function Median(values: seq<real>): Option<real> {
    if values == [] then None
    else
      var s := Sorted(values);
      var n := |s|;
      Some(if n % 2 == 1 then s[n / 2] else (s[n / 2 - 1] + s[n / 2]) / 2.0)
  }

  /** The median is the continuous percentile one half. */
  lemma MedianIsHalf(values: seq<real>)
    ensures Aggregate(Cont, State(values, Some(0.5), None)) == Ok(Median(values))
  {
    if values != [] {
      var s := Sorted(values);
      hide Sorted;
      HalfWay(s);
      if |s| == 1 {
        assert s[0] in multiset(values);
      }
    }
  }

  lemma HalfWay(s: seq<real>)
    requires s != []
    ensures At(s, Index(Cont, 0.5, |s|)) == if |s| % 2 == 1 then s[|s| / 2] else (s[|s| / 2 - 1] + s[|s| / 2]) / 2.0
  {
    var k := |s| / 2;
    var index := Index(Cont, 0.5, |s|);
    if |s| % 2 == 1 {
      assert index == k as real;
    } else {
      assert index == k as real - 0.5;
      assert index.Floor == k - 1 && Ceiling(index) == k;
    }
  }
}
