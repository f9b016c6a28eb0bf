/** The table of a prepared statement's bound parameters. */
module Parameters {
  import opened Outcome
  import opened Bytes
  import opened Decimal

  datatype Parameter = Indexed(index: nat) | Named(name: string, index: nat)

  /** An occurrence of a parameter, with the index it got: `?`, `?N` or a name. */
  datatype Spelling = Bare(index: nat) | Numbered(index: nat) | AsName(index: nat, name: string)

  datatype Table = Table(
    next: nat,
    list: seq<Parameter>,
    /** Every index in `list`, with true for those written `?N`. */
    present: map<nat, bool>,
    nameToIndex: map<string, nat>,
    indexToName: map<nat, string>)

  /** What the code would panic on. */
  datatype Panic = IndexOverflow | NotAnIndex

  // ----- what the occurrences so far say, oldest first -----

  predicate Occurs(h: seq<Spelling>, i: nat) {
    h != [] && (Occurs(h[..|h| - 1], i) || h[|h| - 1].index == i)
  }

  predicate OccursNumbered(h: seq<Spelling>, i: nat) {
    h != [] && (OccursNumbered(h[..|h| - 1], i) || h[|h| - 1] == Numbered(i))
  }

  /** The first name given to an index. */
  function FirstName(h: seq<Spelling>, i: nat): Option<string> {
    if h == [] then None
    else
      var before := FirstName(h[..|h| - 1], i);
      if before.Some? then before
      else if h[|h| - 1].AsName? && h[|h| - 1].index == i then Some(h[|h| - 1].name)
      else None
  }

  /** The first index that a name was the first name of. */
  function FirstIndex(h: seq<Spelling>, name: string): Option<nat> {
    if h == [] then None
    else
      var front, last := h[..|h| - 1], h[|h| - 1];
      var before := FirstIndex(front, name);
      if before.Some? then before
      else if last.AsName? && last.name == name && FirstName(front, last.index).None? then Some(last.index)
      else None
  }

  /** One more than the largest index. */
  function NextAfter(h: seq<Spelling>): (n: nat)
    ensures n >= 1
  {
    if h == [] then 1
    else
      var before := NextAfter(h[..|h| - 1]);
      if h[|h| - 1].index >= before then h[|h| - 1].index + 1 else before
  }

  /** An occurrence that names an index which no earlier one named. */
  predicate NamesFirst(h: seq<Spelling>, k: nat) {
    k < |h| && h[k].AsName? && forall j | 0 <= j < k :: !(h[j].AsName? && h[j].index == h[k].index)
  }

  /** The name of an index is the one of its first named occurrence. */
  lemma {:induction false} FirstNameIsFirst(h: seq<Spelling>, i: nat, n: string)
    ensures FirstName(h, i) == Some(n) <==> exists k: nat :: NamesFirst(h, k) && h[k].index == i && h[k].name == n
  {
    if h != [] {
      var front, last := h[..|h| - 1], h[|h| - 1];
      FirstNameIsFirst(front, i, n);
      assert forall k: nat | k < |front| :: NamesFirst(h, k) <==> NamesFirst(front, k);
      if FirstName(front, i).Some? {
        FirstNameIsFirst(front, i, FirstName(front, i).value);
        var k: nat :| NamesFirst(front, k) && front[k].index == i;
        assert h[k].AsName? && h[k].index == i;
      } else {
        NoNameBefore(front, i);
      }
    }
  }

  lemma {:induction false} NoNameBefore(h: seq<Spelling>, i: nat)
    requires FirstName(h, i).None?
    ensures forall j | 0 <= j < |h| :: !(h[j].AsName? && h[j].index == i)
  {
    if h != [] {
      NoNameBefore(h[..|h| - 1], i);
    }
  }

  /** The next free index is 1, or one more than the largest so far. */
  lemma {:induction false} NextIsPastLargest(h: seq<Spelling>)
    ensures forall k | 0 <= k < |h| :: h[k].index < NextAfter(h)
    ensures NextAfter(h) == 1 || exists k :: 0 <= k < |h| && NextAfter(h) == h[k].index + 1
  {
    if h != [] {
      var front := h[..|h| - 1];
      NextIsPastLargest(front);
      if NextAfter(front) != 1 {
        var k :| 0 <= k < |front| && NextAfter(front) == front[k].index + 1;
        assert h[k] == front[k];
      }
    }
  }

  // ----- the table -----

  function Slot(t: Table, i: nat): Parameter {
    if i in t.indexToName then Named(t.indexToName[i], i) else Indexed(i)
  }

  predicate Distinct(list: seq<Parameter>) {
    forall a, b | 0 <= a < b < |list| :: list[a].index != list[b].index
  }

  /** The list has one slot for every index present, named exactly when the index has a name. */
  predicate ListAgrees(t: Table) {
    && Distinct(t.list)
    && (forall p | p in t.list :: p.index in t.present && p == Slot(t, p.index))
    && (forall i | i in t.present :: Slot(t, i) in t.list)
  }

  /** Indexes are below `next`, named ones are not marked as numbered, and each name resolves to an index
      that bears it. */
  predicate MapsAgree(t: Table) {
    && (forall i | i in t.present :: 1 <= i < t.next)
    && (forall i | i in t.indexToName :: i in t.present && !t.present[i] && t.indexToName[i] in t.nameToIndex)
    && (forall n | n in t.nameToIndex :: t.nameToIndex[n] in t.indexToName && t.indexToName[t.nameToIndex[n]] == n)
  }

  /** The table says of every index what the occurrences say... */
  ghost predicate DescribesIndexes(t: Table, h: seq<Spelling>) {
    && t.next == NextAfter(h)
    && (forall i: nat :: i in t.present <==> Occurs(h, i))
    && (forall i: nat | i in t.present :: t.present[i] <==> OccursNumbered(h, i) && FirstName(h, i).None?)
  }

  /** ... and of every name. */
  ghost predicate DescribesNames(t: Table, h: seq<Spelling>) {
    && (forall i: nat :: i in t.indexToName <==> FirstName(h, i).Some?)
    && (forall i: nat | i in t.indexToName :: FirstName(h, i) == Some(t.indexToName[i]))
    && (forall n: string :: n in t.nameToIndex <==> FirstIndex(h, n).Some?)
    && (forall n: string | n in t.nameToIndex :: FirstIndex(h, n) == Some(t.nameToIndex[n]))
  }

  ghost predicate Describes(t: Table, h: seq<Spelling>) {
    && ListAgrees(t) && MapsAgree(t) && 1 <= t.next <= USIZE_MAX
    && DescribesIndexes(t, h) && DescribesNames(t, h)
  }

  const EMPTY := Table(1, [], map[], map[], map[])

  /** `push_positional` past its overflow check. */
  function Positional(t: Table, i: nat, numbered: bool): Table {
    var marked := numbered && i !in t.indexToName;
    var next := if i >= t.next then i + 1 else t.next;
    if i !in t.present then t.(next := next, list := t.list + [Indexed(i)], present := t.present[i := marked])
    else t.(next := next, present := t.present[i := marked || t.present[i]])
  }

  function Without(list: seq<Parameter>, i: nat): (r: seq<Parameter>)
    ensures forall p :: p in r <==> p in list && p.index != i
  {
    if list == [] then []
    else
      assert list == list[..|list| - 1] + [list[|list| - 1]];
      Without(list[..|list| - 1], i) + (if list[|list| - 1].index == i then [] else [list[|list| - 1]])
  }

  /** `push_named_at` past its overflow check. */
  function NamedAt(t: Table, name: string, i: nat): Table {
    var next := if i >= t.next then i + 1 else t.next;
    if i in t.indexToName then t.(next := next)
    else
      Table(next,
            (if i in t.present then Without(t.list, i) else t.list) + [Named(name, i)],
            t.present[i := false],
            if name in t.nameToIndex then t.nameToIndex else t.nameToIndex[name := i],
            t.indexToName[i := name])
  }

  lemma PositionalCases(t: Table, i: nat, numbered: bool)
    ensures var u := Positional(t, i, numbered);
            && u.next == (if i >= t.next then i + 1 else t.next)
            && u.list == (if i in t.present then t.list else t.list + [Indexed(i)])
            && u.present.Keys == t.present.Keys + {i}
            && (forall j | j in t.present && j != i :: u.present[j] == t.present[j])
            && u.present[i] == ((numbered && i !in t.indexToName) || (i in t.present && t.present[i]))
            && u.nameToIndex == t.nameToIndex && u.indexToName == t.indexToName
  {
  }

  lemma NamedAtCases(t: Table, name: string, i: nat)
    ensures var u := NamedAt(t, name, i);
            && u.next == (if i >= t.next then i + 1 else t.next)
            && (i in t.indexToName ==> u == t.(next := u.next))
            && (i !in t.indexToName ==>
                  && u.list == (if i in t.present then Without(t.list, i) else t.list) + [Named(name, i)]
                  && u.present == t.present[i := false] && u.indexToName == t.indexToName[i := name]
                  && u.nameToIndex == if name in t.nameToIndex then t.nameToIndex else t.nameToIndex[name := i])
  {
  }

  lemma {:induction false} WithoutDistinct(list: seq<Parameter>, i: nat)
    requires Distinct(list)
    ensures Distinct(Without(list, i))
  {
    if list != [] {
      var front, last := list[..|list| - 1], list[|list| - 1];
      WithoutDistinct(front, i);
      assert forall p | p in Without(front, i) :: p in front && p.index != last.index;
      DistinctAppend(Without(front, i), last);
    }
  }

  lemma DistinctAppend(list: seq<Parameter>, p: Parameter)
    requires Distinct(list) && forall q | q in list :: q.index != p.index
    ensures Distinct(list + [p])
  {
  }

  lemma PositionalAgrees(t: Table, i: nat, numbered: bool)
    requires ListAgrees(t) && MapsAgree(t) && i >= 1
    ensures ListAgrees(Positional(t, i, numbered))
  {
    hide Distinct;
    var u := Positional(t, i, numbered);
    if i !in t.present {
      DistinctAppend(t.list, Indexed(i));
    }
    assert forall j: nat :: Slot(u, j) == Slot(t, j);
    hide Slot;
  }

  lemma NamedAgrees(t: Table, name: string, i: nat)
    requires ListAgrees(t) && i !in t.indexToName
    ensures ListAgrees(NamedAt(t, name, i))
  {
    hide Slot, NamedAt, Without, Distinct;
    var u, slot := NamedAt(t, name, i), Named(name, i);
    var kept := if i in t.present then Without(t.list, i) else t.list;
    WithoutDistinct(t.list, i);
    KeptSlots(t, i, kept);
    DistinctAppend(kept, slot);
    SlotsAfterNaming(t, name, i);
    hide ListAgrees;
    ListOf(u, kept, slot);
  }

  lemma ListOf(u: Table, kept: seq<Parameter>, slot: Parameter)
    requires u.list == kept + [slot] && Distinct(u.list)
    requires slot.index in u.present && slot == Slot(u, slot.index)
    requires forall p | p in kept :: p.index in u.present && p == Slot(u, p.index)
    requires forall j: nat | j in u.present && j != slot.index :: Slot(u, j) in kept
    ensures ListAgrees(u)
  {
    hide Slot, Distinct;
  }

  lemma KeptSlots(t: Table, i: nat, kept: seq<Parameter>)
    requires ListAgrees(t) && (forall p :: p in kept <==> p in t.list && p.index != i)
    ensures forall p | p in kept :: p.index != i && p.index in t.present && p == Slot(t, p.index)
    ensures forall j: nat | j in t.present && j != i :: Slot(t, j) in kept
  {
  }

  lemma SlotsAfterNaming(t: Table, name: string, i: nat)
    requires i !in t.indexToName
    ensures var u := NamedAt(t, name, i);
            && Slot(u, i) == Named(name, i) && (forall j: nat | j != i :: Slot(u, j) == Slot(t, j))
            && u.present.Keys == t.present.Keys + {i}
            && u.list == (if i in t.present then Without(t.list, i) else t.list) + [Named(name, i)]
  {
  }

  lemma Unfold(h: seq<Spelling>, e: Spelling)
    ensures NextAfter(h + [e]) == if e.index >= NextAfter(h) then e.index + 1 else NextAfter(h)
    ensures forall i: nat :: Occurs(h + [e], i) <==> Occurs(h, i) || e.index == i
    ensures forall i: nat :: OccursNumbered(h + [e], i) <==> OccursNumbered(h, i) || e == Numbered(i)
    ensures forall i: nat :: FirstName(h + [e], i)
              == if FirstName(h, i).None? && e.AsName? && e.index == i then Some(e.name) else FirstName(h, i)
    ensures forall n: string :: FirstIndex(h + [e], n)
              == if FirstIndex(h, n).None? && e.AsName? && e.name == n && FirstName(h, e.index).None? then Some(e.index)
                 else FirstIndex(h, n)
  {
    assert (h + [e])[..|h|] == h;
  }

  lemma {:induction false} NumberedOccurs(h: seq<Spelling>, i: nat)
    ensures OccursNumbered(h, i) ==> Occurs(h, i)
  {
    if h != [] {
      NumberedOccurs(h[..|h| - 1], i);
    }
  }

  lemma PositionalIndexes(t: Table, h: seq<Spelling>, i: nat, numbered: bool)
    requires DescribesIndexes(t, h) && DescribesNames(t, h)
    ensures DescribesIndexes(Positional(t, i, numbered), h + [if numbered then Numbered(i) else Bare(i)])
  {
    hide Occurs, OccursNumbered, FirstName, FirstIndex, NextAfter;
    NumberedOccurs(h, i);
    Unfold(h, if numbered then Numbered(i) else Bare(i));
  }

  lemma PositionalNames(t: Table, h: seq<Spelling>, i: nat, numbered: bool)
    requires DescribesNames(t, h)
    ensures DescribesNames(Positional(t, i, numbered), h + [if numbered then Numbered(i) else Bare(i)])
  {
    hide Occurs, OccursNumbered, FirstName, FirstIndex, NextAfter;
    Unfold(h, if numbered then Numbered(i) else Bare(i));
  }

  lemma PositionalMaps(t: Table, i: nat, numbered: bool)
    requires MapsAgree(t) && i >= 1
    ensures MapsAgree(Positional(t, i, numbered))
  {
  }

  /** A positional occurrence. */
  lemma PositionalDescribes(t: Table, h: seq<Spelling>, i: nat, numbered: bool)
    requires Describes(t, h) && 1 <= i < USIZE_MAX
    ensures Describes(Positional(t, i, numbered), h + [if numbered then Numbered(i) else Bare(i)])
  {
    hide ListAgrees, MapsAgree, DescribesIndexes, DescribesNames;
    PositionalAgrees(t, i, numbered);
    PositionalMaps(t, i, numbered);
    PositionalIndexes(t, h, i, numbered);
    PositionalNames(t, h, i, numbered);
  }

  lemma NamedIndexes(t: Table, h: seq<Spelling>, name: string, i: nat)
    requires DescribesIndexes(t, h) && DescribesNames(t, h) && MapsAgree(t)
    ensures DescribesIndexes(NamedAt(t, name, i), h + [AsName(i, name)])
  {
    hide Occurs, OccursNumbered, FirstName, FirstIndex, NextAfter, Without;
    Unfold(h, AsName(i, name));
  }

  lemma NamedNames(t: Table, h: seq<Spelling>, name: string, i: nat)
    requires DescribesNames(t, h)
    ensures DescribesNames(NamedAt(t, name, i), h + [AsName(i, name)])
  {
    hide Occurs, OccursNumbered, FirstName, FirstIndex, NextAfter, Without;
    Unfold(h, AsName(i, name));
  }

  lemma NamedMaps(t: Table, name: string, i: nat)
    requires MapsAgree(t) && i >= 1
    ensures MapsAgree(NamedAt(t, name, i))
  {
    hide Without;
  }

  /** A named occurrence. */
  lemma NamedDescribes(t: Table, h: seq<Spelling>, name: string, i: nat)
    requires Describes(t, h) && 1 <= i < USIZE_MAX
    ensures Describes(NamedAt(t, name, i), h + [AsName(i, name)])
  {
    hide ListAgrees, MapsAgree, DescribesIndexes, DescribesNames;
    NamedMaps(t, name, i);
    NamedIndexes(t, h, name, i);
    NamedNames(t, h, name, i);
    if i !in t.indexToName {
      NamedAgrees(t, name, i);
    } else {
      AgreesWithNext(t, NamedAt(t, name, i).next);
    }
  }

  lemma AgreesWithNext(t: Table, next: nat)
    requires ListAgrees(t)
    ensures ListAgrees(t.(next := next))
  {
    assert forall i: nat :: Slot(t.(next := next), i) == Slot(t, i);
  }

  // ----- lookups -----

  /** `name`. */
  function Name(t: Table, i: nat): Option<string> {
    if i in t.indexToName then Some(t.indexToName[i])
    else if i in t.present && t.present[i] then Some("?" + Render(i))
    else None
  }

  /** `index`. A non-zero number may be written with a plus sign or with leading zeros. */
  function Index(t: Table, name: string): Option<nat> {
    if name in t.nameToIndex then Some(t.nameToIndex[name])
    else if name == [] || name[0] != '?' then None
    else
      match Parse(name[1..], USIZE_MAX)
      case None => None
      case Some(i) => if i != 0 && i in t.present && t.present[i] then Some(i) else None
  }

  /** The name of an index is the first name it was given, else `?N` if it was ever written so. */
  lemma NameIsFirstSpelling(t: Table, h: seq<Spelling>, i: nat)
    requires Describes(t, h)
    ensures Name(t, i) == if FirstName(h, i).Some? then FirstName(h, i)
                          else if OccursNumbered(h, i) then Some("?" + Render(i))
                          else None
  {
    NumberedOccurs(h, i);
    hide ListAgrees, MapsAgree, FirstName, Occurs, OccursNumbered;
  }

  /** A number written as `format!` would write it. */
  predicate Canonical(name: string) {
    |name| > 1 && name[1] != '+' && name[1] != '0'
  }

  /** A name that resolves is the name of its index exactly when it was given as a name or is a number
      written without a plus sign and without leading zeros. */
  lemma NameOfIndex(t: Table, h: seq<Spelling>, name: string)
    requires Describes(t, h) && Index(t, name).Some?
    ensures Name(t, Index(t, name).value) == Some(name) <==> name in t.nameToIndex || Canonical(name)
  {
    assert forall n | n in t.nameToIndex :: t.indexToName[t.nameToIndex[n]] == n;
    assert forall i | i in t.indexToName :: !t.present[i];
    hide Describes, Render, Value;
    if name !in t.nameToIndex {
      var i, digits := Index(t, name).value, name[1..];
      assert name == "?" + digits;
      NumberIsCanonical(name);
      assert Name(t, i) == Some("?" + Render(i));
      assert ("?" + Render(i))[1..] == Render(i);
    }
  }

  /** A number that parses is the rendering of its value exactly when it is canonical. */
  lemma NumberIsCanonical(name: string)
    requires |name| > 0 && Parse(name[1..], USIZE_MAX).Some? && Parse(name[1..], USIZE_MAX).value != 0
    ensures Render(Parse(name[1..], USIZE_MAX).value) == name[1..] <==> Canonical(name)
  {
    hide Render, Value;
    var digits := name[1..];
    if digits[0] == '+' {
      var s := Render(Parse(digits, USIZE_MAX).value);
      assert s[0] in s;
    } else {
      assert digits[0] == '0' ==> Render(Value(digits))[0] != '0';
      if digits[0] != '0' {
        RenderOfValue(digits);
      }
    }
  }

  /** An index is found again by its name, exactly when no earlier index took that name. */
  lemma IndexOfName(t: Table, h: seq<Spelling>, i: nat)
    requires Describes(t, h) && Name(t, i).Some?
    ensures var name := Name(t, i).value;
            Index(t, name) == Some(i) <==> FirstIndex(h, name).None? || FirstIndex(h, name) == Some(i)
  {
    var name := Name(t, i).value;
    ParseOfRender(i, USIZE_MAX);
    assert ("?" + Render(i))[1..] == Render(i);
    hide ListAgrees, DescribesIndexes, FirstIndex, Parse, Render;
    assert i in t.indexToName ==> t.indexToName[i] in t.nameToIndex;
    assert i in t.present ==> 1 <= i < t.next;
  }

  /** A leading zero resolves but is not the index's name. */
  lemma LeadingZeroIsLost()
    ensures var t := Positional(EMPTY, 7, true);
            Index(t, "?07") == Some(7) && Name(t, 7) == Some("?7")
  {
    assert "?07"[1..] == "07";
    assert "07"[..1] == "0" && "0"[..0] == "";
    assert Value("07") == 7;
    assert Digit(7) == '7' && "?" + Render(7) == "?7";
  }

  // ----- the object -----

  class ParameterTable {
    var nextIndex: nat
    var list: seq<Parameter>
    var present: map<nat, bool>
    var nameToIndex: map<string, nat>
    var indexToName: map<nat, string>
    /** The occurrences so far. */
    ghost var spellings: seq<Spelling>

    ghost function Fields(): Table
      reads this
    {
      Table(nextIndex, list, present, nameToIndex, indexToName)
    }

    ghost predicate Valid()
      reads this
    {
      Describes(Fields(), spellings)
    }

    constructor ()
      ensures Valid() && spellings == [] && Fields() == EMPTY
    {
      nextIndex, list, present, nameToIndex, indexToName := 1, [], map[], map[], map[];
      spellings := [];
    }

    /** `push_positional`, behind `push_numbered` and `push_index`. */
    method PushPositional(i: nat, numbered: bool) returns (r: Result<nat, Panic>)
      requires Valid() && 1 <= i <= USIZE_MAX
      modifies this
      ensures Valid()
      ensures r == if i == USIZE_MAX then Err(IndexOverflow) else Ok(i)
      ensures r.Ok? ==> spellings == old(spellings) + [if numbered then Numbered(i) else Bare(i)]
      ensures Fields() == if r.Ok? then Positional(old(Fields()), i, numbered) else old(Fields())
      ensures r.Err? ==> spellings == old(spellings)
    {
      hide *;
      Opened();
      ghost var t := Fields();
      if i >= nextIndex {
        if i == USIZE_MAX {
          return Err(IndexOverflow);
        }
        nextIndex := i + 1;
      }
      var marked := numbered && i !in indexToName;
      if i !in present {
        present := present[i := marked];
        list := list + [Indexed(i)];
      } else {
        var wasNumbered := present[i];
        present := present[i := marked];
        if wasNumbered && !marked {
          present := present[i := true];
        }
      }
      PositionalDescribes(t, spellings, i, numbered);
      PositionalCases(t, i, numbered);
      spellings := spellings + [if numbered then Numbered(i) else Bare(i)];
      FieldsAre(Positional(t, i, numbered));
      r := Ok(i);
    }

    method PushNamedAt(name: string, i: nat) returns (r: Result<nat, Panic>)
      requires Valid() && 1 <= i <= USIZE_MAX
      modifies this
      ensures Valid()
      ensures r == if i == USIZE_MAX then Err(IndexOverflow) else Ok(i)
      ensures r.Ok? ==> spellings == old(spellings) + [AsName(i, name)]
      ensures Fields() == if r.Ok? then NamedAt(old(Fields()), name, i) else old(Fields())
      ensures r.Err? ==> spellings == old(spellings)
    {
      hide *;
      Opened();
      ghost var t := Fields();
      if i >= nextIndex {
        if i == USIZE_MAX {
          return Err(IndexOverflow);
        }
        nextIndex := i + 1;
      }
      NamedDescribes(t, spellings, name, i);
      NamedAtCases(t, name, i);
      spellings := spellings + [AsName(i, name)];
      if i !in indexToName {
        if i in present {
          list := Without(list, i);
        }
        present := present[i := false];
        if name !in nameToIndex {
          nameToIndex := nameToIndex[name := i];
        }
        indexToName := indexToName[i := name];
        list := list + [Named(name, i)];
      }
      FieldsAre(NamedAt(t, name, i));
      r := Ok(i);
    }

    lemma Opened()
      requires Valid()
      ensures Fields() == Table(nextIndex, list, present, nameToIndex, indexToName)
      ensures Describes(Fields(), spellings) && 1 <= nextIndex <= USIZE_MAX
    {
    }

    lemma FieldsAre(t: Table)
      requires nextIndex == t.next && list == t.list && present == t.present
      requires nameToIndex == t.nameToIndex && indexToName == t.indexToName
      ensures Fields() == t
      ensures Describes(t, spellings) ==> Valid()
    {
    }

    /** `push`: a prefixed name, or the number of a positional parameter. */
    method Push(text: string) returns (r: Result<nat, Panic>)
      requires Valid()
      modifies this
      ensures Valid()
      ensures r == PushOutcome(old(Fields()), text)
      ensures r.Ok? ==> spellings == old(spellings) + PushSpelling(old(Fields()), text)
      ensures r.Err? ==> Fields() == old(Fields()) && spellings == old(spellings)
    {
      assert 1 <= nextIndex <= USIZE_MAX;
      assert forall n | n in nameToIndex :: nameToIndex[n] in indexToName;
      hide Describes, Parse;
      if text != [] && IsPrefix(text[0]) {
        if text in nameToIndex {
          return Ok(nameToIndex[text]);
        }
        if nextIndex == USIZE_MAX {
          return Err(IndexOverflow);
        }
        r := PushNamedAt(text, nextIndex);
      } else {
        var parsed := Parse(text, USIZE_MAX);
        if parsed.None? || parsed.value == 0 {
          return Err(NotAnIndex);
        }
        r := PushPositional(parsed.value, false);
      }
    }
  }

  predicate IsPrefix(c: char) {
    c == '$' || c == ':' || c == '@' || c == '#'
  }

  function PushOutcome(t: Table, text: string): Result<nat, Panic> {
    if text != [] && IsPrefix(text[0]) then
      if text in t.nameToIndex then Ok(t.nameToIndex[text])
      else if t.next == USIZE_MAX then Err(IndexOverflow)
      else Ok(t.next)
    else
      match Parse(text, USIZE_MAX)
      case None => Err(NotAnIndex)
      case Some(i) => if i == 0 then Err(NotAnIndex) else if i == USIZE_MAX then Err(IndexOverflow) else Ok(i)
  }

  /** A name that already resolves is no new occurrence. */
  function PushSpelling(t: Table, text: string): seq<Spelling>
    requires PushOutcome(t, text).Ok?
  {
    var i := PushOutcome(t, text).value;
    if text == [] || !IsPrefix(text[0]) then [Bare(i)]
    else if text in t.nameToIndex then []
    else [AsName(i, text)]
  }

  predicate WrittenAsName(text: string) {
    text != "" && text[0] as int in {35, 36, 58, 64}
  }

  /** What a pushed text comes to. A name that is known keeps its index and is no occurrence; a new one gets
      the next index as long as there is one. */
  lemma NamePushed(t: Table, name: string)
    requires WrittenAsName(name)
    ensures name in t.nameToIndex ==>
              PushOutcome(t, name) == Ok(t.nameToIndex[name]) && PushSpelling(t, name) == []
    ensures name !in t.nameToIndex && t.next != USIZE_MAX ==>
              PushOutcome(t, name) == Ok(t.next) && PushSpelling(t, name) == [AsName(t.next, name)]
    ensures name !in t.nameToIndex && t.next == USIZE_MAX ==> PushOutcome(t, name) == Err(IndexOverflow)
  {
  }

  /** A number is an unnamed parameter with that index, if it is an index and not the last one; anything else
      is not an index. */
  lemma NumberPushed(t: Table, i: nat, text: string)
    ensures var n := Render(i);
      && (0 < i < USIZE_MAX ==> PushOutcome(t, n) == Ok(i) && PushSpelling(t, n) == [Bare(i)])
      && (i == USIZE_MAX ==> PushOutcome(t, n) == Err(IndexOverflow))
      && (i == 0 || i > USIZE_MAX ==> PushOutcome(t, n) == Err(NotAnIndex))
    ensures text == "" || (!WrittenAsName(text) && exists c :: c in text && c != '+' && !IsDigit(c)) ==>
              PushOutcome(t, text) == Err(NotAnIndex)
  {
    ParseOfRender(i, USIZE_MAX);
    var n := Render(i);
    assert n[0] in n;
    hide Render;
  }
}
