/** Named savepoints over shared schema snapshots. The connection keeps reference-counted schemas and
    changes them copy-on-write; SQL promises a rollback to the past. The specification below speaks
    only of the past, and the connection is proved to agree with it. */
module Savepoints {
  import opened Outcome

  /** A schema: the objects of one database by name. */
  type Schema = map<string, string>

  /** The schemas a connection sees: main, temp once it exists, and the attached databases it has
      staged changes for. */
  datatype World = World(main: Schema, temp: Option<Schema>, attached: map<nat, Schema>)

  datatype Slot = Main | Temp | Attached(db: nat)

  datatype Op =
    | Savepoint(name: string)
    | RollbackTo(name: string)
    | Release(name: string)
    | Change(slot: Slot, f: Schema -> Schema)
    | InitTemp
    | Begin
    | EndTransaction

  // ----- the past, and what ROLLBACK TO means in it -----

  /** What does not change during a run: the schemas at its start and those attached databases publish. */
  datatype Setting = Setting(initial: World, published: map<nat, Schema>)

  /** Whether statements commit by themselves, before any of `ops` opens a transaction. */
  function AutoCommit(ops: seq<Op>): bool {
    if ops == [] then true
    else
      match ops[|ops| - 1]
      case Savepoint(_) => false
      case Begin => false
      case EndTransaction => true
      case _ => AutoCommit(ops[..|ops| - 1])
  }

  /** All of them are positions of savepoints. */
  predicate Positions(ops: seq<Op>, at: seq<nat>) {
    forall k | 0 <= k < |at| :: at[k] < |ops| && ops[at[k]].Savepoint?
  }

  predicate Ascending(at: seq<nat>) {
    forall j, k | 0 <= j < k < |at| :: at[j] < at[k]
  }

  /** The positions in `ops` of the savepoints still open after them, oldest first. */
  function Open(ops: seq<Op>): (r: seq<nat>)
    ensures Positions(ops, r) && Ascending(r)
  {
    if ops == [] then []
    else
      var front := ops[..|ops| - 1];
      var open := Open(front);
      match ops[|ops| - 1]
      case Savepoint(_) => open + [|front|]
      case RollbackTo(n) =>
        (match Innermost(front, open, n)
         case None => open
         case Some(k) => open[..k + 1])
      case Release(n) =>
        (match Innermost(front, open, n)
         case None => open
         case Some(k) => if k == 0 && StartsTransaction(front, open[0]) then open else open[..k])
      case EndTransaction => []
      case _ => open
  }

  /** The most recent of the open savepoints that has the name. Names may repeat. */
  function Innermost(ops: seq<Op>, open: seq<nat>, name: string): (r: Option<nat>)
    requires Positions(ops, open)
    ensures r.Some? ==> r.value < |open| && ops[open[r.value]].name == name
    ensures forall k | 0 <= k < |open| && ops[open[k]].name == name :: r.Some? && k <= r.value
  {
    if open == [] then None
    else if ops[open[|open| - 1]].name == name then Some(|open| - 1)
    else Innermost(ops, open[..|open| - 1], name)
  }

  /** The position of the SAVEPOINT that ROLLBACK TO of a name goes back to. */
  function Target(ops: seq<Op>, name: string): (r: Option<nat>)
    ensures r.Some? ==> r.value < |ops|
  {
    match Innermost(ops, Open(ops), name)
    case None => None
    case Some(k) => Some(Open(ops)[k])
  }

  /** A savepoint started outside a transaction starts one. */
  predicate StartsTransaction(ops: seq<Op>, at: nat)
    requires at < |ops|
  {
    AutoCommit(ops[..at])
  }

  function ChangeIn(s: Setting, w: World, slot: Slot, f: Schema -> Schema): World {
    match slot
    case Main => w.(main := f(w.main))
    case Temp => if w.temp.Some? then w.(temp := Some(f(w.temp.value))) else w
    case Attached(db) =>
      if db in w.attached then w.(attached := w.attached[db := f(w.attached[db])])
      else if db in s.published then w.(attached := w.attached[db := f(s.published[db])])
      else w
  }

  predicate CanRead(s: Setting, w: World, slot: Slot) {
    slot.Attached? ==> slot.db in w.attached || slot.db in s.published
  }

  /** What a reader of a slot sees: of an attached database the staged schema, or else the published one,
      and an empty temp schema before there is a temp database. */
  function Seen(s: Setting, w: World, slot: Slot): Schema
    requires CanRead(s, w, slot)
  {
    match slot
    case Main => w.main
    case Temp => if w.temp.Some? then w.temp.value else map[]
    case Attached(db) => if db in w.attached then w.attached[db] else s.published[db]
  }

  /** A temp database, once there, stays; going back to before it existed empties it. */
  function Restore(now: World, past: World): World {
    past.(temp := if now.temp.None? then None else if past.temp.None? then Some(map[]) else past.temp)
  }

  /** The schemas after `ops`. ROLLBACK TO goes back to what they were after the operations before the
      innermost still-open SAVEPOINT of that name. */
  function WorldAfter(s: Setting, ops: seq<Op>): World
    decreases |ops|
  {
    if ops == [] then s.initial
    else
      var front := ops[..|ops| - 1];
      var w := WorldAfter(s, front);
      match ops[|ops| - 1]
      case Change(slot, f) => ChangeIn(s, w, slot, f)
      case InitTemp => if w.temp.None? then w.(temp := Some(map[])) else w
      case RollbackTo(n) =>
        (match Innermost(front, Open(front), n)
         case None => w
         case Some(k) => Restore(w, WorldAfter(s, ops[..Open(front)[k]])))
      case _ => w
  }

  // ----- shared schemas -----

  /** A reference to a reference-counted schema. */
  type Ref = nat

  type Heap = map<Ref, Schema>

  /** References to a main, temp and attached schemas, in a connection's slots or in a savepoint. */
  datatype Refs = Refs(main: Ref, temp: Option<Ref>, attached: map<nat, Ref>)

  datatype Frame = Frame(name: string, startsTransaction: bool, refs: Refs)

  predicate Holds(refs: Refs, r: Ref) {
    refs.main == r || refs.temp == Some(r) || exists db :: db in refs.attached && refs.attached[db] == r
  }

  ghost predicate AllIn(refs: Refs, heap: Heap) {
    refs.main in heap && (refs.temp.Some? ==> refs.temp.value in heap)
    && forall db | db in refs.attached :: refs.attached[db] in heap
  }

  ghost function Deref(heap: Heap, refs: Refs): World
    requires AllIn(refs, heap)
  {
    World(heap[refs.main],
          if refs.temp.Some? then Some(heap[refs.temp.value]) else None,
          map db | db in refs.attached :: heap[refs.attached[db]])
  }

  function SlotRef(refs: Refs, slot: Slot, published: map<nat, Ref>): Ref
    requires slot == Temp ==> refs.temp.Some?
    requires slot.Attached? ==> slot.db in published
  {
    match slot
    case Main => refs.main
    case Temp => refs.temp.value
    case Attached(db) => if db in refs.attached then refs.attached[db] else published[db]
  }

  function SetSlot(refs: Refs, slot: Slot, r: Ref): Refs {
    match slot
    case Main => refs.(main := r)
    case Temp => refs.(temp := Some(r))
    case Attached(db) => refs.(attached := refs.attached[db := r])
  }

  /** The reference a slot itself holds. */
  function RefIn(refs: Refs, slot: Slot): Option<Ref> {
    match slot
    case Main => Some(refs.main)
    case Temp => refs.temp
    case Attached(db) => if db in refs.attached then Some(refs.attached[db]) else None
  }

  /** No other slot, nothing outside and no savepoint holds the reference. */
  ghost predicate OnlyHolder(slots: Refs, external: set<Ref>, savepoints: seq<Frame>, slot: Slot, r: Ref) {
    && r !in external
    && (forall other | other != slot :: RefIn(slots, other) != Some(r))
    && (forall f | f in savepoints :: NoSlotHolds(f.refs, r))
  }

  ghost predicate NoSlotHolds(refs: Refs, r: Ref) {
    forall slot :: RefIn(refs, slot) != Some(r)
  }

  lemma HoldsExactly(refs: Refs, r: Ref)
    ensures Holds(refs, r) <==> !NoSlotHolds(refs, r)
  {
    assert RefIn(refs, Main) == Some(refs.main) && RefIn(refs, Temp) == refs.temp;
    assert forall db | db in refs.attached :: RefIn(refs, Attached(db)) == Some(refs.attached[db]);
  }

  lemma OnlyHolderExactly(slots: Refs, external: set<Ref>, savepoints: seq<Frame>, slot: Slot, r: Ref)
    ensures OnlyHolder(slots, external, savepoints, slot, r)
       <==> !(HeldByOtherSlot(slots, slot, r) || r in external || exists f | f in savepoints :: Holds(f.refs, r))
  {
    HeldByOtherExactly(slots, slot, r);
    hide HeldByOtherSlot, Holds, NoSlotHolds;
    forall f | f in savepoints
      ensures Holds(f.refs, r) <==> !NoSlotHolds(f.refs, r)
    {
      HoldsExactly(f.refs, r);
    }
  }

  lemma HeldByOtherExactly(refs: Refs, slot: Slot, r: Ref)
    ensures !HeldByOtherSlot(refs, slot, r) <==> forall other | other != slot :: RefIn(refs, other) != Some(r)
  {
    assert RefIn(refs, Main) == Some(refs.main) && RefIn(refs, Temp) == refs.temp;
    assert forall db | db in refs.attached :: RefIn(refs, Attached(db)) == Some(refs.attached[db]);
  }

  /** The references of the other slots. */
  predicate HeldByOtherSlot(refs: Refs, slot: Slot, r: Ref) {
    || (slot != Main && refs.main == r)
    || (slot != Temp && refs.temp == Some(r))
    || exists db :: db in refs.attached && refs.attached[db] == r && slot != Attached(db)
  }

  // ----- agreement with the past -----

  /** A savepoint frame holds the world its SAVEPOINT found. */
  ghost predicate FrameMatches(s: Setting, ops: seq<Op>, heap: Heap, temp: Option<Ref>, f: Frame, at: nat)
    requires at < |ops| && ops[at].Savepoint?
  {
    && f.name == ops[at].name
    && f.startsTransaction == StartsTransaction(ops, at)
    && AllIn(f.refs, heap) && Deref(heap, f.refs) == WorldAfter(s, ops[..at])
    && (f.refs.temp.Some? ==> temp.Some?)
  }

  ghost predicate FramesMatch(s: Setting, ops: seq<Op>, heap: Heap, temp: Option<Ref>, frames: seq<Frame>,
                              open: seq<nat>)
    requires Positions(ops, open)
  {
    && |frames| == |open|
    && forall i | 0 <= i < |frames| :: FrameMatches(s, ops, heap, temp, frames[i], open[i])
  }

  /** More operations and writes to references the frames do not hold leave them matching. */
  lemma FramesKept(s: Setting, ops: seq<Op>, heap: Heap, temp: Option<Ref>, frames: seq<Frame>, open: seq<nat>,
                   op: Op, heap': Heap, temp': Option<Ref>)
    requires Positions(ops, open)
    requires FramesMatch(s, ops, heap, temp, frames, open)
    requires temp.Some? ==> temp'.Some?
    requires forall i, r | 0 <= i < |frames| && Holds(frames[i].refs, r) && r in heap
              :: r in heap' && heap'[r] == heap[r]
    ensures FramesMatch(s, ops + [op], heap', temp', frames, open)
  {
    forall i | 0 <= i < |frames|
      ensures FrameMatches(s, ops + [op], heap', temp', frames[i], open[i])
    {
      hide WorldAfter, AutoCommit;
      var f, at := frames[i], open[i];
      assert FrameMatches(s, ops, heap, temp, f, at);
      assert (ops + [op])[..at] == ops[..at];
      assert Holds(f.refs, f.refs.main);
      assert forall db | db in f.refs.attached :: Holds(f.refs, f.refs.attached[db]);
      assert AllIn(f.refs, heap') && Deref(heap', f.refs) == Deref(heap, f.refs);
    }
  }

  /** What is held outside is alive, and the published schemas are among it. */
  ghost predicate Shared(s: Setting, heap: Heap, external: set<Ref>, published: map<nat, Ref>) {
    && external <= heap.Keys
    && (forall db | db in published :: published[db] in external)
    && s.published == (map db | db in published :: heap[published[db]])
  }

  lemma SharedKept(s: Setting, heap: Heap, external: set<Ref>, published: map<nat, Ref>, heap': Heap)
    requires Shared(s, heap, external, published)
    requires forall r | r in external :: r in heap' && heap'[r] == heap[r]
    ensures Shared(s, heap', external, published)
  {
    assert (map db | db in published :: heap[published[db]]) == (map db | db in published :: heap'[published[db]]);
  }

  lemma ExternalLive(s: Setting, heap: Heap, external: set<Ref>, published: map<nat, Ref>)
    requires Shared(s, heap, external, published)
    ensures external <= heap.Keys
  {
  }

  // ----- the connection -----

  datatype ReleaseResult = NotFound | Commit | Released

  class Connection {
    /** Every live schema, and the next reference to allocate. */
    var heap: Heap
    var nextRef: Ref
    var slots: Refs
    var savepoints: seq<Frame>
    var autoCommit: bool
    /** References held outside the connection: shared database schemas, prepared statements. */
    var external: set<Ref>
    /** What the attached databases publish. */
    const published: map<nat, Ref>

    ghost const setting: Setting
    ghost var ops: seq<Op>

    ghost predicate Valid()
      reads this
    {
      && (forall r | r in heap :: r < nextRef)
      && Shared(setting, heap, external, published)
      && AllIn(slots, heap) && Deref(heap, slots) == WorldAfter(setting, ops)
      && autoCommit == AutoCommit(ops)
      && FramesMatch(setting, ops, heap, slots.temp, savepoints, Open(ops))
    }

    /** A new connection starts from the schemas the open databases share. */
    constructor (shared: Heap, nextRef: Ref, main: Ref, published: map<nat, Ref>)
      requires (forall r | r in shared :: r < nextRef) && main in shared
      requires forall db | db in published :: published[db] in shared
      ensures Valid() && autoCommit && ops == [] && savepoints == [] && external == shared.Keys
      ensures Deref(heap, slots) == World(shared[main], None, map[])
    {
      heap, this.nextRef, external := shared, nextRef, shared.Keys;
      slots, savepoints, autoCommit := Refs(main, None, map[]), [], true;
      this.published := published;
      setting := Setting(World(shared[main], None, map[]), map db | db in published :: shared[published[db]]);
      ops := [];
    }

    /** `Schema::try_make_mut` on a slot's reference: written in place only when its strong count is one,
        and on a copy otherwise. */
    method MakeMut(slot: Slot, r: Ref) returns (own: Ref)
      requires r in heap && forall q | q in heap :: q < nextRef
      modifies this`heap, this`nextRef
      ensures own in heap && heap == old(heap)[own := old(heap)[r]]
      ensures forall q | q in heap :: q < nextRef
      ensures own == r <==> OnlyHolder(slots, external, savepoints, slot, r)
      ensures own !in old(heap) || (own == r && !HeldByOtherSlot(slots, slot, r) && r !in external
                                    && forall f | f in savepoints :: !Holds(f.refs, r))
    {
      OnlyHolderExactly(slots, external, savepoints, slot, r);
      hide OnlyHolder;
      if HeldByOtherSlot(slots, slot, r) || r in external || exists f | f in savepoints :: Holds(f.refs, r) {
        own := nextRef;
        heap := heap[own := heap[r]];
        nextRef := nextRef + 1;
      } else {
        own := r;
        assert heap[own := heap[r]] == heap;
      }
    }

    /** `with_database_schema_mut`: a schema change, copy-on-write. No holder of any schema, in a
        savepoint or outside the connection, sees it. */
    method ChangeSchema(slot: Slot, f: Schema -> Schema)
      requires Valid()
      requires slot == Temp ==> slots.temp.Some?
      requires slot.Attached? ==> slot.db in published
      modifies this
      ensures Valid() && ops == old(ops) + [Change(slot, f)]
      ensures savepoints == old(savepoints) && external == old(external)
      ensures forall r | r in external :: r in heap && heap[r] == old(heap)[r]
    {
      hide WorldAfter, AutoCommit, Open, FramesMatch, Deref, ChangeIn, SetSlot, SlotRef,
        HeldByOtherSlot, AllIn, Holds, Shared;
      var r := SlotRef(slots, slot, published);
      SlotRefLive(setting, heap, slots, slot, external, published);
      var own := MakeMut(slot, r);
      heap := heap[own := f(heap[own])];
      assert heap == old(heap)[own := f(old(heap)[r])];
      SlotChanged(setting, old(heap), slots, slot, external, published, f, own);
      ExternalLive(setting, old(heap), external, published);
      SharedKept(setting, old(heap), external, published, heap);
      slots := SetSlot(slots, slot, own);
      OpsExtended(setting, ops, Change(slot, f));
      FramesKept(setting, ops, old(heap), old(slots.temp), savepoints, Open(ops), Change(slot, f), heap, slots.temp);
      ops := ops + [Change(slot, f)];
    }

    /** `with_schema`. */
    method ReadSchema(slot: Slot) returns (schema: Schema)
      requires Valid() && (slot.Attached? ==> slot.db in published)
      ensures CanRead(setting, WorldAfter(setting, ops), slot)
      ensures schema == Seen(setting, WorldAfter(setting, ops), slot)
    {
      hide WorldAfter, AutoCommit, Open, FramesMatch;
      match slot
      case Main => schema := heap[slots.main];
      case Temp => schema := if slots.temp.Some? then heap[slots.temp.value] else map[];
      case Attached(db) =>
        schema := if db in slots.attached then heap[slots.attached[db]] else heap[published[db]];
    }

    /** A statement or another connection takes a reference to the schema in a slot. */
    method ShareSchema(slot: Slot) returns (r: Ref)
      requires Valid()
      requires slot == Temp ==> slots.temp.Some?
      requires slot.Attached? ==> slot.db in published
      modifies this`external
      ensures Valid() && r in heap && external == old(external) + {r}
    {
      hide WorldAfter, AutoCommit, Open, FramesMatch, Deref;
      r := SlotRef(slots, slot, published);
      external := external + {r};
    }

    /** And drops it again. */
    method DropShared(r: Ref)
      requires Valid() && forall db | db in published :: published[db] != r
      modifies this`external
      ensures Valid() && external == old(external) - {r}
    {
      hide WorldAfter, AutoCommit, Open, FramesMatch, Deref;
      external := external - {r};
    }

    method InitTempDatabase()
      requires Valid()
      modifies this
      ensures Valid() && ops == old(ops) + [InitTemp] && savepoints == old(savepoints)
    {
      hide WorldAfter, AutoCommit, Open, FramesMatch, Holds, AllIn;
      if slots.temp.None? {
        DerefWithEmptyTemp(heap, slots, nextRef);
        SharedKept(setting, heap, external, published, heap[nextRef := map[]]);
        heap := heap[nextRef := map[]];
        slots := slots.(temp := Some(nextRef));
        nextRef := nextRef + 1;
      }
      hide Shared;
      OpsExtended(setting, ops, InitTemp);
      FramesKept(setting, ops, old(heap), old(slots.temp), savepoints, Open(ops), InitTemp, heap, slots.temp);
      ops := ops + [InitTemp];
    }

    /** The schemas are captured by reference. */
    method PushSavepoint(name: string)
      requires Valid()
      modifies this
      ensures Valid() && ops == old(ops) + [Savepoint(name)]
      ensures savepoints == old(savepoints) + [Frame(name, old(autoCommit), old(slots))]
      ensures !autoCommit && slots == old(slots) && heap == old(heap)
    {
      hide WorldAfter, AutoCommit, Open, Holds, Deref, AllIn, StartsTransaction;
      var op := Savepoint(name);
      OpsExtended(setting, ops, op);
      FramesKept(setting, ops, heap, slots.temp, savepoints, Open(ops), op, heap, slots.temp);
      savepoints := savepoints + [Frame(name, autoCommit, slots)];
      autoCommit := false;
      ops := ops + [op];
    }

    /** A BEGIN inside a transaction is refused. */
    method BeginTransaction() returns (ok: bool)
      requires Valid()
      modifies this
      ensures Valid() && ok == old(autoCommit) && savepoints == old(savepoints) && slots == old(slots)
      ensures ops == if ok then old(ops) + [Begin] else old(ops)
      ensures !autoCommit
    {
      hide WorldAfter, AutoCommit, Open, Holds, Deref, AllIn, FramesMatch;
      if !autoCommit {
        return false;
      }
      OpsExtended(setting, ops, Begin);
      FramesKept(setting, ops, heap, slots.temp, savepoints, Open(ops), Begin, heap, slots.temp);
      autoCommit := false;
      ops := ops + [Begin];
      ok := true;
    }

    /** A commit keeps the schemas and drops every savepoint. */
    method EndCommittedTransaction()
      requires Valid()
      modifies this
      ensures Valid() && ops == old(ops) + [EndTransaction] && savepoints == []
      ensures autoCommit && slots == old(slots) && heap == old(heap)
    {
      hide WorldAfter, AutoCommit, Open, Holds, Deref, AllIn;
      OpsExtended(setting, ops, EndTransaction);
      autoCommit := true;
      savepoints := [];
      ops := ops + [EndTransaction];
    }

    /** The position of the innermost frame of that name. */
    method FindSavepoint(name: string) returns (k: Option<nat>)
      requires Valid()
      ensures k == Innermost(ops, Open(ops), name) && (k.Some? ==> k.value < |savepoints|)
    {
      hide WorldAfter, AutoCommit, Open, Holds, Deref, AllIn, StartsTransaction;
      var i := |savepoints|;
      while i > 0
        invariant 0 <= i <= |savepoints| == |Open(ops)|
        invariant Innermost(ops, Open(ops), name) == Innermost(ops, Open(ops)[..i], name)
      {
        assert FrameMatches(setting, ops, heap, slots.temp, savepoints[i - 1], Open(ops)[i - 1]);
        if savepoints[i - 1].name == name {
          return Some(i - 1);
        }
        assert Open(ops)[..i][..i - 1] == Open(ops)[..i - 1];
        i := i - 1;
      }
      k := None;
    }

    /** `rollback_named_savepoint_frame` and the restore after it: the slots go back to what the
        innermost frame of that name captured, and only the frames above it are dropped. */
    method RollbackToSavepoint(name: string) returns (found: bool)
      requires Valid()
      modifies this
      ensures Valid() && ops == old(ops) + [RollbackTo(name)]
      ensures found == old(Innermost(ops, Open(ops), name)).Some?
      ensures !found ==> savepoints == old(savepoints) && slots == old(slots)
      ensures found ==> savepoints == old(savepoints)[..old(Innermost(ops, Open(ops), name)).value + 1]
      ensures external == old(external) && forall r | r in external :: heap[r] == old(heap)[r]
    {
      hide WorldAfter, AutoCommit, Open, Holds, Deref, AllIn, FramesMatch, FrameMatches, Restore,
        StartsTransaction, Innermost, Shared;
      var op := RollbackTo(name);
      OpsExtended(setting, ops, op);
      RollbackExtended(setting, ops, name);
      var target := FindSavepoint(name);
      if target.None? {
        FramesKept(setting, ops, heap, slots.temp, savepoints, Open(ops), op, heap, slots.temp);
        ops := ops + [op];
        return false;
      }
      var k := target.value;
      FrameOf(k);
      RestoreSlots(savepoints[k].refs);
      ExternalLive(setting, old(heap), external, published);
      SharedKept(setting, old(heap), external, published, heap);
      FramesKept(setting, ops, old(heap), old(slots.temp), savepoints, Open(ops), op, heap, slots.temp);
      FramesPrefix(setting, ops + [op], heap, slots.temp, savepoints, Open(ops), k + 1);
      savepoints := savepoints[..k + 1];
      ops := ops + [op];
      found := true;
    }

    /** Installs a captured set of references; a temp database that did not exist then is emptied. */
    method RestoreSlots(refs: Refs)
      requires AllIn(slots, heap) && AllIn(refs, heap) && (refs.temp.Some? ==> slots.temp.Some?)
      requires forall r | r in heap :: r < nextRef
      modifies this`heap, this`nextRef, this`slots
      ensures forall r | r in heap :: r < nextRef
      ensures forall r | r in old(heap) :: r in heap && heap[r] == old(heap)[r]
      ensures AllIn(slots, heap) && slots.temp.Some? == old(slots).temp.Some?
      ensures Deref(heap, slots) == Restore(Deref(old(heap), old(slots)), Deref(old(heap), refs))
    {
      hide Holds, Deref, AllIn;
      RestoreIs(heap, slots, refs);
      if slots.temp.Some? && refs.temp.None? {
        DerefWithEmptyTemp(heap, refs, nextRef);
        heap := heap[nextRef := map[]];
        slots := refs.(temp := Some(nextRef));
        nextRef := nextRef + 1;
      } else {
        slots := refs;
      }
    }

    lemma FrameOf(k: nat)
      requires Valid() && k < |savepoints|
      ensures |savepoints| == |Open(ops)|
      ensures var f, at := savepoints[k], Open(ops)[k];
        && f.startsTransaction == StartsTransaction(ops, at)
        && AllIn(f.refs, heap) && Deref(heap, f.refs) == WorldAfter(setting, ops[..at])
        && (f.refs.temp.Some? ==> slots.temp.Some?)
    {
      hide WorldAfter, Deref;
      assert FrameMatches(setting, ops, heap, slots.temp, savepoints[k], Open(ops)[k]);
    }

    /** `release_named_savepoint_frame`: the frame and those above it go; releasing the savepoint that
        started the transaction asks for a commit instead. */
    method ReleaseSavepoint(name: string) returns (r: ReleaseResult)
      requires Valid()
      modifies this
      ensures Valid() && ops == old(ops) + [Release(name)] && slots == old(slots) && heap == old(heap)
      ensures r == match old(Innermost(ops, Open(ops), name))
                   case None => NotFound
                   case Some(k) => if k == 0 && old(savepoints)[0].startsTransaction then Commit else Released
      ensures savepoints == if r == Released then old(savepoints)[..old(Innermost(ops, Open(ops), name)).value]
                            else old(savepoints)
    {
      hide WorldAfter, AutoCommit, Open, Holds, Deref, AllIn, FramesMatch, FrameMatches, StartsTransaction, Innermost;
      var op := Release(name);
      OpsExtended(setting, ops, op);
      ReleaseExtended(ops, name);
      FramesKept(setting, ops, heap, slots.temp, savepoints, Open(ops), op, heap, slots.temp);
      var target := FindSavepoint(name);
      if target.None? {
        ops := ops + [op];
        return NotFound;
      }
      var k := target.value;
      FrameOf(k);
      if savepoints[k].startsTransaction && k == 0 {
        ops := ops + [op];
        return Commit;
      }
      FramesPrefix(setting, ops + [op], heap, slots.temp, savepoints, Open(ops), k);
      savepoints := savepoints[..k];
      ops := ops + [op];
      r := Released;
    }
  }

  lemma RollbackExtended(s: Setting, ops: seq<Op>, name: string)
    ensures Open(ops + [RollbackTo(name)])
         == match Innermost(ops, Open(ops), name)
            case None => Open(ops)
            case Some(k) => Open(ops)[..k + 1]
    ensures WorldAfter(s, ops + [RollbackTo(name)])
         == match Innermost(ops, Open(ops), name)
            case None => WorldAfter(s, ops)
            case Some(k) => Restore(WorldAfter(s, ops), WorldAfter(s, ops[..Open(ops)[k]]))
  {
    var all := ops + [RollbackTo(name)];
    assert all[..|ops|] == ops;
    if Innermost(ops, Open(ops), name).Some? {
      var at := Open(ops)[Innermost(ops, Open(ops), name).value];
      assert all[..at] == ops[..at];
    }
  }

  lemma ReleaseExtended(ops: seq<Op>, name: string)
    ensures Open(ops + [Release(name)])
         == match Innermost(ops, Open(ops), name)
            case None => Open(ops)
            case Some(k) => if k == 0 && StartsTransaction(ops, Open(ops)[0]) then Open(ops) else Open(ops)[..k]
  {
    assert (ops + [Release(name)])[..|ops|] == ops;
  }

  lemma FramesPrefix(s: Setting, ops: seq<Op>, heap: Heap, temp: Option<Ref>, frames: seq<Frame>, open: seq<nat>,
                     k: nat)
    requires Positions(ops, open)
    requires FramesMatch(s, ops, heap, temp, frames, open) && k <= |frames|
    ensures FramesMatch(s, ops, heap, temp, frames[..k], open[..k])
  {
    hide FrameMatches;
  }

  lemma DerefWithEmptyTemp(heap: Heap, refs: Refs, r: Ref)
    requires AllIn(refs, heap) && r !in heap && refs.temp.None?
    ensures var refs' := refs.(temp := Some(r));
      && AllIn(refs', heap[r := map[]])
      && Deref(heap[r := map[]], refs') == Deref(heap, refs).(temp := Some(map[]))
  {
  }

  lemma RestoreIs(heap: Heap, slots: Refs, refs: Refs)
    requires AllIn(slots, heap) && AllIn(refs, heap) && (refs.temp.Some? ==> slots.temp.Some?)
    ensures Restore(Deref(heap, slots), Deref(heap, refs))
         == if slots.temp.Some? && refs.temp.None? then Deref(heap, refs).(temp := Some(map[])) else Deref(heap, refs)
  {
  }

  /** A write to the slot's own copy is the change, and only to that slot. */
  lemma SlotChanged(s: Setting, heap: Heap, slots: Refs, slot: Slot, external: set<Ref>, published: map<nat, Ref>,
                    f: Schema -> Schema, own: Ref)
    requires AllIn(slots, heap) && Shared(s, heap, external, published)
    requires slot == Temp ==> slots.temp.Some?
    requires slot.Attached? ==> slot.db in published
    requires var r := SlotRef(slots, slot, published);
      own !in heap || (own == r && !HeldByOtherSlot(slots, slot, r))
    ensures var r := SlotRef(slots, slot, published); var heap' := heap[own := f(heap[r])];
      && AllIn(SetSlot(slots, slot, own), heap')
      && Deref(heap', SetSlot(slots, slot, own)) == ChangeIn(s, Deref(heap, slots), slot, f)
  {
    match slot
    case Main =>
    case Temp =>
    case Attached(db) => AttachedChanged(s, heap, slots, db, external, published, f, own);
  }

  lemma AttachedChanged(s: Setting, heap: Heap, slots: Refs, db: nat, external: set<Ref>, published: map<nat, Ref>,
                        f: Schema -> Schema, own: Ref)
    requires AllIn(slots, heap) && db in published && Shared(s, heap, external, published)
    requires var r := SlotRef(slots, Attached(db), published);
      own !in heap || (own == r && !HeldByOtherSlot(slots, Attached(db), r))
    ensures var r := SlotRef(slots, Attached(db), published); var heap' := heap[own := f(heap[r])];
      && AllIn(SetSlot(slots, Attached(db), own), heap')
      && Deref(heap', SetSlot(slots, Attached(db), own)) == ChangeIn(s, Deref(heap, slots), Attached(db), f)
  {
    hide HeldByOtherSlot;
    var r := SlotRef(slots, Attached(db), published);
    OthersKept(heap, slots, db, own, f(heap[r]));
    assert r in heap && heap[r] == if db in slots.attached then Deref(heap, slots).attached[db] else s.published[db];
    hide Shared, SlotRef;
    var heap', slots' := heap[own := f(heap[r])], SetSlot(slots, Attached(db), own);
    var got, was := Deref(heap', slots').attached, Deref(heap, slots).attached;
    assert got == was[db := f(heap[r])];
  }

  lemma OthersKept(heap: Heap, slots: Refs, db: nat, own: Ref, x: Schema)
    requires AllIn(slots, heap) && (own !in heap || !HeldByOtherSlot(slots, Attached(db), own))
    ensures var heap' := heap[own := x];
      && heap'[slots.main] == heap[slots.main]
      && (slots.temp.Some? ==> heap'[slots.temp.value] == heap[slots.temp.value])
      && forall d | d in slots.attached && d != db :: heap'[slots.attached[d]] == heap[slots.attached[d]]
  {
  }

  lemma SlotRefLive(s: Setting, heap: Heap, slots: Refs, slot: Slot, external: set<Ref>, published: map<nat, Ref>)
    requires AllIn(slots, heap) && Shared(s, heap, external, published)
    requires slot == Temp ==> slots.temp.Some?
    requires slot.Attached? ==> slot.db in published
    ensures SlotRef(slots, slot, published) in heap
    ensures forall own :: slots.temp.Some? ==> SetSlot(slots, slot, own).temp.Some?
  {
  }

  /** The specification, one operation further. */
  lemma OpsExtended(s: Setting, ops: seq<Op>, op: Op)
    ensures (ops + [op])[..|ops|] == ops
    ensures op.Change? ==> WorldAfter(s, ops + [op]) == ChangeIn(s, WorldAfter(s, ops), op.slot, op.f)
    ensures op.InitTemp? ==>
              var w := WorldAfter(s, ops);
              WorldAfter(s, ops + [op]) == if w.temp.None? then w.(temp := Some(map[])) else w
    ensures op.Savepoint? || op.Release? || op.Begin? || op.EndTransaction? ==>
              WorldAfter(s, ops + [op]) == WorldAfter(s, ops)
    ensures op.Savepoint? ==>
              Open(ops + [op]) == Open(ops) + [|ops|] && StartsTransaction(ops + [op], |ops|) == AutoCommit(ops)
    ensures op.EndTransaction? ==> Open(ops + [op]) == []
    ensures op.Change? || op.InitTemp? || op.Begin? ==> Open(ops + [op]) == Open(ops)
    ensures AutoCommit(ops + [op]) == (op.EndTransaction? || (!op.Savepoint? && !op.Begin? && AutoCommit(ops)))
  {
  }

  // ----- what a caller sees -----

  /** A transaction is open exactly when a SAVEPOINT or BEGIN came after the last end of one. */
  lemma {:induction false} InTransactionExactly(ops: seq<Op>)
    ensures !AutoCommit(ops) <==>
            exists i :: 0 <= i < |ops| && (ops[i].Savepoint? || ops[i].Begin?)
                        && forall j | i <= j < |ops| :: !ops[j].EndTransaction?
  {
    if ops != [] {
      var n := |ops| - 1;
      var front := ops[..n];
      InTransactionExactly(front);
      if !AutoCommit(front) && !ops[n].EndTransaction? {
        var i :| 0 <= i < |front| && (front[i].Savepoint? || front[i].Begin?)
                 && forall j | i <= j < |front| :: !front[j].EndTransaction?;
        assert ops[i] == front[i];
        assert forall j | i <= j < n :: ops[j] == front[j];
      }
      if !AutoCommit(ops) && AutoCommit(front) {
        assert ops[n].Savepoint? || ops[n].Begin?;
      }
    }
  }

  /** The temp database that comes into being is empty, as it was seen to be before; nothing else changes, and
      one that is there stays as it is. */
  lemma InitTempIsUnseen(s: Setting, ops: seq<Op>)
    ensures var before, after := WorldAfter(s, ops), WorldAfter(s, ops + [InitTemp]);
      && after.temp.Some? && after.main == before.main && after.attached == before.attached
      && Seen(s, after, Temp) == Seen(s, before, Temp)
  {
    hide WorldAfter, Open, AutoCommit, StartsTransaction;
    OpsExtended(s, ops, InitTemp);
  }

  /** After a schema change a reader of that slot sees the change of what was seen there before, and every
      other slot is as it was. */
  lemma ChangeIsSeen(s: Setting, ops: seq<Op>, slot: Slot, f: Schema -> Schema)
    requires CanRead(s, WorldAfter(s, ops), slot) && (slot == Temp ==> WorldAfter(s, ops).temp.Some?)
    ensures var before, after := WorldAfter(s, ops), WorldAfter(s, ops + [Change(slot, f)]);
      && CanRead(s, after, slot) && Seen(s, after, slot) == f(Seen(s, before, slot))
      && (forall other | other != slot && CanRead(s, before, other) ::
            CanRead(s, after, other) && Seen(s, after, other) == Seen(s, before, other))
      && after.temp.Some? == before.temp.Some?
      && after.attached.Keys == before.attached.Keys + (if slot.Attached? then {slot.db} else {})
  {
    hide WorldAfter, Open, AutoCommit, StartsTransaction;
    OpsExtended(s, ops, Change(slot, f));
  }

  /** So changes of one slot add up. */
  lemma ChangesAddUp(s: Setting, ops: seq<Op>, slot: Slot, f: Schema -> Schema, g: Schema -> Schema)
    requires CanRead(s, WorldAfter(s, ops), slot) && (slot == Temp ==> WorldAfter(s, ops).temp.Some?)
    ensures var after := WorldAfter(s, ops + [Change(slot, f)] + [Change(slot, g)]);
      CanRead(s, after, slot) && Seen(s, after, slot) == g(f(Seen(s, WorldAfter(s, ops), slot)))
  {
    hide WorldAfter, Seen, CanRead;
    ChangeIsSeen(s, ops, slot, f);
    ChangeIsSeen(s, ops + [Change(slot, f)], slot, g);
  }

  /** The schemas are the past ones; a temp database that exists now is still there, empty if it was not then. */
  predicate WentBack(now: World, past: World, result: World) {
    && result.main == past.main && result.attached == past.attached
    && (now.temp.None? ==> result.temp.None?)
    && (now.temp.Some? ==> result.temp == if past.temp.Some? then past.temp else Some(map[]))
  }

  /** A savepoint and a rollback to it, with anything in between that leaves it open and the innermost of
      its name: more savepoints, rollbacks, releases, schema changes. The schemas are those before the
      savepoint; a temp database that came into being meanwhile is empty. The savepoint stays open, those
      before it are untouched and those after it are gone. */
  lemma RollbackUndoes(s: Setting, ops: seq<Op>, name: string, mid: seq<Op>)
    requires Target(ops + [Savepoint(name)] + mid, name) == Some(|ops|)
    ensures var all := ops + [Savepoint(name)] + mid; var back := all + [RollbackTo(name)];
      && WentBack(WorldAfter(s, all), WorldAfter(s, ops), WorldAfter(s, back))
      && Open(back) == Open(ops) + [|ops|]
  {
    hide WorldAfter, Open, Innermost;
    var all := ops + [Savepoint(name)] + mid;
    RollbackExtended(s, all, name);
    var k := Innermost(all, Open(all), name).value;
    StackBelow(s, ops, name, mid, k);
    assert all[..|ops|] == ops;
    assert Open(all)[..k + 1] == Open(all)[..k] + [|ops|];
  }

  /** ROLLBACK TO can be repeated, after anything that leaves the same savepoint the innermost of its name:
      main and attached schemas come back the same, and so does a temp schema that was there. */
  lemma RollbackRepeats(s: Setting, ops: seq<Op>, name: string, mid: seq<Op>)
    requires Target(ops, name).Some? && Target(ops + [RollbackTo(name)] + mid, name) == Target(ops, name)
    ensures var once := ops + [RollbackTo(name)]; var again := once + mid + [RollbackTo(name)];
      && WorldAfter(s, again).main == WorldAfter(s, once).main
      && WorldAfter(s, again).attached == WorldAfter(s, once).attached
      && (WorldAfter(s, once).temp.Some? ==> WorldAfter(s, again).temp == WorldAfter(s, once).temp)
      && (WorldAfter(s, once).temp.None? ==> WorldAfter(s, again).temp in {None, Some(map[])})
  {
    hide WorldAfter, Target, Restore;
    var once, at := ops + [RollbackTo(name)], Target(ops, name).value;
    var all := once + mid;
    RolledBack(s, ops, name);
    RolledBack(s, all, name);
    assert all[..at] == ops[..at] && ops[..at] + ops[at..] == ops;
    TempStays(s, ops[..at], ops[at..]);
    TempStays(s, once, mid);
    RestoreTwice(WorldAfter(s, ops), WorldAfter(s, ops[..at]), WorldAfter(s, all));
  }

  lemma RolledBack(s: Setting, ops: seq<Op>, name: string)
    requires Target(ops, name).Some?
    ensures WorldAfter(s, ops + [RollbackTo(name)])
         == Restore(WorldAfter(s, ops), WorldAfter(s, ops[..Target(ops, name).value]))
  {
    hide WorldAfter, Open, Innermost, Restore;
    RollbackExtended(s, ops, name);
  }

  lemma RestoreTwice(first: World, past: World, second: World)
    requires past.temp.Some? ==> first.temp.Some?
    requires Restore(first, past).temp.Some? ==> second.temp.Some?
    ensures var once, again := Restore(first, past), Restore(second, past);
      && again.main == once.main && again.attached == once.attached
      && (once.temp.Some? ==> again.temp == once.temp)
      && (once.temp.None? ==> again.temp in {None, Some(map[])})
  {
  }

  /** While the savepoint at a position is open, the open savepoints before it are those of that moment. */
  lemma {:induction false} StackBelow(s: Setting, ops: seq<Op>, name: string, mid: seq<Op>, k: nat)
    requires var all := ops + [Savepoint(name)] + mid; k < |Open(all)| && Open(all)[k] == |ops|
    ensures Open(ops + [Savepoint(name)] + mid)[..k] == Open(ops)
  {
    hide WorldAfter, Open, Innermost, AutoCommit, StartsTransaction;
    var started := ops + [Savepoint(name)];
    var all := started + mid;
    OpsExtended(s, ops, Savepoint(name));
    if mid == [] {
      assert all == started;
      assert forall i | 0 <= i < |Open(ops)| :: Open(ops)[i] < |ops|;
    } else {
      var n := |mid| - 1;
      var before, op := started + mid[..n], mid[n];
      assert all == before + [op];
      OpenStep(s, before, op);
      assert k < |Open(before)| && Open(before)[k] == |ops|;
      StackBelow(s, ops, name, mid[..n], k);
      assert Open(all)[..k] == Open(before)[..k];
    }
  }

  /** One operation opens a savepoint at its own position, or leaves some of the oldest open. */
  lemma OpenStep(s: Setting, ops: seq<Op>, op: Op)
    ensures Open(ops + [op]) == Open(ops) + [|ops|] || Open(ops + [op]) <= Open(ops)
  {
    hide WorldAfter, Open, Innermost, AutoCommit, StartsTransaction;
    match op
    case RollbackTo(name) => RollbackExtended(s, ops, name);
    case Release(name) => ReleaseExtended(ops, name);
    case _ => OpsExtended(s, ops, op);
  }

  /** A temp database, once there, stays. */
  lemma {:induction false} TempStays(s: Setting, ops: seq<Op>, more: seq<Op>)
    ensures WorldAfter(s, ops).temp.Some? ==> WorldAfter(s, ops + more).temp.Some?
  {
    if more == [] {
      assert ops + more == ops;
    } else {
      hide Open, Innermost;
      var n := |more| - 1;
      TempStays(s, ops, more[..n]);
      assert (ops + more)[..|ops + more| - 1] == ops + more[..n];
    }
  }
}
