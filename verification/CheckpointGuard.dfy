/** The mutual exclusion between root statements and explicit checkpoints of one connection. The counters
    are read and written one atomic step at a time; only the checkpoint flag is under the activity lock. */
module CheckpointGuard {
  import opened Outcome

  type StmtId = nat

  /** `begin_explicit_checkpoint` under way. `own` is the statement it runs inside, if any. */
  datatype Begin =
    | NoBegin
    | Locked(own: Option<StmtId>)
    | LoadedRoot(own: Option<StmtId>, root: int)
    | LoadedBoth(own: Option<StmtId>, root: int, blob: int)

  datatype State = State(
    /** The statements that are incremental blob handles. */
    handles: set<StmtId>,
    /** The statements marked `counted_as_active_root`, and which of them are counted as blob handles. */
    counted: set<StmtId>,
    parked: set<StmtId>,
    /** Blob handles that have left the blob count but not yet the root count. */
    leaving: set<StmtId>,
    root: int,
    blob: int,
    flag: bool,
    /** The live guards, each with the statement it was taken in. */
    guards: seq<Option<StmtId>>,
    begin: Begin,
    /** A guard's drop found the flag clear. */
    panicked: bool)

  datatype Action =
    | Start(s: StmtId)
    | Park(s: StmtId)
    | Unpark(s: StmtId)
    | Finish(s: StmtId)
    | Lock(own: Option<StmtId>)
    | LoadRoot
    | LoadBlob
    | Decide
    | Drop(guard: nat)

  function Expected(own: Option<StmtId>): int {
    if own.Some? then 1 else 0
  }

  /** The statement that is inside `begin_explicit_checkpoint` does nothing else meanwhile. */
  predicate Occupied(st: State, s: StmtId) {
    !st.begin.NoBegin? && st.begin.own == Some(s)
  }

  /** One atomic step; `None` where it cannot be taken. A refused start or begin leaves no trace. */
  function Step(st: State, a: Action): Option<State> {
    match a
    case Start(s) =>
      if s in st.counted || !st.begin.NoBegin? then None
      else if st.flag then Some(st)
      else Some(st.(counted := st.counted + {s}, root := st.root + 1))
    case Park(s) =>
      if s in st.handles && s in st.counted && s !in st.parked && s !in st.leaving then
        Some(st.(parked := st.parked + {s}, blob := st.blob + 1))
      else None
    case Unpark(s) =>
      if s in st.parked then
        Some(st.(parked := st.parked - {s}, leaving := st.leaving + {s}, blob := st.blob - 1))
      else None
    case Finish(s) =>
      if s in st.counted && (s in st.handles ==> s in st.leaving) && !Occupied(st, s) then
        Some(st.(counted := st.counted - {s}, leaving := st.leaving - {s}, root := st.root - 1))
      else None
    case Lock(own) =>
      if st.begin.NoBegin? && (own.Some? ==> own.value in st.counted && own.value !in st.handles) then
        Some(st.(begin := Locked(own)))
      else None
    case LoadRoot =>
      if st.begin.Locked? then Some(st.(begin := LoadedRoot(st.begin.own, st.root))) else None
    case LoadBlob =>
      if st.begin.LoadedRoot? then Some(st.(begin := LoadedBoth(st.begin.own, st.begin.root, st.blob))) else None
    case Decide =>
      if !st.begin.LoadedBoth? then None
      else if st.flag || st.begin.root - st.begin.blob != Expected(st.begin.own) then Some(st.(begin := NoBegin))
      else Some(st.(flag := true, guards := st.guards + [st.begin.own], begin := NoBegin))
    case Drop(i) =>
      if i < |st.guards| && st.begin.NoBegin? then
        Some(st.(flag := false, guards := st.guards[..i] + st.guards[i + 1..], panicked := st.panicked || !st.flag))
      else None
  }

  predicate Initial(st: State) {
    st.counted == {} && st.parked == {} && st.leaving == {} && st.root == 0 && st.blob == 0
    && !st.flag && st.guards == [] && st.begin.NoBegin? && !st.panicked
  }

  /** The active root statements other than blob handles and `own`. */
  function Others(st: State, own: Option<StmtId>): set<StmtId> {
    st.counted - st.handles - (if own.Some? then {own.value} else {})
  }

  /** The counters count, and what a begin has read is never below the truth. */
  predicate Inv(st: State) {
    && st.parked <= st.counted * st.handles && st.leaving <= (st.counted - st.parked) * st.handles
    && st.root == |st.counted| && st.blob == |st.parked|
    && |st.guards| <= 1 && (st.flag <==> |st.guards| == 1) && !st.panicked
    && (st.flag ==> Others(st, st.guards[0]) == {})
    && BeginSound(st)
  }

  predicate BeginSound(st: State) {
    && (!st.begin.NoBegin? && st.begin.own.Some? ==> st.begin.own.value in st.counted - st.handles)
    && (st.begin.LoadedRoot? ==> st.begin.root >= |st.counted|)
    && (st.begin.LoadedBoth? ==> st.begin.root - st.begin.blob >= |st.counted - st.handles|)
  }

  lemma {:induction false} Fewer(a: set<StmtId>, b: set<StmtId>)
    requires a <= b
    ensures |a| <= |b|
  {
    if a != {} {
      var x :| x in a;
      Fewer(a - {x}, b - {x});
    }
  }

  lemma Rest(a: set<StmtId>, b: set<StmtId>)
    requires b <= a
    ensures |a - b| == |a| - |b|
  {
    assert a == b + (a - b);
  }

  lemma StartKeeps(st: State, s: StmtId)
    requires Inv(st) && Step(st, Start(s)).Some?
    ensures Inv(Step(st, Start(s)).value)
  {
    Rest(st.counted + {s}, st.counted);
    assert st.counted + {s} - st.counted == {s} || s in st.counted;
  }

  lemma ParkKeeps(st: State, s: StmtId)
    requires Inv(st) && Step(st, Park(s)).Some?
    ensures Inv(Step(st, Park(s)).value)
  {
    Rest(st.parked + {s}, {s});
    assert st.parked + {s} - {s} == st.parked;
  }

  lemma UnparkKeeps(st: State, s: StmtId)
    requires Inv(st) && Step(st, Unpark(s)).Some?
    ensures Inv(Step(st, Unpark(s)).value)
  {
    Rest(st.parked, {s});
  }

  lemma FinishKeeps(st: State, s: StmtId)
    requires Inv(st) && Step(st, Finish(s)).Some?
    ensures Inv(Step(st, Finish(s)).value)
  {
    Rest(st.counted, {s});
    Fewer(st.counted - {s} - st.handles, st.counted - st.handles);
  }

  /** The blob count is read after the root count, and a handle leaves it before it leaves the root count. */
  lemma LoadsKeep(st: State, a: Action)
    requires Inv(st) && Step(st, a).Some? && (a.Lock? || a.LoadRoot? || a.LoadBlob?)
    ensures Inv(Step(st, a).value)
  {
    Fewer(st.counted - st.handles, st.counted - st.parked);
    Rest(st.counted, st.parked);
  }

  /** A begin that reads what it expects is right: the truth is not above what it read. */
  lemma GuardsKeep(st: State, a: Action)
    requires Inv(st) && Step(st, a).Some? && (a.Decide? || a.Drop?)
    ensures Inv(Step(st, a).value)
  {
    if a.Decide? && Step(st, a).value.flag && !st.flag {
      var own := st.begin.own;
      var active := st.counted - st.handles;
      if own.Some? {
        Fewer({own.value} + Others(st, own), active);
      }
      assert |Others(st, own)| == 0;
    }
  }

  lemma Kept(st: State, a: Action)
    requires Inv(st) && Step(st, a).Some?
    ensures Inv(Step(st, a).value)
  {
    hide Step, Inv;
    match a
    case Start(s) => StartKeeps(st, s);
    case Park(s) => ParkKeeps(st, s);
    case Unpark(s) => UnparkKeeps(st, s);
    case Finish(s) => FinishKeeps(st, s);
    case Decide | Drop(_) => GuardsKeep(st, a);
    case Lock(_) | LoadRoot | LoadBlob => LoadsKeep(st, a);
  }

  /** An interleaving, one action after another. */
  function Run(st: State, actions: seq<Action>): (r: Option<State>)
    requires Inv(st)
    ensures r.Some? ==> Inv(r.value)
    decreases actions
  {
    if actions == [] then Some(st)
    else
      match Step(st, actions[0])
      case None => None
      case Some(next) =>
        Kept(st, actions[0]);
        Run(next, actions[1..])
  }

  /** In every reachable state at most one guard is alive, the flag says whether one is, no drop has found
      it clear, and beside a live guard only its own statement and blob handles are active. */
  lemma Exclusion(st: State, actions: seq<Action>)
    requires Initial(st) && Run(st, actions).Some?
    ensures var t := Run(st, actions).value;
            && |t.guards| <= 1 && (t.flag <==> t.guards != []) && !t.panicked
            && forall own | own in t.guards :: t.counted <= t.handles + (if own.Some? then {own.value} else {})
  {
    hide Run;
    var t := Run(st, actions).value;
    forall own | own in t.guards
      ensures t.counted <= t.handles + (if own.Some? then {own.value} else {})
    {
      assert own == t.guards[0];
      forall s | s in t.counted
        ensures s in t.handles + (if own.Some? then {own.value} else {})
      {
        assert s !in Others(t, own);
      }
    }
  }

  /** While a guard is alive no root statement starts. */
  lemma NothingStarts(st: State, before: seq<Action>, a: Action)
    requires Initial(st) && Run(st, before).Some? && Run(st, before).value.guards != []
    requires Step(Run(st, before).value, a).Some?
    ensures Step(Run(st, before).value, a).value.counted <= Run(st, before).value.counted
  {
    hide Run;
  }

  /** While none is and no begin is under way, every statement that is not active can start, and is counted. */
  lemma StartIsCounted(st: State, before: seq<Action>, s: StmtId)
    requires Initial(st) && Run(st, before).Some?
    requires var t := Run(st, before).value; t.guards == [] && t.begin == NoBegin && s !in t.counted
    ensures var t := Run(st, before).value;
            && Step(t, Start(s)).Some?
            && var next := Step(t, Start(s)).value;
               next.counted == t.counted + {s} && next.root == t.root + 1 == |next.counted|
               && next == t.(counted := next.counted, root := next.root)
  {
    hide Run;
    Kept(Run(st, before).value, Start(s));
  }

  /** A guard that is alive can be dropped unless a begin is under way, and then none is left: statements
      can start again. */
  lemma DropReleases(st: State, before: seq<Action>)
    requires Initial(st) && Run(st, before).Some?
    requires Run(st, before).value.guards != [] && Run(st, before).value.begin == NoBegin
    ensures var t := Run(st, before).value;
            Step(t, Drop(0)) == Some(t.(flag := false, guards := []))
  {
    hide Run;
    var t := Run(st, before).value;
    assert t.guards[..0] + t.guards[1..] == [];
  }

  /** An active statement that is no blob handle, and not inside a begin, can finish and leaves the count. */
  lemma FinishIsUncounted(st: State, before: seq<Action>, s: StmtId)
    requires Initial(st) && Run(st, before).Some?
    requires var t := Run(st, before).value;
             s in t.counted && s !in t.handles && (t.begin == NoBegin || t.begin.own != Some(s))
    ensures var t := Run(st, before).value;
            && Step(t, Finish(s)).Some?
            && var next := Step(t, Finish(s)).value;
               next.counted == t.counted - {s} && next.root == t.root - 1 == |next.counted|
               && next == t.(counted := next.counted, root := next.root)
  {
    hide Run;
    var t := Run(st, before).value;
    FinishKeeps(t, s);
    assert t.leaving - {s} == t.leaving;
  }

  /** A blob handle that is active parks and unparks, in the blob count in between, and after that it can
      finish; it leaves both counts as a statement that never parked would. */
  lemma HandleComesAndGoes(st: State, before: seq<Action>, s: StmtId)
    requires Initial(st) && Run(st, before).Some?
    requires var t := Run(st, before).value;
             s in t.counted && s in t.handles && s !in t.parked && s !in t.leaving && t.begin == NoBegin
    ensures var t := Run(st, before).value;
            && Step(t, Park(s)) == Some(t.(parked := t.parked + {s}, blob := t.blob + 1))
            && Step(Step(t, Park(s)).value, Unpark(s)) == Some(t.(leaving := t.leaving + {s}))
            && Step(t.(leaving := t.leaving + {s}), Finish(s))
               == Some(t.(counted := t.counted - {s}, root := t.root - 1))
  {
    hide Run;
    var t := Run(st, before).value;
    assert t.parked + {s} - {s} == t.parked;
    assert t.leaving + {s} - {s} == t.leaving;
  }

  /** A drop that finds the flag clear would be noticed. */
  lemma ClearFlagIsNoticed(st: State, guard: nat)
    requires guard < |st.guards| && st.begin == NoBegin
    ensures Step(st, Drop(guard)).Some? && (Step(st, Drop(guard)).value.panicked <==> st.panicked || !st.flag)
  {
  }

  /** When no blob handle is between its two counters, a begin that nothing interrupts is refused exactly
      when a guard is alive or another statement is active. */
  lemma RefusalIsExact(st: State, own: Option<StmtId>)
    requires Inv(st) && st.begin.NoBegin? && st.parked == st.counted * st.handles
    requires own.Some? ==> own.value in st.counted - st.handles
    ensures Run(st, [Lock(own), LoadRoot, LoadBlob, Decide]).Some?
    ensures Run(st, [Lock(own), LoadRoot, LoadBlob, Decide]).value
         == if st.flag || Others(st, own) != {} then st else st.(flag := true, guards := st.guards + [own])
  {
    var s1 := st.(begin := Locked(own));
    var s2 := st.(begin := LoadedRoot(own, st.root));
    var s3 := st.(begin := LoadedBoth(own, st.root, st.blob));
    assert Step(st, Lock(own)) == Some(s1) && Step(s1, LoadRoot) == Some(s2) && Step(s2, LoadBlob) == Some(s3);
    CountIsExact(st, own);
    var s4 := Step(s3, Decide).value;
    hide *;
    RunUnfolds(st, [Lock(own), LoadRoot, LoadBlob, Decide], s1);
    RunUnfolds(s1, [LoadRoot, LoadBlob, Decide], s2);
    RunUnfolds(s2, [LoadBlob, Decide], s3);
    RunUnfolds(s3, [Decide], s4);
  }

  lemma CountIsExact(st: State, own: Option<StmtId>)
    requires Inv(st) && st.begin.NoBegin? && st.parked == st.counted * st.handles
    requires own.Some? ==> own.value in st.counted - st.handles
    ensures Step(st.(begin := LoadedBoth(own, st.root, st.blob)), Decide)
         == Some(if st.flag || Others(st, own) != {} then st else st.(flag := true, guards := st.guards + [own]))
  {
    ActiveCount(st.counted, st.handles, st.parked, own);
  }

  lemma ActiveCount(counted: set<StmtId>, handles: set<StmtId>, parked: set<StmtId>, own: Option<StmtId>)
    requires parked == counted * handles && (own.Some? ==> own.value in counted - handles)
    ensures var others := counted - handles - (if own.Some? then {own.value} else {});
            && |counted| - |parked| == |others| + Expected(own)
            && (others == {} <==> |counted| - |parked| == Expected(own))
  {
    Rest(counted, parked);
    assert counted - parked == counted - handles;
    var mine := if own.Some? then {own.value} else {};
    Rest(counted - handles, mine);
  }

  lemma RunUnfolds(st: State, actions: seq<Action>, next: State)
    requires Inv(st) && actions != [] && Step(st, actions[0]) == Some(next)
    ensures Inv(next) && Run(st, actions) == Run(next, actions[1..])
    ensures |actions| == 1 ==> Run(st, actions) == Some(next)
  {
    hide Inv, Step;
    Kept(st, actions[0]);
  }
}
