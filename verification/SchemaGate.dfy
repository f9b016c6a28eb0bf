/** The schema gate of an MVCC begin. A passive checkpoint republishes the root pages of the shared schema
    under the same schema cookie, without stopping transactions that begin. */
module SchemaGate {
  import opened Outcome

  datatype Schema = Schema(version: nat, roots: map<string, int>)

  /** The identity of a shared schema object: what `Arc::ptr_eq` compares. */
  type Id = nat

  /** Where a connection is in beginning a transaction. `at` is the schema published when the begin's clock
      callback ran. */
  datatype Phase =
    | Idle
    | ReadGeneration(gen: nat)
    | TookSnapshot(gen: nat, snapshot: Id)
    | Passed(gen: nat)
    | Begun(at: Schema)
    | Running(at: Schema)
    // running, with a schema change of its own that is not committed
    | Altered(at: Schema)

  datatype Conn = Conn(schema: Id, phase: Phase)

  /** The publisher's critical section on the clock. */
  datatype Window = Closed | Entered | Changed | Bumped

  datatype State = State(
    objects: map<Id, Schema>,
    shared: Id,
    generation: nat,
    window: Window,
    conns: seq<Conn>)

  datatype Action =
    // a connection that begins a transaction
    | LoadGeneration(c: nat)
    | LoadSnapshot(c: nat)
    | Compare(c: nat)
    | Begin(c: nat)
    | CheckCookie(c: nat)
    | End(c: nat)
    | Refresh(c: nat)
    | Update(c: nat, roots: map<string, int>)
    // the publisher
    | Enter
    | Republish(roots: map<string, int>)
    | Adopt(c: nat)
    | Bump
    | Leave
    // a transaction that changes the schema, under a new cookie once it commits
    | Alter(c: nat, schema: Schema)
    | CommitSchema(c: nat)
    | RollbackSchema(c: nat)

  function With(s: State, c: nat, conn: Conn): State
    requires c < |s.conns|
  {
    s.(conns := s.conns[c := conn])
  }

  function SharedSchema(s: State): Schema
    requires s.shared in s.objects
  {
    s.objects[s.shared]
  }

  predicate Held(s: State, id: Id) {
    exists i | 0 <= i < |s.conns| :: s.conns[i].schema == id
  }

  /** Someone besides a connection holds its schema. */
  predicate HeldElsewhere(s: State, c: nat)
    requires c < |s.conns|
  {
    s.conns[c].schema == s.shared || exists i | 0 <= i < |s.conns| :: i != c && s.conns[i].schema == s.conns[c].schema
  }

  predicate WellFormed(s: State) {
    && s.shared in s.objects
    && forall i | 0 <= i < |s.conns| :: s.conns[i].schema in s.objects
  }

  /** `has_mvcc_schema_snapshot_changed_with_same_version`. */
  predicate Stale(s: State, mine: Id)
    requires mine in s.objects && s.shared in s.objects
  {
    s.objects[mine].version == SharedSchema(s).version && mine != s.shared
  }

  /** The schema put in place of the shared one: `try_make_mut` copies it when anyone else holds it. */
  function Published(s: State, next: Id, schema: Schema): State {
    if Held(s, s.shared) then s.(objects := s.objects[next := schema], shared := next)
    else s.(objects := s.objects[s.shared := schema])
  }

  /** One atomic step, or `None` where it cannot be taken. `next` is the identity a new object would get. */
  function Step(s: State, a: Action, next: Id): Option<State>
    requires WellFormed(s)
  {
    match a
    case LoadGeneration(c) =>
      if c < |s.conns| && s.conns[c].phase.Idle? then
        Some(With(s, c, s.conns[c].(phase := ReadGeneration(s.generation))))
      else None
    case LoadSnapshot(c) =>
      if c < |s.conns| && s.conns[c].phase.ReadGeneration? then
        Some(With(s, c, s.conns[c].(phase := TookSnapshot(s.conns[c].phase.gen, s.conns[c].schema))))
      else None
    case Compare(c) =>
      if c < |s.conns| && s.conns[c].phase.TookSnapshot? && s.conns[c].phase.snapshot in s.objects then
        Some(With(s, c, s.conns[c].(phase :=
          if Stale(s, s.conns[c].phase.snapshot) then Idle else Passed(s.conns[c].phase.gen))))
      else None
    case Begin(c) =>
      if c < |s.conns| && s.conns[c].phase.Passed? && s.window.Closed? then
        Some(With(s, c, s.conns[c].(phase :=
          if s.conns[c].phase.gen != s.generation then Idle else Begun(SharedSchema(s)))))
      else None
    case CheckCookie(c) =>
      if c < |s.conns| && s.conns[c].phase.Begun? then
        Some(With(s, c, s.conns[c].(phase :=
          if s.objects[s.conns[c].schema].version != s.conns[c].phase.at.version then Idle
          else Running(s.conns[c].phase.at))))
      else None
    case End(c) =>
      if c < |s.conns| && s.conns[c].phase.Running? then Some(With(s, c, s.conns[c].(phase := Idle))) else None
    case Refresh(c) =>
      if c < |s.conns| && s.conns[c].phase.Idle? then
        Some(if s.objects[s.conns[c].schema].version < SharedSchema(s).version || Stale(s, s.conns[c].schema)
             then With(s, c, Conn(s.shared, Idle)) else s)
      else None
    case Update(c, roots) =>
      if c < |s.conns| && s.conns[c].phase.Idle? && next !in s.objects then
        Some(if s.objects[s.conns[c].schema].version != SharedSchema(s).version || Stale(s, s.conns[c].schema)
             then With(s.(objects := s.objects[next := SharedSchema(s).(roots := roots)]), c, Conn(next, Idle)) else s)
      else None
    case Enter =>
      if s.window.Closed? then Some(s.(window := Entered)) else None
    case Republish(roots) =>
      if s.window.Entered? && next !in s.objects then
        Some(Published(s, next, SharedSchema(s).(roots := roots)).(window := Changed))
      else None
    case Adopt(c) =>
      if s.window.Changed? && c < |s.conns| && s.conns[c].phase.Idle? then Some(With(s, c, Conn(s.shared, Idle)))
      else None
    case Bump =>
      if s.window.Changed? then Some(s.(generation := s.generation + 1, window := Bumped)) else None
    case Leave =>
      if s.window.Entered? || s.window.Bumped? then Some(s.(window := Closed)) else None
    case Alter(c, schema) =>
      if c < |s.conns| && (s.conns[c].phase.Running? || s.conns[c].phase.Altered?) && next !in s.objects then
        var mine := if HeldElsewhere(s, c) then next else s.conns[c].schema;
        Some(With(s.(objects := s.objects[mine := schema]), c, Conn(mine, Altered(s.conns[c].phase.at))))
      else None
    case CommitSchema(c) =>
      if c < |s.conns| && s.conns[c].phase.Altered?
         && s.objects[s.conns[c].schema].version > SharedSchema(s).version then
        Some(With(s.(shared := s.conns[c].schema), c, s.conns[c].(phase := Idle)))
      else None
    case RollbackSchema(c) =>
      if c < |s.conns| && s.conns[c].phase.Altered? then Some(With(s, c, Conn(s.shared, Idle))) else None
  }

  /** What holds of a connection in every reachable state. */
  predicate Safe(s: State, conn: Conn)
    requires s.shared in s.objects && conn.schema in s.objects
  {
    var mine := s.objects[conn.schema];
    && (!conn.phase.Altered? ==> mine.version <= SharedSchema(s).version)
    && match conn.phase
       case Idle => true
       case ReadGeneration(gen) => gen <= s.generation
       case TookSnapshot(gen, snapshot) => gen <= s.generation && snapshot == conn.schema
       case Passed(gen) =>
         && gen <= s.generation
         && (gen == s.generation && !s.window.Changed? ==> !Stale(s, conn.schema))
       case Begun(at) => at.version <= SharedSchema(s).version && (mine.version == at.version ==> mine == at)
       case Running(at) => at.version <= SharedSchema(s).version && mine == at
       case Altered(at) => at.version <= SharedSchema(s).version
  }

  predicate Inv(s: State) {
    && WellFormed(s)
    && forall i | 0 <= i < |s.conns| :: Safe(s, s.conns[i])
  }

  predicate ByPublisher(a: Action) {
    a.Enter? || a.Republish? || a.Bump? || a.Leave?
  }

  predicate ByChange(a: Action) {
    a.Alter? || a.CommitSchema? || a.RollbackSchema? || a.Update?
  }

  /** No publish touches a schema that a connection holds. */
  lemma PublisherKeeps(s: State, a: Action, next: Id)
    requires Inv(s) && ByPublisher(a) && Step(s, a, next).Some?
    ensures Inv(Step(s, a, next).value)
  {
    var t := Step(s, a, next).value;
    forall i | 0 <= i < |t.conns|
      ensures t.conns[i].schema in t.objects && Safe(t, t.conns[i])
    {
      assert Safe(s, s.conns[i]);
      assert Held(s, s.conns[i].schema);
    }
  }

  lemma ChangeKeeps(s: State, a: Action, next: Id)
    requires Inv(s) && ByChange(a) && Step(s, a, next).Some?
    ensures Inv(Step(s, a, next).value)
  {
    var t := Step(s, a, next).value;
    forall i | 0 <= i < |t.conns|
      ensures t.conns[i].schema in t.objects && Safe(t, t.conns[i])
    {
      assert Safe(s, s.conns[i]);
    }
  }

  lemma BeginKeeps(s: State, a: Action, next: Id)
    requires Inv(s) && !ByPublisher(a) && !ByChange(a) && Step(s, a, next).Some?
    ensures Inv(Step(s, a, next).value)
  {
    var t := Step(s, a, next).value;
    assert Safe(s, s.conns[a.c]);
    if t != s {
      WithKeeps(s, a.c, t.conns[a.c]);
    }
  }

  /** A connection that is safe takes the place of another. */
  lemma WithKeeps(s: State, c: nat, conn: Conn)
    requires Inv(s) && c < |s.conns| && conn.schema in s.objects && Safe(s, conn)
    ensures Inv(With(s, c, conn))
  {
    var t := With(s, c, conn);
    assert forall i | 0 <= i < |t.conns| :: i != c ==> t.conns[i] == s.conns[i] && Safe(s, s.conns[i]);
  }

  lemma Kept(s: State, a: Action, next: Id)
    requires Inv(s) && Step(s, a, next).Some?
    ensures Inv(Step(s, a, next).value)
  {
    hide Inv, Step, ByPublisher, ByChange;
    if ByPublisher(a) {
      PublisherKeeps(s, a, next);
    } else if ByChange(a) {
      ChangeKeeps(s, a, next);
    } else {
      BeginKeeps(s, a, next);
    }
  }

  /** Every interleaving is a sequence of steps, each with the identity of a possible new object. */
  function Run(s: State, actions: seq<(Action, Id)>): (r: Option<State>)
    requires Inv(s)
    ensures r.Some? ==> Inv(r.value)
    decreases actions
  {
    if actions == [] then Some(s)
    else
      match Step(s, actions[0].0, actions[0].1)
      case None => None
      case Some(t) =>
        Kept(s, actions[0].0, actions[0].1);
        Run(t, actions[1..])
  }

  predicate Initial(s: State) {
    && WellFormed(s) && s.window.Closed?
    && forall i | 0 <= i < |s.conns| ::
         s.conns[i].phase.Idle? && s.objects[s.conns[i].schema].version <= SharedSchema(s).version
  }

  /** Whatever the interleaving, a begin that passes the gate and the re-check finds its connection holding
      the very schema that is published at that moment, or one with another cookie. */
  lemma BeginsWithPublishedSchema(s: State, actions: seq<(Action, Id)>, c: nat, next: Id)
    requires Initial(s) && Run(s, actions).Some?
    requires Step(Run(s, actions).value, Begin(c), next).Some?
    ensures var t := Run(s, actions).value;
            var conn := t.conns[c];
            var began := Step(t, Begin(c), next).value.conns[c].phase;
            && (began.Begun? ==>
                  && began.at == SharedSchema(t)
                  && (conn.schema == t.shared || t.objects[conn.schema].version != SharedSchema(t).version))
            && (!began.Begun? ==> began.Idle? && conn.phase.gen < t.generation)
  {
    assert Safe(Run(s, actions).value, Run(s, actions).value.conns[c]);
  }

  /** And once the cookie check has passed too, the transaction runs on the schema published at its begin,
      until it ends or changes the schema itself. */
  lemma RunsOnSchemaAtBegin(s: State, actions: seq<(Action, Id)>, c: nat)
    requires Initial(s) && Run(s, actions).Some?
    requires c < |Run(s, actions).value.conns| && Run(s, actions).value.conns[c].phase.Running?
    ensures var t := Run(s, actions).value;
            t.conns[c].schema in t.objects && t.objects[t.conns[c].schema] == t.conns[c].phase.at
  {
    assert Safe(Run(s, actions).value, Run(s, actions).value.conns[c]);
  }

  // ----- what each way through the steps leads to -----

  /** Undisturbed, a connection that holds the shared schema gets to run on it. */
  lemma BeginRuns(s: State, c: nat, next: Id)
    requires Inv(s) && s.window.Closed? && c < |s.conns| && s.conns[c] == Conn(s.shared, Idle)
    ensures Run(s, Gate(c, next) + ([(Begin(c), next)] + [(CheckCookie(c), next)]))
         == Some(With(s, c, Conn(s.shared, Running(SharedSchema(s)))))
  {
    var s1 := With(s, c, Conn(s.shared, Passed(s.generation)));
    var s2 := With(s, c, Conn(s.shared, Begun(SharedSchema(s))));
    var s3 := With(s, c, Conn(s.shared, Running(SharedSchema(s))));
    assert s1.conns[c := s2.conns[c]] == s2.conns && s2.conns[c := s3.conns[c]] == s3.conns;
    assert Step(s1, Begin(c), next) == Some(s2) && Step(s2, CheckCookie(c), next) == Some(s3);
    assert [(CheckCookie(c), next)] + [] == [(CheckCookie(c), next)];
    hide Run, Inv, Step, With;
    PassesGate(s, c, [(Begin(c), next)] + [(CheckCookie(c), next)], next);
    RunStep(s1, (Begin(c), next), [(CheckCookie(c), next)], s2);
    RunStep(s2, (CheckCookie(c), next), [], s3);
  }

  /** An idle connection whose schema is older or stale takes the shared one; any other keeps its own. */
  lemma RefreshTakesShared(s: State, c: nat, next: Id)
    requires WellFormed(s) && c < |s.conns| && s.conns[c].phase.Idle?
    ensures var mine := s.objects[s.conns[c].schema];
      Step(s, Refresh(c), next)
      == Some(if mine.version < SharedSchema(s).version
                 || (mine.version == SharedSchema(s).version && s.conns[c].schema != s.shared)
              then s.(conns := s.conns[c := Conn(s.shared, Idle)]) else s)
  {
  }

  /** `maybe_update_schema` takes a copy of the shared schema with its placeholder roots resolved, so the gate
      will not let it pass; and it touches nothing that anyone holds. */
  lemma UpdateTakesCopy(s: State, c: nat, roots: map<string, int>, next: Id)
    requires WellFormed(s) && c < |s.conns| && s.conns[c].phase.Idle? && next !in s.objects
    ensures Step(s, Update(c, roots), next).Some?
    ensures var t, mine := Step(s, Update(c, roots), next).value, s.objects[s.conns[c].schema];
      && (mine.version == SharedSchema(s).version && s.conns[c].schema == s.shared ==> t == s)
      && (t != s ==> WellFormed(t) && Stale(t, t.conns[c].schema) && t.shared == s.shared
                     && forall id | id in s.objects :: id in t.objects && t.objects[id] == s.objects[id])
  {
  }

  /** A transaction that changes the schema has its own: a new copy exactly when anyone else holds the one it
      had. Nobody else sees the change, until the commit makes it the shared schema. */
  lemma AlterStaysPrivate(s: State, c: nat, schema: Schema, next: Id)
    requires WellFormed(s) && c < |s.conns| && next !in s.objects
    requires s.conns[c].phase.Running? || s.conns[c].phase.Altered?
    ensures Step(s, Alter(c, schema), next).Some?
    ensures var t, mine := Step(s, Alter(c, schema), next).value, s.conns[c].schema;
      && (t.conns[c].schema == next <==>
            mine == s.shared || exists i :: 0 <= i < |s.conns| && i != c && s.conns[i].schema == mine)
      && (t.conns[c].schema in {mine, next}) && t.conns[c].phase == Altered(s.conns[c].phase.at)
      && |t.conns| == |s.conns| && t.shared == s.shared && t.generation == s.generation && t.window == s.window
      && WellFormed(t) && t.objects[t.conns[c].schema] == schema && SharedSchema(t) == SharedSchema(s)
      && forall i | 0 <= i < |s.conns| && i != c ::
           t.conns[i] == s.conns[i] && t.objects[t.conns[i].schema] == s.objects[s.conns[i].schema]
  {
  }

  /** Under a newer cookie the commit makes the changed schema the shared one; a rollback goes back to it. */
  lemma ChangeEnds(s: State, c: nat, next: Id)
    requires WellFormed(s) && c < |s.conns| && s.conns[c].phase.Altered?
    ensures var mine := s.conns[c].schema;
      && Step(s, CommitSchema(c), next)
         == (if s.objects[mine].version > SharedSchema(s).version
             then Some(s.(shared := mine, conns := s.conns[c := Conn(mine, Idle)])) else None)
      && Step(s, RollbackSchema(c), next) == Some(s.(conns := s.conns[c := Conn(s.shared, Idle)]))
  {
  }

  /** The comparison alone is not enough: a publish can land after it, and only the re-check stops the
      begin that follows. */
  lemma RecheckIsNeeded()
    ensures exists s, actions ::
      && Initial(s) && Run(s, actions).Some?
      && var t := Run(s, actions).value;
         WellFormed(t) && |t.conns| == 1 && t.conns[0].phase.Passed? && t.window.Closed? && Stale(t, t.conns[0].schema)
  {
    var s := State(map[0 := Schema(1, map["t" := -1])], 0, 0, Closed, [Conn(0, Idle)]);
    var roots := map["t" := 7];
    hide Run;
    PassesGate(s, 0, Publish(roots, 1), 1);
    var passed := With(s, 0, Conn(0, Passed(0)));
    PublishLands(passed, roots, 0, 1);
  }

  function Gate(c: nat, next: Id): seq<(Action, Id)> {
    [(LoadGeneration(c), next)] + ([(LoadSnapshot(c), next)] + [(Compare(c), next)])
  }

  function Publish(roots: map<string, int>, next: Id): seq<(Action, Id)> {
    [(Enter, next)] + ([(Republish(roots), next)] + ([(Bump, next)] + [(Leave, next)]))
  }

  /** A connection that holds the shared schema is not refused by the comparison. */
  lemma PassesGate(s: State, c: nat, rest: seq<(Action, Id)>, next: Id)
    requires Inv(s) && c < |s.conns| && s.conns[c] == Conn(s.shared, Idle)
    ensures var t := With(s, c, Conn(s.shared, Passed(s.generation)));
            Inv(t) && Run(s, Gate(c, next) + rest) == Run(t, rest)
  {
    var s1 := With(s, c, Conn(s.shared, ReadGeneration(s.generation)));
    var s2 := With(s, c, Conn(s.shared, TookSnapshot(s.generation, s.shared)));
    var s3 := With(s, c, Conn(s.shared, Passed(s.generation)));
    assert s1.conns[c := s2.conns[c]] == s2.conns && s2.conns[c := s3.conns[c]] == s3.conns;
    assert Step(s, LoadGeneration(c), next) == Some(s1);
    Kept(s, LoadGeneration(c), next);
    assert Step(s1, LoadSnapshot(c), next) == Some(s2);
    Kept(s1, LoadSnapshot(c), next);
    assert Step(s2, Compare(c), next) == Some(s3);
    hide Run, Inv, Step, With;
    RunStep(s, (LoadGeneration(c), next), [(LoadSnapshot(c), next)] + ([(Compare(c), next)] + rest), s1);
    RunStep(s1, (LoadSnapshot(c), next), [(Compare(c), next)] + rest, s2);
    RunStep(s2, (Compare(c), next), rest, s3);
    assert Gate(c, next) + rest
        == [(LoadGeneration(c), next)] + ([(LoadSnapshot(c), next)] + ([(Compare(c), next)] + rest));
  }

  /** A publish copies a schema that a connection holds, under the same cookie, and bumps the generation. */
  lemma PublishLands(s: State, roots: map<string, int>, holder: nat, next: Id)
    requires Inv(s) && s.window.Closed? && next !in s.objects
    requires holder < |s.conns| && s.conns[holder].schema == s.shared
    ensures Run(s, Publish(roots, next))
         == Some(State(s.objects[next := SharedSchema(s).(roots := roots)], next, s.generation + 1, Closed, s.conns))
  {
    var s1 := s.(window := Entered);
    var s2 := State(s.objects[next := SharedSchema(s).(roots := roots)], next, s.generation, Changed, s.conns);
    var s3 := s2.(generation := s.generation + 1, window := Bumped);
    var s4 := s3.(window := Closed);
    assert Held(s1, s1.shared) by { assert s1.conns[holder].schema == s1.shared; }
    assert Step(s, Enter, next) == Some(s1) && Step(s1, Republish(roots), next) == Some(s2);
    assert Step(s2, Bump, next) == Some(s3) && Step(s3, Leave, next) == Some(s4);
    assert [(Leave, next)] + [] == [(Leave, next)];
    hide Run, Inv, Step;
    RunStep(s, (Enter, next), [(Republish(roots), next)] + ([(Bump, next)] + [(Leave, next)]), s1);
    RunStep(s1, (Republish(roots), next), [(Bump, next)] + [(Leave, next)], s2);
    RunStep(s2, (Bump, next), [(Leave, next)], s3);
    RunStep(s3, (Leave, next), [], s4);
  }

  lemma RunStep(s: State, a: (Action, Id), rest: seq<(Action, Id)>, t: State)
    requires Inv(s) && Step(s, a.0, a.1) == Some(t)
    ensures Inv(t) && Run(s, [a] + rest) == Run(t, rest)
    ensures rest == [] ==> Run(t, rest) == Some(t)
  {
    hide Step, Inv;
    Kept(s, a.0, a.1);
    assert ([a] + rest)[1..] == rest;
  }
}
