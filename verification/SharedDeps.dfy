/**
  Generations of shared dependency graphs: reference counts, the module registry, and imports that
  complete after the step that started them. Generation objects are records addressed by their id.
 */
module SharedDeps {
  import opened Basics

  /** `${instanceId}:${generation}:${key}` within one instance. */
  datatype RegKey = RegKey(gen: nat, key: string)

  /** An in-flight entry: the import is running, or its outcome is known and `finally` is pending. */
  datatype Phase = Importing | Settled

  datatype Generation = Generation(refs: int, inflight: map<string, Phase>, keys: set<string>, disposed: bool)

  /**
    The closure state, and the history it is judged by: `holders` has one element per retain not yet
    released, `evaluated` one per module evaluation that succeeded.
   */
  datatype State = State(
    current: nat,
    nextId: nat,
    retired: set<nat>,
    gens: map<nat, Generation>,
    registry: map<RegKey, seq<string>>,
    holders: multiset<nat>,
    evaluated: multiset<RegKey>)

  const NEW_GENERATION := Generation(0, map[], {}, false)

  function Start(): State {
    State(1, 2, {}, map[1 := NEW_GENERATION], map[], multiset{}, multiset{})
  }

  datatype Op =
    | Load(key: string)
    | Resolve(gen: nat, key: string, exports: Option<seq<string>>)
    | Settle(gen: nat, key: string)
    | Retain
    | Release(id: nat)
    | Bump

  function DisposeGeneration(s: State, id: nat): State
    requires id in s.gens
  {
    s.(registry := map rk | rk in s.registry && !(rk.gen == id && rk.key in s.gens[id].keys) :: s.registry[rk],
       gens := s.gens[id := s.gens[id].(keys := {}, disposed := true)])
  }

  /** What can happen next: imports complete once, and each retain is released at most once. */
  ghost predicate Enabled(s: State, op: Op) {
    match op
    case Resolve(g, k, _) => g in s.gens && k in s.gens[g].inflight && s.gens[g].inflight[k] == Importing
    case Settle(g, k) => g in s.gens && k in s.gens[g].inflight && s.gens[g].inflight[k] == Settled
    case Release(id) => id in s.holders
    case _ => true
  }

  /** The references the object holds are generations. */
  ghost predicate Linked(s: State) {
    s.current in s.gens && forall r | r in s.retired :: r in s.gens
  }

  ghost function Step(s: State, op: Op): State
    requires Linked(s) && Enabled(s, op)
  {
    match op
    case Load(k) =>
      var gen := s.gens[s.current];
      if RegKey(s.current, k) in s.registry || k in gen.inflight then s
      else s.(gens := s.gens[s.current := gen.(inflight := gen.inflight[k := Importing])])
    case Resolve(g, k, exports) =>
      var gen := s.gens[g].(inflight := s.gens[g].inflight[k := Settled]);
      if exports.None? then s.(gens := s.gens[g := gen])
      else
        s.(registry := s.registry[RegKey(g, k) := exports.value],
           gens := s.gens[g := gen.(keys := gen.keys + {k})],
           evaluated := s.evaluated + multiset{RegKey(g, k)})
    case Settle(g, k) =>
      s.(gens := s.gens[g := s.gens[g].(inflight := s.gens[g].inflight - {k})])
    case Retain =>
      var gen := s.gens[s.current];
      s.(gens := s.gens[s.current := gen.(refs := gen.refs + 1)], holders := s.holders + multiset{s.current})
    case Release(id) =>
      if id == s.current then Drop(s, id, if s.gens[id].refs - 1 > 0 then s.gens[id].refs - 1 else 0)
      else if id !in s.retired then s.(holders := s.holders - multiset{id})
      else if s.gens[id].refs - 1 <= 0 then
        DisposeGeneration(Unretire(Drop(s, id, s.gens[id].refs - 1), id), id)
      else Drop(s, id, s.gens[id].refs - 1)
    case Bump =>
      if s.gens[s.current].refs > 0 then Retire(Renew(s), s.current)
      else DisposeGeneration(Renew(s), s.current)
  }

  /** A holder of `id` goes away and the count becomes `refs`. */
  function Drop(s: State, id: nat, refs: int): State
    requires id in s.gens
  {
    s.(holders := s.holders - multiset{id}, gens := s.gens[id := s.gens[id].(refs := refs)])
  }

  function Unretire(s: State, id: nat): State { s.(retired := s.retired - {id}) }

  function Retire(s: State, id: nat): State { s.(retired := s.retired + {id}) }

  /** `current = newGeneration()` */
  function Renew(s: State): State {
    s.(current := s.nextId, nextId := s.nextId + 1, gens := s.gens[s.nextId := NEW_GENERATION])
  }

  // ---------------------------------------------------------------------------
  // The invariant
  // ---------------------------------------------------------------------------

  /** A generation is current, retired or disposed, and counts exactly its holders. */
  ghost predicate GenCounted(s: State, g: nat)
    requires g in s.gens
  {
    && s.gens[g].disposed == (g != s.current && g !in s.retired)
    && s.gens[g].refs == s.holders[g]
    && (g in s.retired ==> s.gens[g].refs > 0)
    && (s.gens[g].disposed ==> s.gens[g].refs == 0)
  }

  ghost predicate Counted(s: State) {
    && (forall g :: g in s.gens <==> 1 <= g < s.nextId)
    && s.current == s.nextId - 1 && s.nextId >= 2
    && (forall g | g in s.retired :: g in s.gens && g != s.current)
    && (forall g | g in s.gens :: GenCounted(s, g))
    && (forall g | g in s.holders :: g in s.gens)
  }

  ghost predicate Running(s: State, rk: RegKey) {
    rk.gen in s.gens && rk.key in s.gens[rk.gen].inflight && s.gens[rk.gen].inflight[rk.key] == Importing
  }

  /** At most one successful evaluation, none while the import runs, and the registry entry of a live one. */
  ghost predicate KeyEvaluated(s: State, rk: RegKey) {
    && s.evaluated[rk] <= 1
    && (Running(s, rk) ==> s.evaluated[rk] == 0)
    && (rk in s.registry ==> rk in s.evaluated) && (rk in s.evaluated ==> rk.gen in s.gens)
    && (rk.gen in s.gens && !s.gens[rk.gen].disposed ==>
          && (rk.key in s.gens[rk.gen].keys <==> rk in s.registry)
          && (rk in s.evaluated ==> rk in s.registry))
  }

  ghost predicate Evaluated(s: State) {
    forall rk :: KeyEvaluated(s, rk)
  }

  ghost predicate Inv(s: State) { Counted(s) && Evaluated(s) }

  lemma CountedLinked(s: State)
    requires Counted(s)
    ensures Linked(s) && !s.gens[s.current].disposed
    ensures forall g | g in s.holders :: g in s.gens && (g == s.current || g in s.retired)
  {
    assert GenCounted(s, s.current);
    forall g | g in s.holders ensures g == s.current || g in s.retired {
      assert GenCounted(s, g);
    }
  }

  lemma StartInv()
    ensures Inv(Start())
  {
  }

  lemma DisposeCounted(s: State, id: nat)
    requires id in s.gens
    ensures var t := DisposeGeneration(s, id);
            && t.gens.Keys == s.gens.Keys
            && (forall g | g in s.gens :: g != id ==> t.gens[g] == s.gens[g])
            && t.gens[id] == s.gens[id].(keys := {}, disposed := true)
            && t.current == s.current && t.nextId == s.nextId && t.retired == s.retired
            && t.holders == s.holders && t.evaluated == s.evaluated
            && (forall rk :: rk in t.registry <==> rk in s.registry && !(rk.gen == id && rk.key in s.gens[id].keys))
  {
  }

  lemma BumpCounted(s: State)
    requires Counted(s)
    ensures Counted(Step(s, Bump))
  {
    hide Retire, DisposeGeneration;
    if s.gens[s.current].refs > 0 {
      RetireCounted(s);
    } else {
      RenewDisposeCounted(s);
    }
  }

  lemma RetireCounted(s: State)
    requires Counted(s) && s.gens[s.current].refs > 0
    ensures Counted(Retire(Renew(s), s.current))
  {
    var t := Retire(Renew(s), s.current);
    assert s.nextId !in s.holders;
    forall g | g in t.gens ensures GenCounted(t, g) {
      if g != s.nextId { assert GenCounted(s, g); }
    }
  }

  lemma RenewDisposeCounted(s: State)
    requires Counted(s) && s.gens[s.current].refs <= 0
    ensures Counted(DisposeGeneration(Renew(s), s.current))
  {
    hide DisposeGeneration;
    var t := DisposeGeneration(Renew(s), s.current);
    assert s.nextId !in s.holders;
    DisposeCounted(Renew(s), s.current);
    forall g | g in t.gens ensures GenCounted(t, g) {
      if g != s.nextId { assert GenCounted(s, g); }
    }
  }

  lemma OneLess(h: multiset<nat>, id: nat)
    requires id in h
    ensures forall g :: (h - multiset{id})[g] == if g == id then h[g] - 1 else h[g]
  {
  }

  /** The release of a holder that does not dispose. */
  lemma DropCounted(s: State, id: nat)
    requires Counted(s) && id in s.holders && (id in s.retired ==> s.gens[id].refs > 1)
    ensures Counted(Drop(s, id, s.gens[id].refs - 1))
  {
    var t := Drop(s, id, s.gens[id].refs - 1);
    OneLess(s.holders, id);
    forall g | g in t.gens ensures GenCounted(t, g) {
      assert GenCounted(s, g);
    }
    assert forall g | g in t.holders :: g in s.holders;
  }

  lemma LastDropGen(s: State, t: State, id: nat, g: nat)
    requires Counted(s) && id in s.holders && id in s.retired && s.gens[id].refs == 1 && g in s.gens && g in t.gens
    requires t.current == s.current && t.retired == s.retired - {id} && t.holders == s.holders - multiset{id}
    requires g != id ==> t.gens[g] == s.gens[g]
    requires g == id ==> t.gens[g].refs == 0 && t.gens[g].disposed
    ensures GenCounted(t, g)
  {
    assert GenCounted(s, g);
    OneLess(s.holders, id);
  }

  /** The release of the last holder of a retired generation. */
  lemma LastDropCounted(s: State, id: nat)
    requires Counted(s) && id in s.holders && id in s.retired && s.gens[id].refs == 1
    ensures Counted(DisposeGeneration(Unretire(Drop(s, id, 0), id), id))
  {
    hide DisposeGeneration, GenCounted;
    var u := Unretire(Drop(s, id, 0), id);
    var t := DisposeGeneration(u, id);
    DisposeCounted(u, id);
    forall g | g in t.gens ensures GenCounted(t, g) {
      LastDropGen(s, t, id, g);
    }
    forall g | g in t.holders ensures g in t.gens { assert g in s.holders; }
  }

  lemma ReleaseCounted(s: State, id: nat)
    requires Counted(s) && id in s.holders
    ensures Counted(Step(s, Release(id)))
  {
    hide DisposeGeneration, Drop, Unretire;
    assert GenCounted(s, id);
    if id in s.retired && s.gens[id].refs == 1 {
      LastDropCounted(s, id);
    } else {
      DropCounted(s, id);
    }
  }

  lemma SmallStepCounted(s: State, op: Op)
    requires Counted(s) && Enabled(s, op) && !op.Bump? && !op.Release?
    ensures Counted(Step(s, op))
  {
    var t := Step(s, op);
    forall g | g in t.gens ensures GenCounted(t, g) {
      assert GenCounted(s, g);
    }
  }

  lemma StepCounted(s: State, op: Op)
    requires Counted(s) && Enabled(s, op)
    ensures Counted(Step(s, op))
  {
    hide Step, Counted;
    match op
    case Bump => BumpCounted(s);
    case Release(id) => ReleaseCounted(s, id);
    case _ => SmallStepCounted(s, op);
  }

  lemma DisposeEvaluated(s: State, id: nat)
    requires Evaluated(s) && id in s.gens
    ensures Evaluated(DisposeGeneration(s, id))
  {
    hide DisposeGeneration;
    DisposeCounted(s, id);
    var t := DisposeGeneration(s, id);
    forall rk ensures KeyEvaluated(t, rk) {
      assert KeyEvaluated(s, rk);
    }
  }

  lemma RenewEvaluated(s: State)
    requires Inv(s)
    ensures Evaluated(Renew(s)) && s.current in Renew(s).gens && Renew(s).gens[s.current] == s.gens[s.current]
  {
    var t := Renew(s);
    forall rk ensures KeyEvaluated(t, rk) {
      assert KeyEvaluated(s, rk);
    }
  }

  /** Counts, retirement and holders do not matter to `Evaluated`. */
  lemma SameEvaluated(s: State, t: State)
    requires Evaluated(s) && t.registry == s.registry && t.evaluated == s.evaluated && t.gens.Keys == s.gens.Keys
    requires forall g | g in s.gens ::
               && t.gens[g].inflight == s.gens[g].inflight && t.gens[g].keys == s.gens[g].keys
               && t.gens[g].disposed == s.gens[g].disposed
    ensures Evaluated(t)
  {
    forall rk ensures KeyEvaluated(t, rk) {
      assert KeyEvaluated(s, rk);
    }
  }

  lemma BumpEvaluated(s: State)
    requires Inv(s)
    ensures Evaluated(Step(s, Bump))
  {
    hide DisposeGeneration, Evaluated, Renew;
    RenewEvaluated(s);
    if s.gens[s.current].refs > 0 {
      SameEvaluated(Renew(s), Step(s, Bump));
    } else {
      DisposeEvaluated(Renew(s), s.current);
    }
  }

  lemma ReleaseEvaluated(s: State, id: nat)
    requires Inv(s) && id in s.holders
    ensures Evaluated(Step(s, Release(id)))
  {
    hide DisposeGeneration, Evaluated;
    var refs := s.gens[id].refs - 1;
    SameEvaluated(s, Drop(s, id, refs));
    SameEvaluated(s, Drop(s, id, if refs > 0 then refs else 0));
    SameEvaluated(s, s.(holders := s.holders - multiset{id}));
    SameEvaluated(s, Unretire(Drop(s, id, refs), id));
    DisposeEvaluated(Unretire(Drop(s, id, refs), id), id);
  }

  lemma SmallStepEvaluated(s: State, op: Op)
    requires Inv(s) && Enabled(s, op) && !op.Bump? && !op.Release?
    ensures Evaluated(Step(s, op))
  {
    var t := Step(s, op);
    assert GenCounted(s, s.current);
    forall rk ensures KeyEvaluated(t, rk) {
      assert KeyEvaluated(s, rk);
      if op.Load? { assert KeyEvaluated(s, RegKey(s.current, op.key)); }
    }
  }

  /** Every step keeps the counts exact and the evaluations single. */
  lemma StepInv(s: State, op: Op)
    requires Inv(s) && Enabled(s, op)
    ensures Inv(Step(s, op))
  {
    hide Step, Counted, Evaluated;
    StepCounted(s, op);
    match op
    case Bump => BumpEvaluated(s);
    case Release(id) => ReleaseEvaluated(s, id);
    case _ => SmallStepEvaluated(s, op);
  }

  // ---------------------------------------------------------------------------
  // Runs
  // ---------------------------------------------------------------------------

  /** Every operation of the run is enabled when its turn comes; `Linked` makes the steps defined. */
  ghost predicate Possible(s: State, ops: seq<Op>)
    decreases |ops|
  {
    Linked(s) && (ops != [] ==> Enabled(s, ops[0]) && Possible(Step(s, ops[0]), ops[1..]))
  }

  ghost function RunFrom(s: State, ops: seq<Op>): State
    requires Possible(s, ops)
    decreases |ops|
  {
    if ops == [] then s else RunFrom(Step(s, ops[0]), ops[1..])
  }

  /** Over every interleaving, counts equal holders and no module is evaluated twice. */
  lemma {:induction false} RunInv(s: State, ops: seq<Op>)
    requires Inv(s) && Possible(s, ops)
    ensures Inv(RunFrom(s, ops))
    decreases |ops|
  {
    hide Step, Enabled, Counted, Evaluated, Linked;
    if ops != [] {
      CountedLinked(s);
      StepInv(s, ops[0]);
      RunInv(Step(s, ops[0]), ops[1..]);
    }
  }

  /** `Linked` leaves no run out: every run from a state with the invariant goes on with any enabled operation. */
  lemma {:induction false} RunExtends(s: State, ops: seq<Op>, op: Op)
    requires Inv(s) && Possible(s, ops) && Enabled(RunFrom(s, ops), op)
    ensures Possible(s, ops + [op])
    decreases |ops|
  {
    hide Step, Enabled, Counted, Evaluated, Linked;
    CountedLinked(s);
    StepInv(s, if ops == [] then op else ops[0]);
    if ops == [] {
      CountedLinked(Step(s, op));
      assert [op][1..] == [] && ops + [op] == [op];
    } else {
      RunExtends(Step(s, ops[0]), ops[1..], op);
      assert (ops + [op])[1..] == ops[1..] + [op];
    }
  }

  /**
    In every reachable state a generation's count is the number of its outstanding holders, it is
    disposed exactly when it is no longer current and has no holders, and each (generation, key)
    has been evaluated successfully at most once.
   */
  lemma GenerationsCountHolders(ops: seq<Op>, g: nat, key: string)
    requires Possible(Start(), ops) && g in RunFrom(Start(), ops).gens
    ensures var s := RunFrom(Start(), ops);
            && s.gens[g].refs == s.holders[g]
            && (s.gens[g].disposed <==> g != s.current && s.holders[g] == 0)
            && s.evaluated[RegKey(g, key)] <= 1
  {
    StartInv();
    RunInv(Start(), ops);
    var s := RunFrom(Start(), ops);
    assert GenCounted(s, g) && KeyEvaluated(s, RegKey(g, key));
  }

  // ---------------------------------------------------------------------------
  // What the registry holds
  // ---------------------------------------------------------------------------

  /** A registry entry is new only as the outcome of the import that just succeeded. */
  lemma EntryFrom(s: State, op: Op, rk: RegKey)
    requires Inv(s) && Enabled(s, op) && Linked(s) && rk in Step(s, op).registry
    ensures (rk in s.registry && Step(s, op).registry[rk] == s.registry[rk])
         || op == Resolve(rk.gen, rk.key, Some(Step(s, op).registry[rk]))
  {
    hide Evaluated, Counted;
  }

  lemma {:induction false} EntriesFrom(s: State, ops: seq<Op>, rk: RegKey)
    requires Inv(s) && Possible(s, ops) && rk in RunFrom(s, ops).registry
    ensures var t := RunFrom(s, ops);
            || (rk in s.registry && t.registry[rk] == s.registry[rk])
            || Resolve(rk.gen, rk.key, Some(t.registry[rk])) in ops
    decreases |ops|
  {
    hide Step, Enabled, Counted, Evaluated, Linked;
    if ops != [] {
      CountedLinked(s);
      StepInv(s, ops[0]);
      EntriesFrom(Step(s, ops[0]), ops[1..], rk);
      assert ops == [ops[0]] + ops[1..];
      if rk in Step(s, ops[0]).registry { EntryFrom(s, ops[0], rk); }
    }
  }

  /** In every run the names registered for a module are those that an import of it resolved to. */
  lemma RegistryHoldsExports(ops: seq<Op>, rk: RegKey)
    requires Possible(Start(), ops) && rk in RunFrom(Start(), ops).registry
    ensures Resolve(rk.gen, rk.key, Some(RunFrom(Start(), ops).registry[rk])) in ops
  {
    StartInv();
    EntriesFrom(Start(), ops, rk);
  }

  /** A successful import registers its names at once, and they stay until the generation is disposed. */
  lemma ExportsStay(s: State, op: Op, rk: RegKey)
    requires Inv(s) && Enabled(s, op) && Linked(s) && rk.gen in s.gens
    ensures op.Resolve? && op.exports.Some? && rk == RegKey(op.gen, op.key) ==>
              rk in Step(s, op).registry && Step(s, op).registry[rk] == op.exports.value
    ensures rk in s.registry && rk.gen in Step(s, op).gens && !Step(s, op).gens[rk.gen].disposed ==>
              rk in Step(s, op).registry && Step(s, op).registry[rk] == s.registry[rk]
  {
    hide Counted;
    assert KeyEvaluated(s, rk);
  }

  /** A registry entry of a disposed generation. */
  ghost predicate Orphan(s: State, rk: RegKey) {
    rk in s.registry && rk.gen in s.gens && s.gens[rk.gen].disposed
  }

  /** An import succeeds after its generation was disposed. */
  ghost predicate Late(s: State, op: Op) {
    op.Resolve? && op.exports.Some? && op.gen in s.gens && s.gens[op.gen].disposed
  }

  lemma DisposeOrphans(s: State, id: nat, rk: RegKey)
    requires Evaluated(s) && id in s.gens && !s.gens[id].disposed
    ensures Orphan(DisposeGeneration(s, id), rk) <==> Orphan(s, rk)
  {
    hide DisposeGeneration;
    DisposeCounted(s, id);
    assert KeyEvaluated(s, rk);
  }

  lemma BumpOrphans(s: State, rk: RegKey)
    requires Inv(s)
    ensures Orphan(Step(s, Bump), rk) <==> Orphan(s, rk)
  {
    hide DisposeGeneration, Evaluated;
    RenewEvaluated(s);
    assert GenCounted(s, s.current);
    assert Orphan(Renew(s), rk) <==> Orphan(s, rk) by {
      RenewRegistry(s, rk);
    }
    if s.gens[s.current].refs <= 0 { DisposeOrphans(Renew(s), s.current, rk); }
  }

  lemma RenewRegistry(s: State, rk: RegKey)
    requires Inv(s)
    ensures Orphan(Renew(s), rk) <==> Orphan(s, rk)
  {
    assert KeyEvaluated(s, rk);
  }

  lemma ReleaseOrphans(s: State, id: nat, rk: RegKey)
    requires Inv(s) && id in s.holders
    ensures Orphan(Step(s, Release(id)), rk) <==> Orphan(s, rk)
  {
    hide DisposeGeneration, Evaluated;
    var refs := s.gens[id].refs - 1;
    assert GenCounted(s, id);
    var u := Unretire(Drop(s, id, refs), id);
    SameEvaluated(s, u);
    DisposeOrphans(u, id, rk);
    assert Orphan(u, rk) <==> Orphan(s, rk);
  }

  /** Only a late success leaves an orphan behind, and orphans stay. */
  lemma StepOrphans(s: State, op: Op, rk: RegKey)
    requires Inv(s) && Enabled(s, op)
    ensures Orphan(Step(s, op), rk) <==> Orphan(s, rk) || (Late(s, op) && op.Resolve? && rk == RegKey(op.gen, op.key))
  {
    hide Evaluated, Counted;
    CountedLinked(s);
    match op
    case Bump => BumpOrphans(s, rk);
    case Release(id) => ReleaseOrphans(s, id, rk);
    case _ =>
  }

  ghost predicate HasLate(s: State, ops: seq<Op>)
    requires Possible(s, ops)
    decreases |ops|
  {
    ops != [] && (Late(s, ops[0]) || HasLate(Step(s, ops[0]), ops[1..]))
  }

  ghost predicate HasOrphan(s: State) { exists rk :: Orphan(s, rk) }

  lemma {:induction false} OrphansFrom(s: State, ops: seq<Op>)
    requires Inv(s) && Possible(s, ops)
    ensures HasOrphan(RunFrom(s, ops)) <==> HasOrphan(s) || HasLate(s, ops)
    decreases |ops|
  {
    hide Step, Enabled, Counted, Evaluated, Linked, Orphan, Late;
    if ops != [] {
      CountedLinked(s);
      var op, t := ops[0], Step(s, ops[0]);
      StepInv(s, op);
      forall rk ensures Orphan(t, rk) <==> Orphan(s, rk) || (Late(s, op) && op.Resolve? && rk == RegKey(op.gen, op.key)) {
        LateIsResolve(s, op);
        StepOrphans(s, op, rk);
      }
      if Late(s, op) {
        LateIsResolve(s, op);
        assert Orphan(t, RegKey(op.gen, op.key));
      }
      OrphansFrom(t, ops[1..]);
    }
  }

  lemma LateIsResolve(s: State, op: Op)
    ensures Late(s, op) ==> op.Resolve?
  {
  }

  /**
    A registry entry of a disposed generation exists exactly when some import succeeded after its
    generation's disposal.
   */
  lemma OrphanIffLateSuccess(ops: seq<Op>)
    requires Possible(Start(), ops)
    ensures HasOrphan(RunFrom(Start(), ops)) <==> HasLate(Start(), ops)
  {
    StartInv();
    OrphansFrom(Start(), ops);
  }

  /** No import of a generation is in flight when a step disposes it. */
  ghost predicate QuietStep(s: State, op: Op)
    requires Linked(s) && Enabled(s, op)
  {
    forall rk | Running(s, rk) && !s.gens[rk.gen].disposed :: rk.gen in Step(s, op).gens && !Step(s, op).gens[rk.gen].disposed
  }

  ghost predicate Quiet(s: State, ops: seq<Op>)
    requires Possible(s, ops)
    decreases |ops|
  {
    ops != [] ==> QuietStep(s, ops[0]) && Quiet(Step(s, ops[0]), ops[1..])
  }

  ghost predicate NoneLeftBehind(s: State) {
    forall rk | Running(s, rk) :: !s.gens[rk.gen].disposed
  }

  lemma StepLeavesNone(s: State, op: Op)
    requires Inv(s) && Enabled(s, op) && NoneLeftBehind(s) && QuietStep(s, op)
    ensures NoneLeftBehind(Step(s, op)) && !Late(s, op)
  {
    var t := Step(s, op);
    hide DisposeGeneration, Evaluated;
    if op.Resolve? { assert Running(s, RegKey(op.gen, op.key)); }
    assert GenCounted(s, s.current);
    NewRunning(s, op);
  }

  /** A step starts at most the import it loads, in the current generation. */
  lemma NewRunning(s: State, op: Op)
    requires Inv(s) && Enabled(s, op)
    ensures forall rk | Running(Step(s, op), rk) ::
              Running(s, rk) || (op.Load? && rk == RegKey(s.current, op.key) && !Step(s, op).gens[s.current].disposed)
  {
    CountedLinked(s);
    hide Counted, Evaluated, Step;
    match op
    case Bump => BumpRunning(s);
    case Release(id) => ReleaseRunning(s, id);
    case _ => SmallStepRunning(s, op);
  }

  lemma SameRunning(s: State, t: State)
    requires t.gens.Keys == s.gens.Keys && forall g | g in s.gens :: t.gens[g].inflight == s.gens[g].inflight
    ensures forall rk :: Running(t, rk) <==> Running(s, rk)
  {
  }

  lemma ReleaseRunning(s: State, id: nat)
    requires Linked(s) && id in s.holders && id in s.gens
    ensures forall rk | Running(Step(s, Release(id)), rk) :: Running(s, rk)
  {
    hide DisposeGeneration, Running;
    DisposeCounted(Unretire(Drop(s, id, s.gens[id].refs - 1), id), id);
    SameRunning(s, Step(s, Release(id)));
  }

  lemma SmallStepRunning(s: State, op: Op)
    requires Linked(s) && Enabled(s, op) && !op.Bump? && !op.Release? && !s.gens[s.current].disposed
    ensures forall rk | Running(Step(s, op), rk) ::
              Running(s, rk) || (op.Load? && rk == RegKey(s.current, op.key) && !Step(s, op).gens[s.current].disposed)
  {
  }

  lemma BumpRunning(s: State)
    requires Inv(s)
    ensures forall rk | Running(Step(s, Bump), rk) :: Running(s, rk)
  {
    hide DisposeGeneration, Evaluated;
    DisposeCounted(Renew(s), s.current);
  }

  lemma {:induction false} QuietNotLate(s: State, ops: seq<Op>)
    requires Inv(s) && Possible(s, ops) && Quiet(s, ops) && NoneLeftBehind(s)
    ensures !HasLate(s, ops)
    decreases |ops|
  {
    hide Step, Enabled, Counted, Evaluated, Linked, QuietStep, NoneLeftBehind, Late;
    if ops != [] {
      CountedLinked(s);
      StepLeavesNone(s, ops[0]);
      StepInv(s, ops[0]);
      QuietNotLate(Step(s, ops[0]), ops[1..]);
    }
  }

  /** When no import is in flight at any disposal, no registry entry belongs to a disposed generation. */
  lemma QuietRunsLeaveNoOrphan(ops: seq<Op>)
    requires Possible(Start(), ops) && Quiet(Start(), ops)
    ensures !HasOrphan(RunFrom(Start(), ops))
  {
    StartInv();
    QuietNotLate(Start(), ops);
    OrphanIffLateSuccess(ops);
  }

  /**
    Without that condition an entry can outlive its generation: from every state whose current
    generation has no holders, an import that is overtaken by a bump and then succeeds leaves one.
   */
  lemma OvertakenImportLeavesOrphan(s: State, k: string, exports: seq<string>)
    requires Inv(s) && s.gens[s.current].refs == 0
    requires RegKey(s.current, k) !in s.registry && k !in s.gens[s.current].inflight
    ensures var ops := [Load(k), Bump, Resolve(s.current, k, Some(exports))];
            Possible(s, ops) && Orphan(RunFrom(s, ops), RegKey(s.current, k))
  {
    hide Counted, Evaluated, DisposeGeneration;
    CountedLinked(s);
    var op := Resolve(s.current, k, Some(exports));
    var s1 := Step(s, Load(k));
    StepInv(s, Load(k));
    CountedLinked(s1);
    DisposeCounted(Renew(s1), s1.current);
    RenewCurrent(s1);
    var s2 := Step(s1, Bump);
    StepInv(s1, Bump);
    CountedLinked(s2);
    var s3 := Step(s2, op);
    StepInv(s2, op);
    CountedLinked(s3);
    RunThree(s, Load(k), Bump, op);
  }

  lemma RenewCurrent(s: State)
    requires Counted(s)
    ensures s.current in Renew(s).gens && Renew(s).gens[s.current] == s.gens[s.current]
  {
  }

  lemma RunThree(s: State, a: Op, b: Op, c: Op)
    requires Inv(s) && Enabled(s, a) && Linked(s)
    requires Inv(Step(s, a)) && Linked(Step(s, a)) && Enabled(Step(s, a), b)
    requires Inv(Step(Step(s, a), b)) && Linked(Step(Step(s, a), b)) && Enabled(Step(Step(s, a), b), c)
    requires Inv(Step(Step(Step(s, a), b), c)) && Linked(Step(Step(Step(s, a), b), c))
    ensures Possible(s, [a, b, c]) && RunFrom(s, [a, b, c]) == Step(Step(Step(s, a), b), c)
  {
    hide Step, Enabled, Counted, Evaluated;
    var s1, s2, s3 := Step(s, a), Step(Step(s, a), b), Step(Step(Step(s, a), b), c);
    assert [a, b, c][1..] == [b, c] && [b, c][1..] == [c] && [c][1..] == [];
    assert Possible(s3, []) && RunFrom(s3, []) == s3;
    assert Possible(s2, [c]) && RunFrom(s2, [c]) == s3;
    assert Possible(s1, [b, c]) && RunFrom(s1, [b, c]) == s3;
  }

  lemma ReleaseCases(s: State, id: nat)
    requires Inv(s) && Enabled(s, Release(id))
    ensures Linked(s) && id in s.holders && id in s.gens
    ensures Inv(Step(s, Release(id)))
    ensures Step(s, Release(id)) ==
            var refs := s.gens[id].refs - 1;
            if id == s.current then Drop(s, id, if refs > 0 then refs else 0)
            else if id !in s.retired then s.(holders := s.holders - multiset{id})
            else if refs <= 0 then DisposeGeneration(Unretire(Drop(s, id, refs), id), id)
            else Drop(s, id, refs)
  {
    CountedLinked(s);
    StepInv(s, Release(id));
  }

  lemma BumpCases(s: State)
    requires Inv(s)
    ensures Linked(s) && s.current in Renew(s).gens && Renew(s).gens[s.current] == s.gens[s.current]
    ensures Inv(Step(s, Bump))
    ensures Step(s, Bump) ==
            if s.gens[s.current].refs > 0 then Retire(Renew(s), s.current)
            else DisposeGeneration(Renew(s), s.current)
  {
    CountedLinked(s);
    RenewCurrent(s);
    StepInv(s, Bump);
  }

  // ---------------------------------------------------------------------------
  // The object
  // ---------------------------------------------------------------------------

  /** `createSharedDependencies`. An import is an operation that completes later, by `Resolved` and `Finally`. */
  class SharedDependencies {
    var current: nat
    var nextId: nat
    var retired: set<nat>
    var gens: map<nat, Generation>
    var registry: map<RegKey, seq<string>>
    ghost var holders: multiset<nat>
    ghost var evaluated: multiset<RegKey>

    ghost function Now(): State
      reads this
    {
      State(current, nextId, retired, gens, registry, holders, evaluated)
    }

    constructor ()
      ensures Now() == Start() && Inv(Now())
    {
      current, nextId, retired, gens, registry := 1, 2, {}, map[1 := NEW_GENERATION], map[];
      holders, evaluated := multiset{}, multiset{};
      new;
      StartInv();
    }

    /** Returns the export names at once when the module is registered; otherwise an import is under way. */
    method LoadModule(key: string) returns (exportNames: Option<seq<string>>)
      requires Inv(Now())
      modifies this
      ensures Now() == Step(old(Now()), Load(key)) && Inv(Now())
      ensures exportNames == (if RegKey(current, key) in registry then Some(registry[RegKey(current, key)]) else None)
      ensures exportNames.None? ==> key in gens[current].inflight
    {
      StepInv(Now(), Load(key));
      var registryKey := RegKey(current, key);
      if registryKey in registry {
        return Some(registry[registryKey]);
      }
      var gen := gens[current];
      if key !in gen.inflight {
        gens := gens[current := gen.(inflight := gen.inflight[key := Importing])];
      }
      exportNames := None;
    }

    method Resolved(gen: nat, key: string, exports: Option<seq<string>>)
      requires Inv(Now()) && Enabled(Now(), Resolve(gen, key, exports))
      modifies this
      ensures Now() == Step(old(Now()), Resolve(gen, key, exports)) && Inv(Now())
    {
      StepInv(Now(), Resolve(gen, key, exports));
      var g := gens[gen].(inflight := gens[gen].inflight[key := Settled]);
      if exports.Some? {
        registry := registry[RegKey(gen, key) := exports.value];
        g := g.(keys := g.keys + {key});
        evaluated := evaluated + multiset{RegKey(gen, key)};
      }
      gens := gens[gen := g];
    }

    method Finally(gen: nat, key: string)
      requires Inv(Now()) && Enabled(Now(), Settle(gen, key))
      modifies this
      ensures Now() == Step(old(Now()), Settle(gen, key)) && Inv(Now())
    {
      StepInv(Now(), Settle(gen, key));
      gens := gens[gen := gens[gen].(inflight := gens[gen].inflight - {key})];
    }

    method RetainCurrent() returns (id: nat)
      requires Inv(Now())
      modifies this
      ensures Now() == Step(old(Now()), Retain) && Inv(Now()) && id == old(current)
    {
      StepInv(Now(), Retain);
      gens := gens[current := gens[current].(refs := gens[current].refs + 1)];
      holders := holders + multiset{current};
      id := current;
    }

    method ReleaseGeneration(id: nat)
      requires Inv(Now()) && Enabled(Now(), Release(id))
      modifies this
      ensures Now() == Step(old(Now()), Release(id)) && Inv(Now())
    {
      hide Inv, Enabled, Linked, Counted, Evaluated, DisposeGeneration, Step;
      ghost var s := Now();
      ReleaseCases(s, id);
      holders := holders - multiset{id};
      if id == current {
        var refs := gens[id].refs - 1;
        gens := gens[id := gens[id].(refs := if refs > 0 then refs else 0)];
        return;
      }
      if id !in retired {
        return;
      }
      gens := gens[id := gens[id].(refs := gens[id].refs - 1)];
      assert Now() == Drop(s, id, s.gens[id].refs - 1);
      if gens[id].refs <= 0 {
        retired := retired - {id};
        assert Now() == Unretire(Drop(s, id, s.gens[id].refs - 1), id);
        Dispose(id);
      }
    }

    method BumpGeneration()
      requires Inv(Now())
      modifies this
      ensures Now() == Step(old(Now()), Bump) && Inv(Now())
    {
      hide Inv, Enabled, Linked, Counted, Evaluated, DisposeGeneration, Step;
      ghost var s := Now();
      BumpCases(s);
      var replaced := current;
      gens := gens[nextId := NEW_GENERATION];
      current := nextId;
      nextId := nextId + 1;
      assert Now() == Renew(s);
      if gens[replaced].refs > 0 {
        retired := retired + {replaced};
      } else {
        Dispose(replaced);
      }
    }

    method Dispose(id: nat)
      requires id in gens
      modifies this
      ensures Now() == DisposeGeneration(old(Now()), id)
    {
      registry := map rk | rk in registry && !(rk.gen == id && rk.key in gens[id].keys) :: registry[rk];
      gens := gens[id := gens[id].(keys := {}, disposed := true)];
    }
  }
}
