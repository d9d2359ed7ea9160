/**
  The managed dependency store: a manifest of the packages asked for, a directory of packages that
  `bun install` fills, and a marker file that stands while an install runs. An install can be killed
  at any point and leave packages half-written.
 */
module DepsStore {
  import opened Basics
  import opened JsMaps

  type Alias = string

  /** `alias` and `spec` come from the package's name and range; requests may differ in subpath only. */
  datatype Request = Request(alias: Alias, spec: string, subpath: string)

  /** A package directory; a half-written one may have its package.json already. */
  datatype Package = Half(json: bool) | Complete

  /** `listed` is the manifest the process read; `touched` are the packages it has begun to write. */
  datatype Phase =
    | Running(force: bool, listed: set<Alias>, touched: set<Alias>)
    | Succeeded

  datatype State = State(manifest: map<Alias, string>, marker: bool, disk: map<Alias, Package>, installs: map<nat, Phase>)

  const EMPTY: State := State(map[], false, map[], map[])

  // ---------------------------------------------------------------------------
  // Steps
  // ---------------------------------------------------------------------------

  datatype Step =
    | Add(reqs: seq<Request>)
    | Begin(id: nat)
    | Write(id: nat, alias: Alias, json: bool)
    | Place(id: nat, alias: Alias)
    | Exit(id: nat, ok: bool)
    | Done(id: nat)
    | Crash

  function AddAll(manifest: map<Alias, string>, reqs: seq<Request>): map<Alias, string> {
    if reqs == [] then manifest
    else
      var last := |reqs| - 1;
      AddAll(manifest, reqs[..last])[reqs[last].alias := reqs[last].spec]
  }

  /** `bun install` rewrites every listed package under `--force`, and otherwise only absent ones. */
  ghost predicate MayWrite(s: State, p: Phase, alias: Alias) {
    p.Running? && alias in p.listed && (p.force || alias !in s.disk || alias in p.touched)
  }

  /** What exit code 0 says: everything listed is there, and what the process had to write is complete. */
  ghost predicate Delivered(s: State, p: Phase)
    requires p.Running?
  {
    forall a | a in p.listed :: a in s.disk && (p.force || a in p.touched ==> s.disk[a] == Complete)
  }

  ghost predicate Enabled(s: State, step: Step) {
    match step
    case Add(_) => true
    case Begin(id) => id !in s.installs
    case Write(id, alias, _) => id in s.installs && MayWrite(s, s.installs[id], alias)
    case Place(id, alias) => id in s.installs && s.installs[id].Running? && alias in s.installs[id].touched
    case Exit(id, ok) => id in s.installs && s.installs[id].Running? && (ok ==> Delivered(s, s.installs[id]))
    case Done(id) => id in s.installs && s.installs[id].Succeeded?
    case Crash => true
  }

  ghost function Next(s: State, step: Step): State
    requires Enabled(s, step)
  {
    match step
    case Add(reqs) => s.(manifest := AddAll(s.manifest, reqs))
    case Begin(id) => s.(installs := s.installs[id := Running(s.marker, s.manifest.Keys, {})], marker := true)
    case Write(id, alias, json) =>
      var p := s.installs[id];
      s.(disk := s.disk[alias := Half(json)], installs := s.installs[id := p.(touched := p.touched + {alias})])
    case Place(_, alias) => s.(disk := s.disk[alias := Complete])
    case Exit(id, ok) => s.(installs := if ok then s.installs[id := Succeeded] else s.installs - {id})
    case Done(id) => s.(installs := s.installs - {id}, marker := false)
    case Crash => s.(installs := map[])
  }

  /** One install at a time: none is begun, nor the manifest changed, while another is under way. */
  ghost predicate Serial(s: State, step: Step) {
    step.Add? || step.Begin? ==> s.installs == map[]
  }

  ghost predicate Possible(s: State, steps: seq<Step>)
    decreases |steps|
  {
    steps != [] ==> Enabled(s, steps[0]) && Possible(Next(s, steps[0]), steps[1..])
  }

  ghost predicate AllSerial(s: State, steps: seq<Step>)
    requires Possible(s, steps)
    decreases |steps|
  {
    steps != [] ==> Serial(s, steps[0]) && AllSerial(Next(s, steps[0]), steps[1..])
  }

  ghost function After(s: State, steps: seq<Step>): State
    requires Possible(s, steps)
    decreases |steps|
  {
    if steps == [] then s else After(Next(s, steps[0]), steps[1..])
  }

  // ---------------------------------------------------------------------------
  // What the store reports
  // ---------------------------------------------------------------------------

  predicate IsInstalled(disk: map<Alias, Package>, alias: Alias) {
    alias in disk && (disk[alias].Half? ==> disk[alias].json)
  }

  /** The request is passed over by `missing`. */
  predicate Trusted(s: State, alias: Alias) {
    !s.marker && alias in s.manifest && IsInstalled(s.disk, alias)
  }

  /** The requests to install, one for each alias: the last, at the place of the first. */
  function Missing(s: State, reqs: seq<Request>): JsMap<Alias, Request> {
    if reqs == [] then JsMap([], map[])
    else
      var last := reqs[|reqs| - 1];
      var out := Missing(s, reqs[..|reqs| - 1]);
      if Trusted(s, last.alias) then out else Put(out, last.alias, last)
  }

  /** `[...out.values()].filter(…)` */
  function Values(out: JsMap<Alias, Request>, order: seq<Alias>, hosted: Request -> bool): seq<Request>
    requires forall i | 0 <= i < |order| :: order[i] in out.at
  {
    if order == [] then []
    else (if hosted(out.at[order[0]]) then [] else [out.at[order[0]]]) + Values(out, order[1..], hosted)
  }

  lemma ValuesStep(out: JsMap<Alias, Request>, i: nat, hosted: Request -> bool, todo: seq<Request>)
    requires out.Valid() && i < |out.order|
    ensures todo + Values(out, out.order[i..], hosted)
         == (if hosted(out.at[out.order[i]]) then todo else todo + [out.at[out.order[i]]]) + Values(out, out.order[i + 1..], hosted)
  {
    assert out.order[i..][1..] == out.order[i + 1..];
  }

  lemma ValuesWhole(out: JsMap<Alias, Request>, hosted: Request -> bool)
    requires out.Valid()
    ensures Values(out, out.order[0..], hosted) == Values(out, out.order, hosted)
    ensures Values(out, out.order[|out.order|..], hosted) == []
  {
    assert out.order[0..] == out.order;
  }

  lemma {:induction false} MissingValid(s: State, reqs: seq<Request>)
    ensures Missing(s, reqs).Valid()
  {
    if reqs != [] {
      var init := reqs[..|reqs| - 1];
      MissingValid(s, init);
      PutValid(Missing(s, init), reqs[|reqs| - 1].alias, reqs[|reqs| - 1]);
    }
  }

  /** The last of the requests with an alias, if there is one. */
  function LastWith(reqs: seq<Request>, alias: Alias): (r: seq<Request>)
    ensures |r| <= 1
  {
    if reqs == [] then []
    else if reqs[|reqs| - 1].alias == alias then [reqs[|reqs| - 1]]
    else LastWith(reqs[..|reqs| - 1], alias)
  }

  /** What makes a store pass over a request: no marker stands, and its package is listed and has its package.json. */
  lemma TrustedIff(s: State, alias: Alias)
    ensures Trusted(s, alias) <==>
            !s.marker && alias in s.manifest && alias in s.disk && (s.disk[alias] == Complete || s.disk[alias] == Half(true))
  {
  }

  /** An alias is to be installed just when a request asks for it and it is not trusted. */
  lemma {:induction false} MissingExact(s: State, reqs: seq<Request>, alias: Alias)
    ensures alias in Missing(s, reqs).at <==> !Trusted(s, alias) && LastWith(reqs, alias) != []
    ensures alias in Missing(s, reqs).at ==> LastWith(reqs, alias) == [Missing(s, reqs).at[alias]]
  {
    if reqs != [] { MissingExact(s, reqs[..|reqs| - 1], alias); }
  }

  // ---------------------------------------------------------------------------
  // The manager
  // ---------------------------------------------------------------------------

  /** What an install process writes, in order. */
  datatype Act = Starts(alias: Alias, json: bool) | Completes(alias: Alias)

  function StepOf(act: Act): Step {
    match act
    case Starts(alias, json) => Write(0, alias, json)
    case Completes(alias) => Place(0, alias)
  }

  function StepsOf(acts: seq<Act>): (steps: seq<Step>)
    ensures |steps| == |acts|
  {
    if acts == [] then [] else [StepOf(acts[0])] + StepsOf(acts[1..])
  }

  /** The state when the install process starts. */
  ghost function Launched(s: State, reqs: seq<Request>): State
    requires s.installs == map[]
  {
    Next(Next(s, Add(reqs)), Begin(0))
  }

  /** The process keeps to its contract: what it writes, and when it may exit with code 0. */
  ghost predicate Behaves(s: State, acts: seq<Act>, ok: bool) {
    && Possible(s, StepsOf(acts))
    && 0 in After(s, StepsOf(acts)).installs && After(s, StepsOf(acts)).installs[0].Running?
    && (ok ==> Delivered(After(s, StepsOf(acts)), After(s, StepsOf(acts)).installs[0]))
  }

  /** The state after one whole install. */
  ghost function Installed(s: State, reqs: seq<Request>, acts: seq<Act>, ok: bool): State
    requires s.installs == map[] && Behaves(Launched(s, reqs), acts, ok)
  {
    var ended := Next(After(Launched(s, reqs), StepsOf(acts)), Exit(0, ok));
    if ok then Next(ended, Done(0)) else ended
  }

  class Manager {
    var manifest: map<Alias, string>
    var marker: bool
    var disk: map<Alias, Package>
    ghost var installs: map<nat, Phase>

    ghost function Now(): State
      reads this
    {
      State(manifest, marker, disk, installs)
    }

    constructor ()
      ensures Now() == EMPTY && manifest == map[] && !marker && disk == map[]
    {
      manifest, marker, disk, installs := map[], false, map[], map[];
    }

    method MissingOf(reqs: seq<Request>) returns (out: JsMap<Alias, Request>)
      ensures out == Missing(Now(), reqs)
    {
      var broken := marker;
      out := JsMap([], map[]);
      for i := 0 to |reqs|
        invariant out == Missing(Now(), reqs[..i])
      {
        assert reqs[..i + 1][..i] == reqs[..i];
        var r := reqs[i];
        if !broken && r.alias in manifest && IsInstalled(disk, r.alias) { continue; }
        out := Put(out, r.alias, r);
      }
      assert reqs[..|reqs|] == reqs;
    }

    method AddToManifest(reqs: seq<Request>)
      modifies this`manifest
      ensures Now() == Next(old(Now()), Add(reqs))
    {
      for i := 0 to |reqs|
        invariant manifest == AddAll(old(manifest), reqs[..i])
      {
        assert reqs[..i + 1][..i] == reqs[..i];
        manifest := manifest[reqs[i].alias := reqs[i].spec];
      }
      assert reqs[..|reqs|] == reqs;
    }

    method BeginInstall() returns (force: bool)
      requires 0 !in installs
      modifies this`marker, this`installs
      ensures Now() == Next(old(Now()), Begin(0)) && force == old(marker)
    {
      force := marker;
      marker := true;
      installs := installs[0 := Running(force, manifest.Keys, {})];
    }

    method InstallDone()
      requires 0 in installs && installs[0].Succeeded?
      modifies this`marker, this`installs
      ensures Now() == Next(old(Now()), Done(0))
    {
      marker := false;
      installs := installs - {0};
    }

    /** The child process at work on the disk. */
    method RunProcess(acts: seq<Act>)
      requires Possible(Now(), StepsOf(acts))
      modifies this`disk, this`installs
      ensures Now() == After(old(Now()), StepsOf(acts))
    {
      for i := 0 to |acts|
        invariant marker == old(marker) && manifest == old(manifest)
        invariant Possible(Now(), StepsOf(acts[i..]))
        invariant After(Now(), StepsOf(acts[i..])) == After(old(Now()), StepsOf(acts))
      {
        assert acts[i..][0] == acts[i] && acts[i..][1..] == acts[i + 1..];
        assert StepsOf(acts[i..]) == [StepOf(acts[i])] + StepsOf(acts[i + 1..]);
        assert StepsOf(acts[i..])[1..] == StepsOf(acts[i + 1..]);
        match acts[i]
        case Starts(alias, json) =>
          disk := disk[alias := Half(json)];
          installs := installs[0 := installs[0].(touched := installs[0].touched + {alias})];
        case Completes(alias) =>
          disk := disk[alias := Complete];
      }
    }

    /** `installAsync` and `installSync` take the same steps; false is the error they throw. */
    method Install(reqs: seq<Request>, acts: seq<Act>, ok: bool)
      requires installs == map[] && Behaves(Launched(Now(), reqs), acts, ok)
      modifies this
      ensures Now() == Installed(old(Now()), reqs, acts, ok)
    {
      AddToManifest(reqs);
      var force := BeginInstall();
      RunProcess(acts);
      installs := if ok then installs[0 := Succeeded] else installs - {0};
      if !ok {
        return;
      }
      InstallDone();
    }

    /** `missing(list).filter(…)` */
    method MissingNotHosted(reqs: seq<Request>, hosted: Request -> bool) returns (todo: seq<Request>)
      ensures todo == Todo(Now(), reqs, hosted)
    {
      hide Missing, Values;
      var out := MissingOf(reqs);
      MissingValid(Now(), reqs);
      todo := [];
      ValuesWhole(out, hosted);
      for i := 0 to |out.order|
        invariant todo + Values(out, out.order[i..], hosted) == Values(out, out.order, hosted)
      {
        ValuesStep(out, i, hosted, todo);
        var r := out.at[out.order[i]];
        if !hosted(r) { todo := todo + [r]; }
      }
    }

    /** `ensure`: installs what is missing and the host cannot provide. */
    method Ensure(reqs: seq<Request>, hosted: Request -> bool, acts: seq<Act>, ok: bool) returns (failed: bool)
      requires installs == map[]
      requires Todo(Now(), reqs, hosted) != [] ==> Behaves(Launched(Now(), Todo(Now(), reqs, hosted)), acts, ok)
      modifies this
      ensures var todo := Todo(old(Now()), reqs, hosted);
              && Now() == (if todo == [] then old(Now()) else Installed(old(Now()), todo, acts, ok))
              && failed == (todo != [] && !ok)
    {
      hide Todo, Behaves, Installed;
      var todo := MissingNotHosted(reqs, hosted);
      if |todo| > 0 {
        Install(todo, acts, ok);
      }
      failed := |todo| > 0 && !ok;
    }

    /** `resolveSync`, as far as the store goes: a request the host cannot provide is installed on demand. */
    method ResolveSync(req: Request, hosted: Request -> bool, acts: seq<Act>, ok: bool) returns (failed: bool)
      requires installs == map[]
      requires !hosted(req) && !Trusted(Now(), req.alias) ==> Behaves(Launched(Now(), [req]), acts, ok)
      modifies this
      ensures var install := !hosted(req) && !Trusted(old(Now()), req.alias);
              && Now() == (if install then Installed(old(Now()), [req], acts, ok) else old(Now()))
              && failed == (install && !ok)
    {
      failed := false;
      if hosted(req) {
        return;
      }
      var out := MissingOf([req]);
      MissingExact(Now(), [req], req.alias);
      MissingValid(Now(), [req]);
      if |out.order| > 0 {
        assert out.order[0] in out.at;
        MissingExact(Now(), [req], out.order[0]);
        Install([req], acts, ok);
        failed := !ok;
      }
    }
  }

  function Todo(s: State, reqs: seq<Request>, hosted: Request -> bool): seq<Request> {
    MissingValid(s, reqs);
    Values(Missing(s, reqs), Missing(s, reqs).order, hosted)
  }

  // ---------------------------------------------------------------------------
  // What every run of serial installs keeps, crashes included
  // ---------------------------------------------------------------------------

  ghost predicate Whole(s: State, alias: Alias) { alias in s.disk && s.disk[alias] == Complete }

  /**
    Without the marker no package is half-written. While an install runs the marker stands, and
    what is half-written is rewritten by it; when it has exited with code 0 all that is listed is whole.
   */
  ghost predicate Inv(s: State) {
    && (forall a | a in s.disk :: a in s.manifest && (!s.marker ==> Whole(s, a)))
    && (forall i | i in s.installs :: s.marker && (forall j | j in s.installs :: i == j) &&
          match s.installs[i]
          case Running(force, listed, touched) =>
            && (forall a :: a in listed <==> a in s.manifest) && (forall a | a in touched :: a in listed)
            && (force || forall a | a in s.disk :: Whole(s, a) || a in touched)
          case Succeeded => forall a | a in s.manifest :: Whole(s, a))
  }

  lemma {:induction false} AddAllKeys(manifest: map<Alias, string>, reqs: seq<Request>, alias: Alias)
    ensures alias in AddAll(manifest, reqs) <==> alias in manifest || LastWith(reqs, alias) != []
  {
    if reqs != [] { AddAllKeys(manifest, reqs[..|reqs| - 1], alias); }
  }

  /** An alias is listed with what its last request specifies; one that nobody asks for keeps its entry. */
  lemma {:induction false} AddAllSpecs(manifest: map<Alias, string>, reqs: seq<Request>, alias: Alias)
    ensures LastWith(reqs, alias) != [] ==>
              alias in AddAll(manifest, reqs) && AddAll(manifest, reqs)[alias] == LastWith(reqs, alias)[0].spec
    ensures LastWith(reqs, alias) == [] && alias in manifest ==>
              alias in AddAll(manifest, reqs) && AddAll(manifest, reqs)[alias] == manifest[alias]
  {
    AddAllKeys(manifest, reqs, alias);
    if reqs != [] { AddAllSpecs(manifest, reqs[..|reqs| - 1], alias); }
  }

  lemma StepKeepsInv(s: State, step: Step)
    requires Inv(s) && Enabled(s, step) && Serial(s, step)
    ensures Inv(Next(s, step))
  {
    match step
    case Add(reqs) => forall a | a in s.manifest ensures a in AddAll(s.manifest, reqs) { AddAllKeys(s.manifest, reqs, a); }
    case Begin(id) =>
    case Write(id, alias, json) =>
    case Place(id, alias) =>
    case Exit(id, ok) =>
    case Done(id) =>
    case Crash =>
  }

  lemma {:induction false} RunKeepsInv(s: State, steps: seq<Step>)
    requires Inv(s) && Possible(s, steps) && AllSerial(s, steps)
    ensures Inv(After(s, steps))
    decreases |steps|
  {
    hide Inv, Enabled, Next, Serial;
    if steps != [] {
      StepKeepsInv(s, steps[0]);
      RunKeepsInv(Next(s, steps[0]), steps[1..]);
    }
  }

  /**
    After any run of serial installs, killed wherever they may have been, the store passes over a
    request exactly when no install is pending or was broken off and its package is listed and whole.
   */
  lemma TrustedIsWhole(steps: seq<Step>, alias: Alias)
    requires Possible(EMPTY, steps) && AllSerial(EMPTY, steps)
    ensures var s := After(EMPTY, steps);
            Trusted(s, alias) <==> !s.marker && alias in s.manifest && Whole(s, alias)
  {
    RunKeepsInv(EMPTY, steps);
  }

  /** The next install to succeed, after any crash or failure, leaves everything listed whole and trusted. */
  lemma SuccessRepairs(steps: seq<Step>, id: nat)
    requires Possible(EMPTY, steps) && AllSerial(EMPTY, steps) && Enabled(After(EMPTY, steps), Done(id))
    ensures var t := Next(After(EMPTY, steps), Done(id));
            !t.marker && forall a | a in t.manifest :: Whole(t, a) && Trusted(t, a)
  {
    RunKeepsInv(EMPTY, steps);
  }

  // ---------------------------------------------------------------------------
  // A broken store can always be repaired
  // ---------------------------------------------------------------------------

  ghost predicate Served(s: State, p: Phase, a: Alias) {
    p.Running? && a in s.disk && (p.force || a in p.touched ==> s.disk[a] == Complete)
  }

  lemma Tail(s: State)
    ensures Possible(s, []) && AllSerial(s, []) && After(s, []) == s
  {
  }

  lemma {:induction false} Append(s: State, a: seq<Step>, b: seq<Step>)
    requires Possible(s, a) && AllSerial(s, a) && Possible(After(s, a), b) && AllSerial(After(s, a), b)
    ensures Possible(s, a + b) && AllSerial(s, a + b) && After(s, a + b) == After(After(s, a), b)
    decreases |a|
  {
    hide Next, Enabled, Serial;
    if a == [] {
      assert a + b == b;
    } else {
      Append(Next(s, a[0]), a[1..], b);
      assert (a + b)[1..] == a[1..] + b;
    }
  }

  lemma TwoSteps(s: State, a: Step, b: Step)
    requires Enabled(s, a) && Serial(s, a) && Enabled(Next(s, a), b) && Serial(Next(s, a), b)
    ensures Possible(s, [a, b]) && AllSerial(s, [a, b]) && After(s, [a, b]) == Next(Next(s, a), b)
  {
    hide Next, Enabled, Serial;
    var t, u := Next(s, a), Next(Next(s, a), b);
    assert [a, b][1..] == [b] && [b][1..] == [];
    Tail(u);
    assert Possible(t, [b]) && AllSerial(t, [b]) && After(t, [b]) == u;
  }

  lemma AllServed(s: State, id: nat)
    requires id in s.installs && s.installs[id].Running?
    requires forall a | a in s.installs[id].listed :: Served(s, s.installs[id], a)
    ensures Enabled(s, Exit(id, true)) && Enabled(Next(s, Exit(id, true)), Done(id))
    ensures forall a | a in s.installs[id].listed :: a in s.disk
  {
    forall a | a in s.installs[id].listed
      ensures a in s.disk && (s.installs[id].force || a in s.installs[id].touched ==> s.disk[a] == Complete)
    {
      assert Served(s, s.installs[id], a);
    }
  }

  /** A package not yet served can be written and completed, which disturbs nothing else. */
  lemma CanServe(s: State, id: nat, a: Alias) returns (u: State)
    requires id in s.installs && s.installs[id].Running? && a in s.installs[id].listed && !Served(s, s.installs[id], a)
    ensures var steps := [Write(id, a, true), Place(id, a)];
            Possible(s, steps) && AllSerial(s, steps) && After(s, steps) == u
    ensures u.manifest == s.manifest && u.installs - {id} == s.installs - {id}
    ensures id in u.installs && u.installs[id].Running? && u.installs[id].listed == s.installs[id].listed
    ensures Served(u, u.installs[id], a)
    ensures forall b | Served(s, s.installs[id], b) :: Served(u, u.installs[id], b)
  {
    u := Next(Next(s, Write(id, a, true)), Place(id, a));
    TwoSteps(s, Write(id, a, true), Place(id, a));
    hide Possible, AllSerial, After;
  }

  /** From any install under way there are further steps with which it succeeds. */
  lemma CanFinish(s: State, id: nat, open: set<Alias>) returns (steps: seq<Step>)
    requires id in s.installs && s.installs[id].Running?
    requires forall a | a in s.installs[id].listed :: a in open || Served(s, s.installs[id], a)
    requires forall a | a in open :: a in s.installs[id].listed
    ensures Possible(s, steps) && AllSerial(s, steps)
    ensures !After(s, steps).marker && After(s, steps).manifest == s.manifest
    ensures forall a | a in s.installs[id].listed :: a in After(s, steps).disk
    ensures After(s, steps).installs == s.installs - {id}
    decreases |open|
  {
    hide Possible, AllSerial, After, Served;
    var p := s.installs[id];
    if open == {} {
      AllServed(s, id);
      TwoSteps(s, Exit(id, true), Done(id));
      steps := [Exit(id, true), Done(id)];
    } else {
      var a := Member(open);
      if Served(s, p, a) {
        steps := CanFinish(s, id, open - {a});
      } else {
        var u := CanServe(s, id, a);
        var rest := CanFinish(u, id, open - {a});
        Append(s, [Write(id, a, true), Place(id, a)], rest);
        steps := [Write(id, a, true), Place(id, a)] + rest;
      }
    }
  }

  /** Whatever a crash left behind, one more install can make the store sound again. */
  lemma RepairPossible(s: State) returns (steps: seq<Step>)
    requires Inv(s) && s.installs == map[]
    ensures Possible(s, steps) && AllSerial(s, steps)
    ensures var t := After(s, steps);
            t.manifest == s.manifest && Inv(t) && forall a | a in s.manifest :: Trusted(t, a) && Whole(t, a)
  {
    var t := Next(s, Begin(0));
    var rest := CanFinish(t, 0, s.manifest.Keys);
    steps := [Begin(0)] + rest;
    RunKeepsInv(s, steps);
  }

  // ---------------------------------------------------------------------------
  // What `ensure` delivers
  // ---------------------------------------------------------------------------

  lemma {:induction false} ActsKeepInv(s: State, acts: seq<Act>)
    requires Inv(s) && Possible(s, StepsOf(acts))
    ensures Inv(After(s, StepsOf(acts))) && After(s, StepsOf(acts)).manifest == s.manifest
    decreases |acts|
  {
    hide Inv;
    if acts != [] {
      StepKeepsInv(s, StepOf(acts[0]));
      assert StepsOf(acts)[1..] == StepsOf(acts[1..]);
      ActsKeepInv(Next(s, StepOf(acts[0])), acts[1..]);
    }
  }

  lemma InstallDelivers(s: State, reqs: seq<Request>, acts: seq<Act>, ok: bool)
    requires Inv(s) && s.installs == map[] && Behaves(Launched(s, reqs), acts, ok)
    ensures var t := Installed(s, reqs, acts, ok);
            && Inv(t) && t.installs == map[] && (forall a :: a in t.manifest <==> a in s.manifest || LastWith(reqs, a) != [])
            && (forall a | a in t.manifest ::
                  t.manifest[a] == if LastWith(reqs, a) != [] then LastWith(reqs, a)[0].spec else s.manifest[a])
            && (ok ==> forall a :: Trusted(t, a) <==> a in t.manifest)
            && (ok ==> forall a | a in t.manifest :: Whole(t, a))
  {
    forall a ensures a in AddAll(s.manifest, reqs) <==> a in s.manifest || LastWith(reqs, a) != [] {
      AddAllKeys(s.manifest, reqs, a);
    }
    forall a | a in AddAll(s.manifest, reqs)
      ensures AddAll(s.manifest, reqs)[a] == if LastWith(reqs, a) != [] then LastWith(reqs, a)[0].spec else s.manifest[a]
    {
      AddAllSpecs(s.manifest, reqs, a);
    }
    var added := Next(s, Add(reqs));
    StepKeepsInv(s, Add(reqs));
    StepKeepsInv(added, Begin(0));
    var launched := Launched(s, reqs);
    ActsKeepInv(launched, acts);
    var acted := After(launched, StepsOf(acts));
    StepKeepsInv(acted, Exit(0, ok));
    if ok { StepKeepsInv(Next(acted, Exit(0, ok)), Done(0)); }
  }

  lemma {:induction false} LastWithSome(reqs: seq<Request>, alias: Alias)
    ensures LastWith(reqs, alias) != [] <==> exists r :: r in reqs && r.alias == alias
    ensures LastWith(reqs, alias) != [] ==> LastWith(reqs, alias)[0].alias == alias
  {
    if reqs != [] {
      var init := reqs[..|reqs| - 1];
      assert reqs == init + [reqs[|reqs| - 1]];
      LastWithSome(init, alias);
    }
  }

  lemma {:induction false} ValuesExact(out: JsMap<Alias, Request>, order: seq<Alias>, hosted: Request -> bool, r: Request)
    requires forall i | 0 <= i < |order| :: order[i] in out.at
    ensures r in Values(out, order, hosted) <==> !hosted(r) && exists k :: k in order && out.at[k] == r
  {
    if order != [] {
      ValuesExact(out, order[1..], hosted, r);
      assert order == [order[0]] + order[1..];
    }
  }

  /** An alias is installed when it is not trusted and the last request with it is not on the host. */
  lemma TodoExact(s: State, reqs: seq<Request>, hosted: Request -> bool, alias: Alias)
    ensures LastWith(Todo(s, reqs, hosted), alias) != []
       <==> !Trusted(s, alias) && LastWith(reqs, alias) != [] && !hosted(LastWith(reqs, alias)[0])
  {
    hide Trusted, Missing, Values, LastWith;
    var out := Missing(s, reqs);
    MissingValid(s, reqs);
    forall k | k in out.at ensures out.at[k].alias == k {
      MissingExact(s, reqs, k);
      LastWithSome(reqs, k);
    }
    MissingExact(s, reqs, alias);
    LastWithSome(Todo(s, reqs, hosted), alias);
    if alias in out.at { ValuesExact(out, out.order, hosted, out.at[alias]); }
    forall r | r in Todo(s, reqs, hosted) ensures r.alias in out.at && out.at[r.alias] == r && !hosted(r) {
      ValuesExact(out, out.order, hosted, r);
      var k :| k in out.order && out.at[k] == r;
    }
  }

  /**
    What a successful `ensure` leaves of a request: it is served from the store exactly when it was
    before, or the last request for its package is not on the host, or it was listed and some other
    package had to be installed.
   */
  lemma EnsureServes(s: State, reqs: seq<Request>, hosted: Request -> bool, acts: seq<Act>, r: Request)
    requires Inv(s) && s.installs == map[] && r in reqs
    requires Todo(s, reqs, hosted) != [] ==> Behaves(Launched(s, Todo(s, reqs, hosted)), acts, true)
    ensures var todo := Todo(s, reqs, hosted);
            var t := if todo == [] then s else Installed(s, todo, acts, true);
            && (Trusted(t, r.alias) <==>
                  || Trusted(s, r.alias)
                  || !hosted(LastOf(reqs, r))
                  || (todo != [] && r.alias in s.manifest))
            && (Trusted(t, r.alias) ==> Whole(t, r.alias))
  {
    hide Behaves, Installed, Todo, LastWith, Launched;
    var todo := Todo(s, reqs, hosted);
    TodoExact(s, reqs, hosted, r.alias);
    LastWithSome(reqs, r.alias);
    LastWithSome(todo, r.alias);
    if todo != [] { InstallDelivers(s, todo, acts, true); }
  }

  /** The last of the requests for the package of one of them. */
  function LastOf(reqs: seq<Request>, r: Request): Request
    requires r in reqs
  {
    LastWithSome(reqs, r.alias);
    LastWith(reqs, r.alias)[0]
  }

  // ---------------------------------------------------------------------------
  // Overlapping installs
  // ---------------------------------------------------------------------------

  /** An install under way, of either phase, can succeed and take the marker with it, leaving the others be. */
  lemma CanSucceed(s: State, id: nat) returns (steps: seq<Step>)
    requires id in s.installs
    ensures Possible(s, steps) && AllSerial(s, steps)
    ensures var t := After(s, steps); !t.marker && t.manifest == s.manifest && t.installs == s.installs - {id}
  {
    if s.installs[id].Running? {
      steps := CanFinish(s, id, s.installs[id].listed);
    } else {
      steps := [Done(id)];
      Tail(Next(s, Done(id)));
    }
  }

  /**
    From every state that serial installs lead to, with an install under way and anything listed: an
    install begun now is still writing when the other takes the marker with it, and a crash then
    leaves a half-written package, any that is listed, trusted.
   */
  lemma OverlapTrustsHalfWritten(s: State, i: nat, j: nat, alias: Alias) returns (steps: seq<Step>)
    requires Inv(s) && i in s.installs && j !in s.installs && alias in s.manifest
    ensures var begun := Next(s, Begin(j));
            && Possible(begun, steps) && AllSerial(begun, steps)
            && var t := After(begun, steps);
               Trusted(t, alias) && t.disk[alias] == Half(true)
  {
    var begun := Next(s, Begin(j));
    var finish := CanSucceed(begun, i);
    var t := After(begun, finish);
    assert t.installs[j] == Running(true, s.manifest.Keys, {});
    TwoSteps(t, Write(j, alias, true), Crash);
    Append(begun, finish, [Write(j, alias, true), Crash]);
    steps := finish + [Write(j, alias, true), Crash];
  }

  /** Whatever serial steps follow, nothing half-written is ever trusted. */
  ghost predicate Safe(s: State) {
    forall steps: seq<Step>, a: Alias | Possible(s, steps) && AllSerial(s, steps) && Trusted(After(s, steps), a) ::
      Whole(After(s, steps), a)
  }

  /** Where anything is listed, it is safe to begin an install if and only if none is under way. */
  lemma BeginSafeIff(s: State, j: nat)
    requires Inv(s) && j !in s.installs && s.manifest != map[]
    ensures Safe(Next(s, Begin(j))) <==> s.installs == map[]
  {
    var begun := Next(s, Begin(j));
    if s.installs == map[] {
      StepKeepsInv(s, Begin(j));
      forall steps: seq<Step>, a: Alias | Possible(begun, steps) && AllSerial(begun, steps) && Trusted(After(begun, steps), a)
        ensures Whole(After(begun, steps), a)
      {
        RunKeepsInv(begun, steps);
      }
    } else {
      var i := SomeKey(s.installs);
      var alias := SomeKey(s.manifest);
      var steps := OverlapTrustsHalfWritten(s, i, j, alias);
      assert Trusted(After(begun, steps), alias) && !Whole(After(begun, steps), alias);
    }
  }

  lemma SomeKey<K, V>(m: map<K, V>) returns (k: K)
    requires m != map[]
    ensures k in m
  {
    k :| k in m;
  }
}
