/**
  The layered `globalThis` of an edge function: a Proxy whose traps keep a function's own properties
  and deletions over the host's, with a shadow target for exactly the non-configurable properties.
 */
module Globals {
  import opened Basics
  import opened JsMaps

  datatype Key = Name(s: string) | Symbol(id: nat)

  /** A value; `ThisProxy` is the proxy under construction, `Foreign` anything else. */
  datatype Val = Undefined | ThisProxy | Foreign(id: int)

  type Fn = nat

  datatype Prop =
    | Data(value: Val, writable: bool, enumerable: bool, configurable: bool)
    | Accessor(get: Option<Fn>, set_: Option<Fn>, enumerable: bool, configurable: bool)

  /** A property descriptor record, any of whose fields may be absent. */
  datatype Desc = Desc(
    value: Option<Val>,
    writable: Option<bool>,
    get: Option<Option<Fn>>,
    set_: Option<Option<Fn>>,
    enumerable: Option<bool>,
    configurable: Option<bool>)
  {
    predicate IsData() { value.Some? || writable.Some? }

    predicate IsAccessor() { get.Some? || set_.Some? }

    /** `ToPropertyDescriptor` rejects a record that is both. */
    predicate Possible() { !(IsData() && IsAccessor()) }
  }

  type Props = JsMap<Key, Prop>

  /** The host global object at one moment, and what calling a getter yields. */
  datatype Host = Host(props: Props, protoHas: Key -> bool, protoGet: Key -> Val, invoke: Fn -> Val)

  function Or<T>(o: Option<T>, default: T): T {
    match o case Some(v) => v case None => default
  }

  // ---------------------------------------------------------------------------
  // Ordinary objects (ECMA-262, sections 10.1.5 to 10.1.9)
  // ---------------------------------------------------------------------------

  /** ValidateAndApplyPropertyDescriptor, the validation part, on an existing property. */
  predicate Compatible(d: Desc, current: Prop) {
    current.configurable ||
    (&& d.configurable != Some(true)
     && (d.enumerable.Some? ==> d.enumerable.value == current.enumerable)
     && (d.IsData() || d.IsAccessor() ==> d.IsAccessor() == current.Accessor?)
     && (match current
         case Accessor(get, set_, _, _) =>
           && (d.get.Some? ==> d.get.value == get)
           && (d.set_.Some? ==> d.set_.value == set_)
         case Data(value, writable, _, _) =>
           !writable ==>
             && d.writable != Some(true)
             && (d.value.Some? ==> d.value.value == value)))
  }

  /** ValidateAndApplyPropertyDescriptor, creating a property. */
  function Create(d: Desc): Prop {
    if d.IsAccessor() then
      Accessor(Or(d.get, None), Or(d.set_, None), Or(d.enumerable, false), Or(d.configurable, false))
    else
      Data(Or(d.value, Undefined), Or(d.writable, false), Or(d.enumerable, false), Or(d.configurable, false))
  }

  /** ValidateAndApplyPropertyDescriptor, updating a property. */
  function Apply(d: Desc, current: Prop): Prop {
    var enumerable := Or(d.enumerable, current.enumerable);
    var configurable := Or(d.configurable, current.configurable);
    match current
    case Data(value, writable, _, _) =>
      if d.IsAccessor() then Accessor(Or(d.get, None), Or(d.set_, None), enumerable, configurable)
      else Data(Or(d.value, value), Or(d.writable, writable), enumerable, configurable)
    case Accessor(get, set_, _, _) =>
      if d.IsData() then Data(Or(d.value, Undefined), Or(d.writable, false), enumerable, configurable)
      else Accessor(Or(d.get, get), Or(d.set_, set_), enumerable, configurable)
  }

  datatype Defined = Defined(ok: bool, props: Props)

  /** `Reflect.defineProperty` on an extensible ordinary object. */
  function DefineOwn(props: Props, k: Key, d: Desc): Defined {
    if k !in props.at then Defined(true, Put(props, k, Create(d)))
    else if !Compatible(d, props.at[k]) then Defined(false, props)
    else Defined(true, Put(props, k, Apply(d, props.at[k])))
  }

  /** `Reflect.set` of an own property, receiver the object itself. */
  function SetOwn(props: Props, k: Key, v: Val): Defined
    requires k in props.at
  {
    match props.at[k]
    case Data(_, writable, enumerable, configurable) =>
      if writable then Defined(true, Put(props, k, Data(v, true, enumerable, configurable))) else Defined(false, props)
    case Accessor(_, set_, _, _) => Defined(set_.Some?, props)
  }

  function Read(p: Prop, invoke: Fn -> Val): Val {
    match p
    case Data(value, _, _, _) => value
    case Accessor(get, _, _, _) => if get.Some? then invoke(get.value) else Undefined
  }

  /** `Object.getOwnPropertyDescriptor` as a full descriptor record. */
  function Full(p: Prop): Desc {
    match p
    case Data(value, writable, enumerable, configurable) =>
      Desc(Some(value), Some(writable), None, None, Some(enumerable), Some(configurable))
    case Accessor(get, set_, enumerable, configurable) =>
      Desc(None, None, Some(get), Some(set_), Some(enumerable), Some(configurable))
  }

  // ---------------------------------------------------------------------------
  // The layer and its traps
  // ---------------------------------------------------------------------------

  datatype Layer = Layer(own: JsMap<Key, Val>, deleted: set<Key>, shadow: Props)

  datatype Call =
    | Get(k: Key)
    | Set(k: Key, v: Val)
    | Define(k: Key, d: Desc)
    | Delete(k: Key)
    | Has(k: Key)
    | Describe(k: Key)
    | OwnKeys

  datatype Reply = Value(v: Val) | Truth(b: bool) | Described(p: Option<Prop>) | Keys(ks: seq<Key>)

  predicate IsSelf(k: Key) { k == Name("globalThis") || k == Name("self") }

  predicate Pinned(l: Layer, k: Key) { k in l.shadow.at }

  function GetTrap(l: Layer, h: Host, k: Key): Val {
    if Pinned(l, k) then Read(l.shadow.at[k], h.invoke)
    else if IsSelf(k) then ThisProxy
    else if k in l.own.at then l.own.at[k]
    else if k in l.deleted then Undefined
    else if k in h.props.at then Read(h.props.at[k], h.invoke)
    else h.protoGet(k)
  }

  function HasTrap(l: Layer, h: Host, k: Key): bool {
    Pinned(l, k) || k in l.own.at || (k !in l.deleted && (k in h.props.at || h.protoHas(k)))
  }

  /** The descriptor reported for `k`. */
  function DescribeTrap(l: Layer, h: Host, k: Key): Option<Prop> {
    if Pinned(l, k) then Some(l.shadow.at[k])
    else if k in l.own.at then Some(Data(l.own.at[k], true, true, true))
    else if k in l.deleted then None
    else if k in h.props.at then Some(h.props.at[k])
    else None
  }

  /** Describing `k` mirrors it into the shadow. */
  predicate Mirrored(l: Layer, h: Host, k: Key) {
    !Pinned(l, k) && k !in l.own.at && k !in l.deleted && k in h.props.at && !h.props.at[k].configurable
  }

  /** Reporting a non-configurable host property first mirrors it into the shadow. */
  function Mirror(l: Layer, h: Host, k: Key): Layer {
    if Mirrored(l, h, k) then
      l.(shadow := DefineOwn(l.shadow, k, Full(h.props.at[k])).props)
    else l
  }

  function Extend(ks: seq<Key>, more: seq<Key>): seq<Key>
    decreases |more|
  {
    if more == [] then ks
    else Extend(if more[0] in ks then ks else ks + [more[0]], more[1..])
  }

  function Drop(ks: seq<Key>, gone: set<Key>): seq<Key> {
    if ks == [] then []
    else (if ks[0] in gone then [] else [ks[0]]) + Drop(ks[1..], gone)
  }

  function KeysTrap(l: Layer, h: Host): seq<Key> {
    Extend(Extend(Drop(h.props.order, l.deleted), l.own.order), l.shadow.order)
  }

  function DefinedValue(h: Host, d: Desc): Val {
    if d.value.Some? then d.value.value
    else if d.get.Some? && d.get.value.Some? then h.invoke(d.get.value.value)
    else Undefined
  }

  function Step(l: Layer, h: Host, c: Call): (Layer, Reply) {
    match c
    case Get(k) => (l, Value(GetTrap(l, h, k)))
    case Has(k) => (l, Truth(HasTrap(l, h, k)))
    case Describe(k) => (Mirror(l, h, k), Described(DescribeTrap(l, h, k)))
    case OwnKeys => (l, Keys(KeysTrap(l, h)))
    case Set(k, v) =>
      if Pinned(l, k) then
        var r := SetOwn(l.shadow, k, v);
        (l.(shadow := r.props), Truth(r.ok))
      else
        (l.(own := Put(l.own, k, v), deleted := l.deleted - {k}), Truth(true))
    case Define(k, d) =>
      if d.configurable == Some(false) || Pinned(l, k) then
        var r := DefineOwn(l.shadow, k, d);
        if !r.ok then (l, Truth(false))
        else (Layer(JsMaps.Delete(l.own, k), l.deleted - {k}, r.props), Truth(true))
      else
        (l.(own := Put(l.own, k, DefinedValue(h, d)), deleted := l.deleted - {k}), Truth(true))
    case Delete(k) =>
      if Pinned(l, k) then (l, Truth(false))
      else (l.(own := JsMaps.Delete(l.own, k), deleted := l.deleted + {k}), Truth(true))
  }

  /** The real global object. No trap has it in its modifies clause. */
  class HostObject {
    var state: Host

    constructor (state: Host)
      ensures this.state == state
    {
      this.state := state;
    }
  }

  /** `createGlobalProxy`: the closure state, and one method per trap. */
  class GlobalProxy {
    const host: HostObject
    var own: JsMap<Key, Val>
    var deleted: set<Key>
    var shadow: Props

    ghost function Now(): Layer
      reads this
    {
      Layer(own, deleted, shadow)
    }

    constructor (host: HostObject, overrides: JsMap<Key, Val>)
      requires overrides.Valid()
      ensures this.host == host && Now() == Layer(overrides, {}, JsMap([], map[]))
      ensures Sound(Now())
    {
      this.host, own, deleted, shadow := host, overrides, {}, JsMap([], map[]);
    }

    method GetProperty(key: Key) returns (v: Val)
      ensures Step(Now(), host.state, Get(key)) == (Now(), Value(v))
    {
      if key in shadow.at { return Read(shadow.at[key], host.state.invoke); }
      if IsSelf(key) { return ThisProxy; }
      if key in own.at { return own.at[key]; }
      if key in deleted { return Undefined; }
      v := if key in host.state.props.at then Read(host.state.props.at[key], host.state.invoke) else host.state.protoGet(key);
    }

    method SetProperty(key: Key, value: Val) returns (ok: bool)
      modifies this
      ensures (Now(), Truth(ok)) == Step(old(Now()), host.state, Set(key, value))
    {
      if key in shadow.at {
        var r := SetOwn(shadow, key, value);
        shadow := r.props;
        return r.ok;
      }
      own := Put(own, key, value);
      deleted := deleted - {key};
      ok := true;
    }

    method DefineProperty(key: Key, desc: Desc) returns (ok: bool)
      modifies this
      ensures (Now(), Truth(ok)) == Step(old(Now()), host.state, Define(key, desc))
    {
      if desc.configurable == Some(false) || key in shadow.at {
        var r := DefineOwn(shadow, key, desc);
        if !r.ok { return false; }
        shadow := r.props;
        own := JsMaps.Delete(own, key);
      } else {
        own := Put(own, key, DefinedValue(host.state, desc));
      }
      deleted := deleted - {key};
      ok := true;
    }

    method DeleteProperty(key: Key) returns (ok: bool)
      modifies this
      ensures (Now(), Truth(ok)) == Step(old(Now()), host.state, Call.Delete(key))
    {
      if key in shadow.at { return false; }
      own := JsMaps.Delete(own, key);
      deleted := deleted + {key};
      ok := true;
    }

    method HasProperty(key: Key) returns (b: bool)
      ensures Step(Now(), host.state, Has(key)) == (Now(), Truth(b))
    {
      if key in shadow.at || key in own.at { return true; }
      if key in deleted { return false; }
      b := key in host.state.props.at || host.state.protoHas(key);
    }

    method GetOwnPropertyDescriptor(key: Key) returns (p: Option<Prop>)
      modifies this
      ensures (Now(), Described(p)) == Step(old(Now()), host.state, Describe(key))
    {
      if key in shadow.at { return Some(shadow.at[key]); }
      if key in own.at { return Some(Data(own.at[key], true, true, true)); }
      if key in deleted { return None; }
      if key !in host.state.props.at { return None; }
      var d := host.state.props.at[key];
      if !d.configurable {
        var r := DefineOwn(shadow, key, Full(d));
        shadow := r.props;
      }
      p := Some(d);
    }

    method GetOwnKeys() returns (ks: seq<Key>)
      ensures Step(Now(), host.state, OwnKeys) == (Now(), Keys(ks))
    {
      ks := Drop(host.state.props.order, deleted);
      var i := 0;
      ghost var kept := ks;
      assert own.order[0..] == own.order && shadow.order[0..] == shadow.order;
      while i < |own.order|
        invariant 0 <= i <= |own.order|
        invariant Extend(kept, own.order) == Extend(ks, own.order[i..])
      {
        assert own.order[i..][1..] == own.order[i + 1..];
        if own.order[i] !in ks { ks := ks + [own.order[i]]; }
        i := i + 1;
      }
      ghost var withOwn := ks;
      i := 0;
      while i < |shadow.order|
        invariant 0 <= i <= |shadow.order|
        invariant Extend(withOwn, shadow.order) == Extend(ks, shadow.order[i..])
      {
        assert shadow.order[i..][1..] == shadow.order[i + 1..];
        if shadow.order[i] !in ks { ks := ks + [shadow.order[i]]; }
        i := i + 1;
      }
    }
  }

  // ---------------------------------------------------------------------------
  // The layer's invariant
  // ---------------------------------------------------------------------------

  /** Own, deleted and pinned keys are pairwise disjoint, and every shadow property is non-configurable. */
  ghost predicate Sound(l: Layer) {
    && l.own.Valid() && l.shadow.Valid()
    && (forall k | k in l.own.at :: k !in l.deleted)
    && (forall k | k in l.shadow.at :: k !in l.own.at && k !in l.deleted && !l.shadow.at[k].configurable)
  }

  // ---------------------------------------------------------------------------
  // The checks of the Proxy internal methods: what each makes sure of after its trap has run, against
  // an extensible target (ECMA-262, sections 10.5.5 to 10.5.11)
  // ---------------------------------------------------------------------------

  /** 10.5.5 [[GetOwnProperty]] */
  ghost predicate DescribeAllowed(target: Props, k: Key, reply: Option<Prop>) {
    match reply
    case None => k in target.at ==> target.at[k].configurable
    case Some(p) =>
      && (k in target.at ==> Compatible(Full(p), target.at[k]))
      && (!p.configurable ==>
            && k in target.at && !target.at[k].configurable
            && (p.Data? && !p.writable && target.at[k].Data? ==> !target.at[k].writable))
  }

  /** 10.5.6 [[DefineOwnProperty]] */
  ghost predicate DefineAllowed(target: Props, k: Key, d: Desc, ok: bool) {
    ok ==>
      && (k !in target.at ==> d.configurable != Some(false))
      && (k in target.at ==>
            && Compatible(d, target.at[k])
            && !(d.configurable == Some(false) && target.at[k].configurable)
            && (target.at[k].Data? && !target.at[k].configurable && target.at[k].writable ==> d.writable != Some(false)))
  }

  /** 10.5.7 [[HasProperty]] */
  ghost predicate HasAllowed(target: Props, k: Key, b: bool) {
    !b && k in target.at ==> target.at[k].configurable
  }

  /** 10.5.8 [[Get]] */
  ghost predicate GetAllowed(target: Props, k: Key, v: Val) {
    k in target.at && !target.at[k].configurable ==>
      match target.at[k]
      case Data(value, writable, _, _) => !writable ==> v == value
      case Accessor(get, _, _, _) => get.None? ==> v == Undefined
  }

  /** 10.5.9 [[Set]] */
  ghost predicate SetAllowed(target: Props, k: Key, v: Val, ok: bool) {
    ok && k in target.at && !target.at[k].configurable ==>
      match target.at[k]
      case Data(value, writable, _, _) => !writable ==> v == value
      case Accessor(_, set_, _, _) => set_.Some?
  }

  /** 10.5.10 [[Delete]] */
  ghost predicate DeleteAllowed(target: Props, k: Key, ok: bool) {
    ok && k in target.at ==> target.at[k].configurable
  }

  /** 10.5.11 [[OwnPropertyKeys]] */
  ghost predicate OwnKeysAllowed(target: Props, ks: seq<Key>) {
    && (forall i, j | 0 <= i < j < |ks| :: ks[i] != ks[j])
    && (forall k | k in target.at && !target.at[k].configurable :: k in ks)
  }

  /** The internal method does not throw, given its target after the trap has run. */
  ghost predicate NoTypeError(target: Props, c: Call, r: Reply) {
    match (c, r)
    case (Get(k), Value(v)) => GetAllowed(target, k, v)
    case (Set(k, v), Truth(b)) => SetAllowed(target, k, v, b)
    case (Define(k, d), Truth(b)) => DefineAllowed(target, k, d, b)
    case (Delete(k), Truth(b)) => DeleteAllowed(target, k, b)
    case (Has(k), Truth(b)) => HasAllowed(target, k, b)
    case (Describe(k), Described(p)) => DescribeAllowed(target, k, p)
    case (OwnKeys, Keys(ks)) => OwnKeysAllowed(target, ks)
    case _ => false
  }

  ghost predicate PossibleCall(c: Call) {
    c.Define? ==> c.d.Possible()
  }

  // ---------------------------------------------------------------------------
  // Proofs
  // ---------------------------------------------------------------------------

  /** Absent fields of a new or converted property are undefined or false; of an updated one they are kept. */
  lemma AbsentFields(p: Prop)
    ensures Create(Desc(None, None, None, None, None, None)) == Data(Undefined, false, false, false)
    ensures Create(Desc(None, None, Some(None), None, None, None)) == Accessor(None, None, false, false)
    ensures Apply(Desc(None, None, None, None, None, None), p) == p
    ensures p.Accessor? ==>
              Apply(Desc(None, Some(true), None, None, None, None), p) == Data(Undefined, true, p.enumerable, p.configurable)
    ensures p.Accessor? ==> forall v: Val ::
              Apply(Desc(Some(v), None, None, None, None, None), p) == Data(v, false, p.enumerable, p.configurable)
    ensures p.Data? ==> forall get: Option<Fn> ::
              Apply(Desc(None, None, Some(get), None, None, None), p) == Accessor(get, None, p.enumerable, p.configurable)
  {
  }

  lemma CreatedIsWhole(p: Prop)
    ensures Create(Full(p)) == p
  {
  }

  lemma DefineKeepsShadow(props: Props, k: Key, d: Desc)
    requires props.Valid() && d.Possible()
    requires forall x | x in props.at :: !props.at[x].configurable
    requires k in props.at || d.configurable == Some(false)
    ensures var r := DefineOwn(props, k, d);
            && r.props.Valid()
            && (forall x | x in r.props.at :: !r.props.at[x].configurable)
            && DefineAllowed(r.props, k, d, r.ok)
            && (r.ok ==> r.props.at.Keys == props.at.Keys + {k})
            && (!r.ok ==> r.props == props)
  {
    if k in props.at {
      if Compatible(d, props.at[k]) {
        PutValid(props, k, Apply(d, props.at[k]));
      }
    } else {
      PutValid(props, k, Create(d));
    }
  }

  lemma {:induction false} ExtendKeys(ks: seq<Key>, more: seq<Key>)
    requires forall i, j | 0 <= i < j < |ks| :: ks[i] != ks[j]
    ensures var r := Extend(ks, more);
            && (forall i, j | 0 <= i < j < |r| :: r[i] != r[j])
            && (forall k :: k in r <==> k in ks || k in more)
    decreases |more|
  {
    if more != [] {
      ExtendKeys(if more[0] in ks then ks else ks + [more[0]], more[1..]);
      assert forall k :: k in more <==> k == more[0] || k in more[1..];
    }
  }

  lemma {:induction false} DropKeys(ks: seq<Key>, gone: set<Key>)
    requires forall i, j | 0 <= i < j < |ks| :: ks[i] != ks[j]
    ensures var r := Drop(ks, gone);
            && (forall i, j | 0 <= i < j < |r| :: r[i] != r[j])
            && (forall k :: k in r <==> k in ks && k !in gone)
  {
    if ks != [] {
      DropKeys(ks[1..], gone);
      assert forall k :: k in ks <==> k == ks[0] || k in ks[1..];
      assert ks[0] !in ks[1..];
    }
  }

  lemma ListedKeys(l: Layer, h: Host)
    requires Sound(l) && h.props.Valid()
    ensures var ks := KeysTrap(l, h);
            && (forall i, j | 0 <= i < j < |ks| :: ks[i] != ks[j])
            && (forall k :: k in ks <==> (k in h.props.at && k !in l.deleted) || k in l.own.at || Pinned(l, k))
  {
    var a := Drop(h.props.order, l.deleted);
    DropKeys(h.props.order, l.deleted);
    ExtendKeys(a, l.own.order);
    ExtendKeys(Extend(a, l.own.order), l.shadow.order);
  }

  lemma MirrorSound(l: Layer, h: Host, k: Key)
    requires Sound(l)
    ensures Sound(Mirror(l, h, k)) && DescribeAllowed(Mirror(l, h, k).shadow, k, DescribeTrap(l, h, k))
    ensures Mirror(l, h, k) != l ==>
              && Mirror(l, h, k).shadow.at == l.shadow.at[k := h.props.at[k]]
              && !Pinned(l, k) && k !in l.own.at && k !in l.deleted && k in h.props.at && !h.props.at[k].configurable
  {
    if !Pinned(l, k) && k !in l.own.at && k !in l.deleted && k in h.props.at && !h.props.at[k].configurable {
      CreatedIsWhole(h.props.at[k]);
      DefineKeepsShadow(l.shadow, k, Full(h.props.at[k]));
    }
  }

  /** Every trap keeps the layer sound and never makes its internal method throw. */
  lemma StepSound(l: Layer, h: Host, c: Call)
    requires Sound(l) && h.props.Valid() && PossibleCall(c)
    ensures Sound(Step(l, h, c).0)
    ensures NoTypeError(Step(l, h, c).0.shadow, c, Step(l, h, c).1)
  {
    match c
    case Get(k) =>
    case Has(k) =>
    case Describe(k) => MirrorSound(l, h, k);
    case OwnKeys => ListedKeys(l, h);
    case Set(k, v) => SetSound(l, k, v);
    case Define(k, d) => DefineSound(l, h, k, d);
    case Delete(k) => DeleteValid(l.own, k);
  }

  lemma SetSound(l: Layer, k: Key, v: Val)
    requires Sound(l)
    ensures !Pinned(l, k) ==> Sound(l.(own := Put(l.own, k, v), deleted := l.deleted - {k}))
    ensures Pinned(l, k) ==> var r := SetOwn(l.shadow, k, v);
                             Sound(l.(shadow := r.props)) && SetAllowed(r.props, k, v, r.ok)
  {
    PutValid(l.own, k, v);
    if Pinned(l, k) && l.shadow.at[k].Data? {
      PutValid(l.shadow, k, Data(v, true, l.shadow.at[k].enumerable, l.shadow.at[k].configurable));
    }
  }

  lemma DefineSound(l: Layer, h: Host, k: Key, d: Desc)
    requires Sound(l) && d.Possible()
    ensures Sound(Step(l, h, Define(k, d)).0)
    ensures NoTypeError(Step(l, h, Define(k, d)).0.shadow, Define(k, d), Step(l, h, Define(k, d)).1)
  {
    hide Create, Apply, Compatible;
    if d.configurable == Some(false) || Pinned(l, k) {
      hide DefineOwn;
      DefineKeepsShadow(l.shadow, k, d);
      DeleteValid(l.own, k);
    } else {
      PutValid(l.own, k, DefinedValue(h, d));
    }
  }

  /** A run: each call meets the host in whatever state it is then in. */
  datatype Event = Event(host: Host, call: Call)

  function RunFrom(l: Layer, es: seq<Event>): Layer
    decreases |es|
  {
    if es == [] then l else RunFrom(Step(l, es[0].host, es[0].call).0, es[1..])
  }

  ghost predicate Plausible(es: seq<Event>) {
    forall i | 0 <= i < |es| :: es[i].host.props.Valid() && PossibleCall(es[i].call)
  }

  /** Over every sequence of trap calls the layer stays sound and no internal method throws. */
  lemma {:induction false} RunKeepsInvariants(l: Layer, es: seq<Event>, i: nat)
    requires Sound(l) && Plausible(es) && i < |es|
    ensures var before := RunFrom(l, es[..i]);
            && Sound(before)
            && NoTypeError(Step(before, es[i].host, es[i].call).0.shadow, es[i].call, Step(before, es[i].host, es[i].call).1)
    decreases i
  {
    hide Step, NoTypeError, Sound, PossibleCall;
    StepSound(l, es[0].host, es[0].call);
    if i > 0 {
      RunKeepsInvariants(Step(l, es[0].host, es[0].call).0, es[1..], i - 1);
      assert es[..i][1..] == es[1..][..i - 1];
    }
  }

  /** A key is described exactly when `ownKeys` lists it. */
  lemma DescribedIffListed(l: Layer, h: Host, k: Key)
    requires Sound(l) && h.props.Valid()
    ensures DescribeTrap(l, h, k).Some? <==> k in KeysTrap(l, h)
  {
    ListedKeys(l, h);
  }

  // ---------------------------------------------------------------------------
  // What a call changes
  // ---------------------------------------------------------------------------

  predicate Observer(c: Call) { c.Get? || c.Has? || c.Describe? || c.OwnKeys? }

  ghost predicate SameAt(l: Layer, l': Layer, h: Host, k: Key) {
    && GetTrap(l', h, k) == GetTrap(l, h, k)
    && HasTrap(l', h, k) == HasTrap(l, h, k)
    && DescribeTrap(l', h, k) == DescribeTrap(l, h, k)
  }

  /** Calls touch only their own key: every other key looks the same to every observer, whatever the host is then. */
  lemma OtherKeysUntouched(l: Layer, h: Host, c: Call, later: Host, k: Key)
    requires Sound(l) && !c.OwnKeys? && c.k != k
    ensures SameAt(l, Step(l, h, c).0, later, k)
  {
    hide Compatible, Create, Apply, Read;
    var l' := Step(l, h, c).0;
    assert k in l'.own.at <==> k in l.own.at;
    assert k in l.own.at ==> l'.own.at[k] == l.own.at[k];
    assert k in l'.shadow.at <==> k in l.shadow.at;
    assert k in l.shadow.at ==> l'.shadow.at[k] == l.shadow.at[k];
    assert k in l'.deleted <==> k in l.deleted;
  }

  /**
    Observers change nothing that can be observed, mirroring included, but for one call: describing
    `globalThis` or `self` where the host's own property of that name is non-configurable and yields
    something else makes the name read as that from then on, and no longer as the proxy.
   */
  lemma ObserversUnseenIff(l: Layer, h: Host, c: Call, k: Key)
    requires Sound(l) && Observer(c)
    ensures SameAt(l, Step(l, h, c).0, h, k)
       <==> !(c == Describe(k) && IsSelf(k) && Mirrored(l, h, k) && Read(h.props.at[k], h.invoke) != ThisProxy)
  {
    if c.Describe? {
      MirrorSound(l, h, c.k);
      hide Sound, Read;
      if c.k != k { OtherKeysUntouched(l, h, c, h, k); } else { MirrorReads(l, h, k); }
    }
  }

  lemma MirrorReads(l: Layer, h: Host, k: Key)
    ensures Mirrored(l, h, k) ==> Mirror(l, h, k).shadow.at == l.shadow.at[k := h.props.at[k]] && Mirror(l, h, k).own == l.own
    ensures !Mirrored(l, h, k) ==> Mirror(l, h, k) == l
  {
    if Mirrored(l, h, k) { CreatedIsWhole(h.props.at[k]); }
  }

  /** An accepted write is read back, and an accepted delete hides the key from every observer. */
  lemma ReadYourWrites(l: Layer, h: Host, k: Key, v: Val)
    requires Sound(l)
    ensures var (l', r) := Step(l, h, Set(k, v));
            r == Truth(true) && (Pinned(l, k) ==> l.shadow.at[k].Data?) ==>
              && HasTrap(l', h, k)
              && GetTrap(l', h, k) == (if IsSelf(k) && !Pinned(l, k) then ThisProxy else v)
              && DescribeTrap(l', h, k) == Some(if Pinned(l, k) then l.shadow.at[k].(value := v) else Data(v, true, true, true))
    ensures var (l', r) := Step(l, h, Call.Delete(k));
            r == Truth(true) ==>
              && !HasTrap(l', h, k) && DescribeTrap(l', h, k).None?
              && GetTrap(l', h, k) == (if IsSelf(k) then ThisProxy else Undefined)
  {
    DeleteValid(l.own, k);
  }

  // ---------------------------------------------------------------------------
  // What a definition leaves
  // ---------------------------------------------------------------------------

  /** What reading a property yields. */
  ghost predicate Yields(p: Prop, invoke: Fn -> Val, v: Val) {
    match p
    case Data(value, _, _, _) => v == value
    case Accessor(None, _, _, _) => v == Undefined
    case Accessor(Some(f), _, _, _) => v == invoke(f)
  }

  /**
    A definition is accepted for every key that is not pinned. On a pinned one it must not ask for another
    kind of property, for configurability, for other flags, for another getter or setter, or for another
    value unless the property is writable.
   */
  lemma DefineAcceptedIff(l: Layer, h: Host, k: Key, d: Desc)
    requires Sound(l) && d.Possible()
    ensures !Pinned(l, k) ==> Step(l, h, Define(k, d)).1 == Truth(true)
    ensures Pinned(l, k) ==>
              (Step(l, h, Define(k, d)).1 == Truth(true) <==>
                && d.configurable != Some(true)
                && (d.enumerable.Some? ==> d.enumerable.value == l.shadow.at[k].enumerable)
                && match l.shadow.at[k]
                   case Data(value, writable, _, _) =>
                     && d.get.None? && d.set_.None?
                     && (!writable ==> d.writable != Some(true) && (d.value.Some? ==> d.value.value == value))
                   case Accessor(get, set_, _, _) =>
                     && d.value.None? && d.writable.None?
                     && (d.get.Some? ==> d.get.value == get) && (d.set_.Some? ==> d.set_.value == set_))
    ensures Step(l, h, Define(k, d)).1 != Truth(true) ==> Step(l, h, Define(k, d)) == (l, Truth(false))
  {
    hide Create, Apply;
  }

  /**
    An accepted definition is read back. Of a key in the function's own layer, the value given, or else
    what the getter given yields at once, is stored as plain data.
   */
  lemma OwnDefinitionReadsBack(l: Layer, h: Host, k: Key, d: Desc)
    requires Sound(l) && !Pinned(l, k) && d.configurable != Some(false)
    ensures var l' := Step(l, h, Define(k, d)).0;
            var v := if d.value.Some? then d.value.value
                     else if d.get.Some? && d.get.value.Some? then h.invoke(d.get.value.value)
                     else Undefined;
            forall later: Host ::
              && HasTrap(l', later, k)
              && GetTrap(l', later, k) == (if k == Name("globalThis") || k == Name("self") then ThisProxy else v)
              && DescribeTrap(l', later, k) == Some(Data(v, true, true, true))
  {
  }

  /** A non-configurable definition of a new key makes exactly the property it describes, with the defaults of absent fields. */
  lemma PinnedDefinitionReadsBack(l: Layer, h: Host, k: Key, d: Desc)
    requires Sound(l) && d.Possible() && !Pinned(l, k) && d.configurable == Some(false)
    ensures var l' := Step(l, h, Define(k, d)).0;
            exists p: Prop ::
              && (if d.get.Some? || d.set_.Some? then
                    && p.Accessor?
                    && p.get == (if d.get.Some? then d.get.value else None)
                    && p.set_ == (if d.set_.Some? then d.set_.value else None)
                  else
                    && p.Data?
                    && p.value == (if d.value.Some? then d.value.value else Undefined)
                    && p.writable == (d.writable == Some(true)))
              && p.enumerable == (d.enumerable == Some(true)) && !p.configurable
              && forall later: Host ::
                   && HasTrap(l', later, k) && DescribeTrap(l', later, k) == Some(p)
                   && Yields(p, later.invoke, GetTrap(l', later, k))
  {
    var p := Step(l, h, Define(k, d)).0.shadow.at[k];
    assert forall later: Host :: Yields(p, later.invoke, Read(p, later.invoke));
  }

  /** An accepted definition of a pinned key changes the fields it gives and keeps the others. */
  lemma PinnedRedefinitionReadsBack(l: Layer, h: Host, k: Key, d: Desc)
    requires Sound(l) && d.Possible() && Pinned(l, k) && Step(l, h, Define(k, d)).1 == Truth(true)
    ensures var l' := Step(l, h, Define(k, d)).0;
            exists p: Prop ::
              && (match l.shadow.at[k]
                  case Data(value, writable, _, _) =>
                    && p.Data?
                    && p.value == (if d.value.Some? then d.value.value else value)
                    && p.writable == (if d.writable.Some? then d.writable.value else writable)
                  case Accessor(get, set_, _, _) => p.Accessor? && p.get == get && p.set_ == set_)
              && p.enumerable == l.shadow.at[k].enumerable && !p.configurable
              && forall later: Host ::
                   && HasTrap(l', later, k) && DescribeTrap(l', later, k) == Some(p)
                   && Yields(p, later.invoke, GetTrap(l', later, k))
  {
    var p := Step(l, h, Define(k, d)).0.shadow.at[k];
    DefineAcceptedIff(l, h, k, d);
    assert forall later: Host :: Yields(p, later.invoke, Read(p, later.invoke));
  }

  /** Writes fail on pinned data that is not writable and pinned accessors without a setter alone; deletes, on pinned keys. */
  lemma WriteAcceptedIff(l: Layer, h: Host, k: Key, v: Val)
    ensures Step(l, h, Set(k, v)).1 == Truth(
              k in l.shadow.at ==> if l.shadow.at[k].Data? then l.shadow.at[k].writable else l.shadow.at[k].set_.Some?)
    ensures Step(l, h, Call.Delete(k)).1 == Truth(k !in l.shadow.at)
    ensures k in l.shadow.at ==> Step(l, h, Call.Delete(k)).0 == l
  {
  }

  /** A pinned property that is not writable, or an accessor, stays as it is, whatever is called. */
  lemma {:induction false} FrozenStays(l: Layer, es: seq<Event>, k: Key)
    requires Sound(l) && Plausible(es) && Pinned(l, k) && (l.shadow.at[k].Data? ==> !l.shadow.at[k].writable)
    ensures Pinned(RunFrom(l, es), k) && RunFrom(l, es).shadow.at[k] == l.shadow.at[k]
    decreases |es|
  {
    if es != [] {
      StepSound(l, es[0].host, es[0].call);
      FrozenStep(l, es[0].host, es[0].call, k);
      hide Step, Sound, PossibleCall;
      FrozenStays(Step(l, es[0].host, es[0].call).0, es[1..], k);
    }
  }

  lemma FrozenStep(l: Layer, h: Host, c: Call, k: Key)
    requires Sound(l) && PossibleCall(c) && Pinned(l, k) && (l.shadow.at[k].Data? ==> !l.shadow.at[k].writable)
    ensures var l' := Step(l, h, c).0;
            Pinned(l', k) && l'.shadow.at[k] == l.shadow.at[k]
  {
    if c.Define? && c.k == k { DefineAcceptedIff(l, h, k, c.d); }
  }

  // ---------------------------------------------------------------------------
  // What shows through
  // ---------------------------------------------------------------------------

  /** At first the overrides lie over the host, and the global object's own names yield the proxy. */
  lemma FreshLayerShows(overrides: JsMap<Key, Val>, h: Host, k: Key)
    ensures var l := Layer(overrides, {}, JsMap([], map[]));
            && (HasTrap(l, h, k) <==> k in overrides.at || k in h.props.at || h.protoHas(k))
            && DescribeTrap(l, h, k)
            == (if k in overrides.at then Some(Data(overrides.at[k], true, true, true))
                else if k in h.props.at then Some(h.props.at[k]) else None)
            && (if k == Name("globalThis") || k == Name("self") then GetTrap(l, h, k) == ThisProxy
                else if k in overrides.at then GetTrap(l, h, k) == overrides.at[k]
                else if k in h.props.at then Yields(h.props.at[k], h.invoke, GetTrap(l, h, k))
                else GetTrap(l, h, k) == h.protoGet(k))
  {
  }

  lemma ListingChangesNothing(l: Layer, h: Host)
    ensures Step(l, h, OwnKeys).0 == l
  {
  }

  /** A key that no call was about looks, under any host, as it did at first. */
  lemma {:induction false} UncalledKeysUntouched(l: Layer, es: seq<Event>, h: Host, k: Key)
    requires Sound(l) && Plausible(es)
    requires forall i | 0 <= i < |es| && !es[i].call.OwnKeys? :: es[i].call.k != k
    ensures SameAt(l, RunFrom(l, es), h, k)
    decreases |es|
  {
    if es != [] {
      hide Sound, PossibleCall, GetTrap, HasTrap, DescribeTrap, Step;
      var l' := Step(l, es[0].host, es[0].call).0;
      StepSound(l, es[0].host, es[0].call);
      if es[0].call.OwnKeys? {
        ListingChangesNothing(l, es[0].host);
      } else {
        OtherKeysUntouched(l, es[0].host, es[0].call, h, k);
      }
      UncalledKeysUntouched(l', es[1..], h, k);
    }
  }
}
