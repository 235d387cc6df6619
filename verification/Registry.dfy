// The controller registry of src/core/all.rs: validation, the two filtered
// lookups, the filtered lists, and the sole-capability query.
module Registry {
  import opened Prelude
  import opened ParamTypes
  import Handoff

  /** Opaque tags: a domain family and a memory capability. */
  datatype DomainGroup = DomainGroup(index: nat)
  datatype Capability = Capability(index: nat)

  datatype ControllerSchema = ControllerSchema(namespace: string, func: string, inputs: seq<FieldSchema>)
  datatype Controller = Controller(schema: ControllerSchema, handler: nat)
  datatype Grouped = Grouped(group: DomainGroup, capability: Option<Capability>, controller: Controller)

  function RpcMethodName(s: ControllerSchema): string {
    "openhuman." + s.namespace + "_" + s.func
  }

  function MethodName(s: ControllerSchema): string {
    s.namespace + "." + s.func
  }

  function NameOf(g: Grouped): string {
    RpcMethodName(g.controller.schema)
  }

  // ------------------------------------------------------------------
  // Gates and lookups
  // ------------------------------------------------------------------

  /** The ambient context: the enabled domains, if any context is active, and the advertised capabilities. */
  datatype Ambient = Ambient(domains: Option<set<DomainGroup>>, capabilities: set<Capability>)

  predicate GroupAllowed(a: Ambient, group: DomainGroup) {
    a.domains.None? || group in a.domains.value
  }

  predicate CapabilityAllowed(a: Ambient, capability: Option<Capability>) {
    capability.None? || capability.value in a.capabilities
  }

  predicate Allowed(a: Ambient, g: Grouped) {
    GroupAllowed(a, g.group) && CapabilityAllowed(a, g.capability)
  }

  /** No active context lets every domain through, and a controller without a capability needs none. */
  lemma AllowedIff(a: Ambient, g: Grouped)
    ensures Allowed(a, g) <==>
      && (forall domains | a.domains == Some(domains) :: g.group in domains)
      && (forall c | g.capability == Some(c) :: c in a.capabilities)
  {
    assert a.domains.Some? ==> a.domains == Some(a.domains.value);
    assert g.capability.Some? ==> g.capability == Some(g.capability.value);
  }

  /** Search with the gates inside the search. */
  function FindAllowed(gs: seq<Grouped>, a: Ambient, name: string): Option<Grouped> {
    if gs == [] then None
    else if NameOf(gs[0]) == name && GroupAllowed(a, gs[0].group) && CapabilityAllowed(a, gs[0].capability)
      then Some(gs[0])
    else FindAllowed(gs[1..], a, name)
  }

  function FindNamed(gs: seq<Grouped>, name: string): Option<Grouped> {
    if gs == [] then None
    else if NameOf(gs[0]) == name then Some(gs[0])
    else FindNamed(gs[1..], name)
  }

  function SchemaForRpcMethod(public: seq<Grouped>, internal: seq<Grouped>, a: Ambient, name: string)
    : Option<ControllerSchema>
  {
    match FindAllowed(public + internal, a, name)
    case None => None
    case Some(g) => Some(g.controller.schema)
  }

  /** Search, then one gate, then the other; the controller whose handler runs. */
  function Dispatched(public: seq<Grouped>, internal: seq<Grouped>, a: Ambient, name: string): Option<Grouped> {
    match FindNamed(public + internal, name)
    case None => None
    case Some(g) =>
      if !GroupAllowed(a, g.group) then None
      else if !CapabilityAllowed(a, g.capability) then None
      else Some(g)
  }

  ghost predicate DistinctNames(gs: seq<Grouped>) {
    forall i, j | 0 <= i < j < |gs| :: NameOf(gs[i]) != NameOf(gs[j])
  }

  lemma UniqueNamed(gs: seq<Grouped>, g: Grouped, h: Grouped)
    requires DistinctNames(gs) && g in gs && h in gs && NameOf(g) == NameOf(h)
    ensures g == h
  {
    var i :| 0 <= i < |gs| && gs[i] == g;
    var j :| 0 <= j < |gs| && gs[j] == h;
    assert NameOf(gs[i]) == NameOf(gs[j]);
  }

  lemma {:induction false} FindNamedIs(gs: seq<Grouped>, name: string)
    ensures FindNamed(gs, name).None? <==> forall g | g in gs :: NameOf(g) != name
    ensures FindNamed(gs, name).Some? ==> FindNamed(gs, name).value in gs && NameOf(FindNamed(gs, name).value) == name
  {
    if gs == [] {
    } else {
      FindNamedIs(gs[1..], name);
      assert gs == [gs[0]] + gs[1..];
    }
  }

  lemma {:induction false} FindAllowedIs(gs: seq<Grouped>, a: Ambient, name: string)
    ensures FindAllowed(gs, a, name).None? <==> forall g | g in gs :: NameOf(g) != name || !Allowed(a, g)
    ensures FindAllowed(gs, a, name).Some? ==>
      var g := FindAllowed(gs, a, name).value; g in gs && NameOf(g) == name && Allowed(a, g)
  {
    if gs == [] {
    } else {
      FindAllowedIs(gs[1..], a, name);
      assert gs == [gs[0]] + gs[1..];
    }
  }

  lemma {:induction false} FirstNamedAllowed(gs: seq<Grouped>, a: Ambient, name: string)
    requires FindNamed(gs, name).Some? && Allowed(a, FindNamed(gs, name).value)
    ensures FindAllowed(gs, a, name) == FindNamed(gs, name)
  {
    if NameOf(gs[0]) == name {
    } else {
      FirstNamedAllowed(gs[1..], a, name);
    }
  }

  /**
   * Lookup and dispatch agree on a method under an ambient context exactly when
   * the first controller of that name is allowed or none of that name is.
   */
  lemma LookupsAgreeIff(gs: seq<Grouped>, a: Ambient, name: string)
    ensures FindAllowed(gs, a, name) == Dispatched(gs, [], a, name) <==>
      FindNamed(gs, name).None? || Allowed(a, FindNamed(gs, name).value)
      || forall g | g in gs && NameOf(g) == name :: !Allowed(a, g)
  {
    assert gs + [] == gs;
    FindNamedIs(gs, name);
    FindAllowedIs(gs, a, name);
    if FindNamed(gs, name).Some? && Allowed(a, FindNamed(gs, name).value) {
      FirstNamedAllowed(gs, a, name);
    }
  }

  /** Every controller of this name is let through wherever the first one must be. */
  ghost predicate SharesGates(gs: seq<Grouped>, first: Grouped, name: string) {
    forall g | g in gs && NameOf(g) == name ::
      g.group == first.group && (first.capability.None? || first.capability == g.capability)
  }

  /** The narrowest context that allows `g`. */
  function JustFor(g: Grouped): Ambient {
    Ambient(Some({g.group}), if g.capability.Some? then {g.capability.value} else {})
  }

  /**
   * Lookup and dispatch agree on a method under every context exactly when all
   * controllers of its name share the first one's gates.
   */
  lemma AlwaysAgreeIff(gs: seq<Grouped>, name: string)
    ensures (forall a :: FindAllowed(gs, a, name) == Dispatched(gs, [], a, name)) <==>
      FindNamed(gs, name).None? || SharesGates(gs, FindNamed(gs, name).value, name)
  {
    FindNamedIs(gs, name);
    if FindNamed(gs, name).Some? {
      var first := FindNamed(gs, name).value;
      forall a ensures SharesGates(gs, first, name) ==> FindAllowed(gs, a, name) == Dispatched(gs, [], a, name) {
        LookupsAgreeIff(gs, a, name);
      }
      forall g | g in gs && NameOf(g) == name
        ensures FindAllowed(gs, JustFor(g), name) == Dispatched(gs, [], JustFor(g), name) ==>
          g.group == first.group && (first.capability.None? || first.capability == g.capability)
      {
        LookupsAgreeIff(gs, JustFor(g), name);
        assert Allowed(JustFor(g), g);
      }
    } else {
      forall a ensures FindAllowed(gs, a, name) == Dispatched(gs, [], a, name) {
        LookupsAgreeIff(gs, a, name);
      }
    }
  }

  lemma {:induction false} FindAllowedAppend(xs: seq<Grouped>, ys: seq<Grouped>, a: Ambient, name: string)
    ensures FindAllowed(xs + ys, a, name) ==
      if FindAllowed(xs, a, name).Some? then FindAllowed(xs, a, name) else FindAllowed(ys, a, name)
  {
    if xs == [] {
      assert xs + ys == ys;
    } else {
      FindAllowedAppend(xs[1..], ys, a, name);
      assert (xs + ys)[1..] == xs[1..] + ys;
    }
  }

  lemma {:induction false} FindNamedAppend(xs: seq<Grouped>, ys: seq<Grouped>, name: string)
    ensures FindNamed(xs + ys, name) == if FindNamed(xs, name).Some? then FindNamed(xs, name) else FindNamed(ys, name)
  {
    if xs == [] {
      assert xs + ys == ys;
    } else {
      FindNamedAppend(xs[1..], ys, name);
      assert (xs + ys)[1..] == xs[1..] + ys;
    }
  }

  /** The public registry is searched before the internal one, by lookup and dispatch alike. */
  lemma PublicComesFirst(public: seq<Grouped>, internal: seq<Grouped>, a: Ambient, name: string)
    ensures FindAllowed(public, a, name).Some? ==>
      SchemaForRpcMethod(public, internal, a, name) == Some(FindAllowed(public, a, name).value.controller.schema)
    ensures FindNamed(public, name).Some? ==>
      Dispatched(public, internal, a, name) ==
        if Allowed(a, FindNamed(public, name).value) then FindNamed(public, name) else None
  {
    FindAllowedAppend(public, internal, a, name);
    FindNamedAppend(public, internal, name);
  }

  /**
   * With names distinct across both registries, no context can tell schema
   * lookup from dispatch: both find the same controller or neither finds any.
   */
  lemma LookupAgreesWithDispatch(public: seq<Grouped>, internal: seq<Grouped>, a: Ambient, name: string)
    requires DistinctNames(public + internal)
    ensures FindAllowed(public + internal, a, name) == Dispatched(public, internal, a, name)
  {
    var gs := public + internal;
    FindNamedIs(gs, name);
    forall g | g in gs && NameOf(g) == name ensures Some(g) == FindNamed(gs, name) {
      UniqueNamed(gs, g, FindNamed(gs, name).value);
    }
    LookupsAgreeIff(gs, a, name);
    assert gs + [] == gs;
  }

  /** A gated method looks like one that was never registered, to lookup and dispatch alike. */
  lemma GatedLooksUnregistered(public: seq<Grouped>, internal: seq<Grouped>, a: Ambient, g: Grouped)
    requires DistinctNames(public + internal) && g in public + internal && !Allowed(a, g)
    ensures SchemaForRpcMethod(public, internal, a, NameOf(g)).None?
    ensures Dispatched(public, internal, a, NameOf(g)).None?
  {
    var gs := public + internal;
    LookupAgreesWithDispatch(public, internal, a, NameOf(g));
    FindNamedIs(gs, NameOf(g));
    UniqueNamed(gs, g, FindNamed(gs, NameOf(g)).value);
  }

  /**
   * Validating the public registry alone is not enough: an internal controller
   * under a public name can be looked up while dispatch refuses it.
   */
  lemma SharedNameSplitsLookup() returns (public: seq<Grouped>, internal: seq<Grouped>, a: Ambient, name: string)
    ensures DistinctNames(public) && DistinctNames(internal)
    ensures SchemaForRpcMethod(public, internal, a, name).Some? && Dispatched(public, internal, a, name).None?
  {
    var c := Controller(ControllerSchema("memory", "get", []), 0);
    public := [Grouped(DomainGroup(0), None, c)];
    internal := [Grouped(DomainGroup(1), None, c)];
    a := Ambient(Some({DomainGroup(1)}), {});
    name := RpcMethodName(c.schema);
    var gs := public + internal;
    assert gs[0] == public[0] && gs[1] == internal[0] && gs[1] in gs;
    FindAllowedIs(gs, a, name);
  }

  // ------------------------------------------------------------------
  // The filtered lists
  // ------------------------------------------------------------------

  function Visible(gs: seq<Grouped>, a: Ambient): seq<Grouped> {
    if gs == [] then []
    else (if GroupAllowed(a, gs[0].group) && CapabilityAllowed(a, gs[0].capability) then [gs[0]] else [])
         + Visible(gs[1..], a)
  }

  function AllRegisteredControllers(gs: seq<Grouped>, a: Ambient): seq<Controller> {
    var v := Visible(gs, a);
    seq(|v|, i requires 0 <= i < |v| => v[i].controller)
  }

  function AllControllerSchemas(gs: seq<Grouped>, a: Ambient): seq<ControllerSchema> {
    var v := Visible(gs, a);
    seq(|v|, i requires 0 <= i < |v| => v[i].controller.schema)
  }

  /** `s` is `t` with some elements left out, order kept. */
  predicate Subsequence<T(==)>(s: seq<T>, t: seq<T>) {
    if s == [] then true
    else if t == [] then false
    else if s[0] == t[0] then Subsequence(s[1..], t[1..])
    else Subsequence(s, t[1..])
  }

  predicate AmbientLe(a: Ambient, b: Ambient) {
    && a.capabilities <= b.capabilities
    && (b.domains.None? || (a.domains.Some? && a.domains.value <= b.domains.value))
  }

  lemma {:induction false} SubsequenceSkip<T>(s: seq<T>, t: seq<T>)
    requires s != [] && Subsequence(s, t)
    ensures Subsequence(s[1..], t)
  {
    if s[0] == t[0] {
      if s[1..] != [] {
        if s[1] == t[0] {
          SubsequenceSkip(s[1..], t[1..]);
        }
      }
    } else {
      SubsequenceSkip(s, t[1..]);
      if s[1..] != [] && s[1] == t[0] {
        SubsequenceSkip(s[1..], t[1..]);
      }
    }
  }

  lemma SubsequenceWider<T>(s: seq<T>, t: seq<T>, x: T)
    requires Subsequence(s, t)
    ensures Subsequence(s, [x] + t)
  {
    assert ([x] + t)[1..] == t;
    if s != [] && s[0] == x {
      SubsequenceSkip(s, t);
    }
  }

  /** The visible list grows with the context, and only by insertion: order is never disturbed. */
  lemma {:induction false} VisibleMonotone(gs: seq<Grouped>, a: Ambient, b: Ambient)
    requires AmbientLe(a, b)
    ensures Subsequence(Visible(gs, a), Visible(gs, b)) && Subsequence(Visible(gs, b), gs)
  {
    if gs == [] {
    } else {
      var va, vb := Visible(gs[1..], a), Visible(gs[1..], b);
      VisibleMonotone(gs[1..], a, b);
      assert gs == [gs[0]] + gs[1..];
      if Allowed(b, gs[0]) {
        assert ([gs[0]] + va)[1..] == va && ([gs[0]] + vb)[1..] == vb;
        SubsequenceWider(va, vb, gs[0]);
        assert [] + va == va;
      } else {
        SubsequenceWider(vb, gs[1..], gs[0]);
        assert [] + va == va && [] + vb == vb;
      }
    }
  }

  lemma {:induction false} VisibleMember(gs: seq<Grouped>, a: Ambient, g: Grouped)
    ensures g in Visible(gs, a) <==> g in gs && Allowed(a, g)
  {
    if gs == [] {
    } else {
      VisibleMember(gs[1..], a, g);
      assert gs == [gs[0]] + gs[1..];
    }
  }

  /** Both lists follow the visible registry, entry by entry; it holds just the registered and allowed. */
  lemma ListsAreVisible(gs: seq<Grouped>, a: Ambient)
    ensures |AllRegisteredControllers(gs, a)| == |AllControllerSchemas(gs, a)| == |Visible(gs, a)|
    ensures forall i | 0 <= i < |Visible(gs, a)| ::
      && AllRegisteredControllers(gs, a)[i] == Visible(gs, a)[i].controller
      && AllControllerSchemas(gs, a)[i] == Visible(gs, a)[i].controller.schema
    ensures forall g :: g in Visible(gs, a) <==> g in gs && Allowed(a, g)
  {
    forall g ensures g in Visible(gs, a) <==> g in gs && Allowed(a, g) {
      VisibleMember(gs, a, g);
    }
  }

  /** Every advertised schema is found again by its own method name, and dispatch routes it to a listed controller. */
  lemma AdvertisedIsCallable(public: seq<Grouped>, internal: seq<Grouped>, a: Ambient, s: ControllerSchema)
    requires DistinctNames(public + internal) && s in AllControllerSchemas(public, a)
    ensures SchemaForRpcMethod(public, internal, a, RpcMethodName(s)) == Some(s)
    ensures var d := Dispatched(public, internal, a, RpcMethodName(s));
      d.Some? && d.value.controller.schema == s && d.value.controller in AllRegisteredControllers(public, a)
  {
    var i :| 0 <= i < |AllControllerSchemas(public, a)| && AllControllerSchemas(public, a)[i] == s;
    var g := Visible(public, a)[i];
    var gs := public + internal;
    VisibleMember(public, a, g);
    LookupAgreesWithDispatch(public, internal, a, NameOf(g));
    FindNamedIs(gs, NameOf(g));
    assert g in gs;
    UniqueNamed(gs, g, FindNamed(gs, NameOf(g)).value);
    assert AllRegisteredControllers(public, a)[i] == g.controller;
  }

  // ------------------------------------------------------------------
  // sole_capability_for_namespace
  // ------------------------------------------------------------------

  ghost predicate SoleCapability(gs: seq<Grouped>, namespace: string, c: Capability) {
    && (exists g :: g in gs && g.controller.schema.namespace == namespace)
    && (forall g | g in gs && g.controller.schema.namespace == namespace :: g.capability == Some(c))
  }

  method SoleCapabilityForNamespace(gs: seq<Grouped>, namespace: string) returns (r: Option<Capability>)
    ensures forall c :: r == Some(c) <==> SoleCapability(gs, namespace, c)
  {
    var found: Option<Capability> := None;
    var any := false;
    for i := 0 to |gs|
      invariant any <==> exists g :: g in gs[..i] && g.controller.schema.namespace == namespace
      invariant any <==> found.Some?
      invariant forall g | g in gs[..i] && g.controller.schema.namespace == namespace :: g.capability == found
    {
      assert gs[..i + 1] == gs[..i] + [gs[i]];
      if gs[i].controller.schema.namespace == namespace {
        any := true;
        assert gs[i] in gs;
        match (gs[i].capability, found)
        case (None, _) => return None;
        case (Some(c), None) => found := Some(c);
        case (Some(c), Some(prev)) =>
          if c != prev {
            var g :| g in gs[..i] && g.controller.schema.namespace == namespace;
            assert g in gs;
            return None;
          }
      }
    }
    assert gs[..|gs|] == gs;
    if any {
      return found;
    }
    return None;
  }

  /** A namespace with a sole family vanishes whole when that family is not advertised. */
  lemma SoleFamilyVanishes(gs: seq<Grouped>, namespace: string, c: Capability, a: Ambient)
    requires SoleCapability(gs, namespace, c) && c !in a.capabilities
    ensures forall g | g in Visible(gs, a) :: g.controller.schema.namespace != namespace
  {
    forall g | g in Visible(gs, a) ensures g.controller.schema.namespace != namespace {
      VisibleMember(gs, a, g);
    }
  }

  // ------------------------------------------------------------------
  // validate_registry
  // ------------------------------------------------------------------

  datatype RegistryError =
    | DuplicateKey(key: string)
    | DuplicateRpcMethod(name: string)
    | EmptyNamespace(key: string)
    | EmptyFunction(key: string)
    | DuplicateRequiredInput(input: string, controller: string)

  predicate Blank(s: string) {
    Trim(s, Handoff.IsWhitespace) == ""
  }

  ghost predicate RepeatsRequired(inputs: seq<FieldSchema>, name: string) {
    exists i, j :: 0 <= i < j < |inputs| && inputs[i].required && inputs[j].required
                   && inputs[i].name == name && inputs[j].name == name
  }

  /** The error describes controller `i`, or it and an earlier one. */
  ghost predicate Faults(gs: seq<Grouped>, i: int, e: RegistryError) {
    0 <= i < |gs| &&
    var s := gs[i].controller.schema;
    var key := s.namespace + "." + s.func;
    match e
    case DuplicateKey(k) =>
      k == key && exists j :: 0 <= j < i && MethodName(gs[j].controller.schema) == key
    case DuplicateRpcMethod(name) =>
      name == "openhuman." + s.namespace + "_" + s.func && exists j :: 0 <= j < i && NameOf(gs[j]) == name
    case EmptyNamespace(k) => k == key && Blank(s.namespace)
    case EmptyFunction(k) => k == key && Blank(s.func)
    case DuplicateRequiredInput(input, controller) => controller == key && RepeatsRequired(s.inputs, input)
  }

  ghost predicate Fault(gs: seq<Grouped>, e: RegistryError) {
    exists i :: Faults(gs, i, e)
  }

  /** The required names that come up more than once. */
  method RepeatedRequired(inputs: seq<FieldSchema>) returns (dupes: set<string>)
    ensures forall name :: name in dupes <==> RepeatsRequired(inputs, name)
  {
    var required: set<string> := {};
    dupes := {};
    for i := 0 to |inputs|
      invariant forall name :: name in required <==>
        exists k :: 0 <= k < i && inputs[k].required && inputs[k].name == name
      invariant forall name :: name in dupes <==> RepeatsRequired(inputs[..i], name)
    {
      RepeatsSnoc(inputs, i);
      if inputs[i].required {
        if inputs[i].name in required {
          dupes := dupes + {inputs[i].name};
        }
        required := required + {inputs[i].name};
      }
    }
    assert inputs[..|inputs|] == inputs;
  }

  lemma RepeatsSnoc(inputs: seq<FieldSchema>, n: nat)
    requires n < |inputs|
    ensures forall name :: RepeatsRequired(inputs[..n + 1], name) <==>
      || RepeatsRequired(inputs[..n], name)
      || (inputs[n].required && inputs[n].name == name
          && exists k :: 0 <= k < n && inputs[k].required && inputs[k].name == name)
  {
    var now, before := inputs[..n + 1], inputs[..n];
    forall name ensures RepeatsRequired(now, name) <==>
      || RepeatsRequired(before, name)
      || (inputs[n].required && inputs[n].name == name
          && exists k :: 0 <= k < n && inputs[k].required && inputs[k].name == name)
    {
      if RepeatsRequired(now, name) {
        var i, j :| 0 <= i < j < |now| && now[i].required && now[j].required
                    && now[i].name == name && now[j].name == name;
        assert j < n ==> before[i] == now[i] && before[j] == now[j];
        assert inputs[i] == now[i] && inputs[j] == now[j];
      }
      if RepeatsRequired(before, name) {
        var i, j :| 0 <= i < j < |before| && before[i].required && before[j].required
                    && before[i].name == name && before[j].name == name;
        assert now[i] == before[i] && now[j] == before[j];
      }
      if inputs[n].required && inputs[n].name == name
         && exists k :: 0 <= k < n && inputs[k].required && inputs[k].name == name {
        var k :| 0 <= k < n && inputs[k].required && inputs[k].name == name;
        assert now[k] == inputs[k] && now[n] == inputs[n];
      }
    }
  }

  /** The faults of controller `n`, given the keys and method names before it. */
  method ControllerFaults(gs: seq<Grouped>, n: nat, keys: set<string>, methods: set<string>)
    returns (errors: seq<RegistryError>)
    requires n < |gs|
    requires forall k :: k in keys <==> exists i :: 0 <= i < n && MethodName(gs[i].controller.schema) == k
    requires forall k :: k in methods <==> exists i :: 0 <= i < n && NameOf(gs[i]) == k
    ensures forall e :: e in errors <==> Faults(gs, n, e)
  {
    errors := PlainFaults(gs, n, keys, methods);
    var s := gs[n].controller.schema;
    var dupes := RepeatedRequired(s.inputs);
    ghost var all, plain := dupes, errors;
    while dupes != {}
      invariant dupes <= all
      invariant forall e :: e in errors <==>
        e in plain || (e.DuplicateRequiredInput? && e.controller == MethodName(s) && e.input in all - dupes)
      decreases dupes
    {
      var input :| input in dupes;
      dupes := dupes - {input};
      errors := errors + [DuplicateRequiredInput(input, MethodName(s))];
    }
  }

  /** The faults of controller `n` other than repeated inputs. */
  method PlainFaults(gs: seq<Grouped>, n: nat, keys: set<string>, methods: set<string>)
    returns (errors: seq<RegistryError>)
    requires n < |gs|
    requires forall k :: k in keys <==> exists i :: 0 <= i < n && MethodName(gs[i].controller.schema) == k
    requires forall k :: k in methods <==> exists i :: 0 <= i < n && NameOf(gs[i]) == k
    ensures forall e :: e in errors <==> Faults(gs, n, e) && !e.DuplicateRequiredInput?
  {
    var s := gs[n].controller.schema;
    var key, name := MethodName(s), RpcMethodName(s);
    errors := [];
    if key in keys {
      errors := errors + [DuplicateKey(key)];
    }
    if name in methods {
      errors := errors + [DuplicateRpcMethod(name)];
    }
    if Blank(s.namespace) {
      errors := errors + [EmptyNamespace(key)];
    }
    if Blank(s.func) {
      errors := errors + [EmptyFunction(key)];
    }
  }

  /** Collects every fault of the registry and nothing else. */
  method ValidateRegistry(gs: seq<Grouped>) returns (errors: seq<RegistryError>)
    ensures forall e :: e in errors <==> Fault(gs, e)
    ensures errors == [] <==> WellFormed(gs)
  {
    errors := [];
    var keys: set<string> := {};
    var methods: set<string> := {};
    for n := 0 to |gs|
      invariant forall k :: k in keys <==> exists i :: 0 <= i < n && MethodName(gs[i].controller.schema) == k
      invariant forall k :: k in methods <==> exists i :: 0 <= i < n && NameOf(gs[i]) == k
      invariant forall e :: e in errors <==> exists i :: i < n && Faults(gs, i, e)
    {
      var found := ControllerFaults(gs, n, keys, methods);
      keys := keys + {MethodName(gs[n].controller.schema)};
      methods := methods + {RpcMethodName(gs[n].controller.schema)};
      errors := errors + found;
    }
    WellFormedIff(gs);
    assert errors != [] ==> errors[0] in errors;
  }

  /** Two pairs of parts read the same when joined: they are equal, or the cut is shifted to another separator. */
  ghost predicate Collide(s: ControllerSchema, t: ControllerSchema, sep: char) {
    || (s.namespace == t.namespace && s.func == t.func)
    || (exists mid :: t.namespace == s.namespace + [sep] + mid && s.func == mid + [sep] + t.func)
    || (exists mid :: s.namespace == t.namespace + [sep] + mid && t.func == mid + [sep] + s.func)
  }

  /** What a valid registry is. */
  ghost predicate WellFormed(gs: seq<Grouped>) {
    && (forall i, j | 0 <= i < j < |gs| ::
          !Collide(gs[i].controller.schema, gs[j].controller.schema, '.')
          && !Collide(gs[i].controller.schema, gs[j].controller.schema, '_'))
    && (forall g | g in gs :: NotBlank(g.controller.schema.namespace) && NotBlank(g.controller.schema.func))
    && (forall g | g in gs :: RequiredOnce(g.controller.schema.inputs))
  }

  /** No two required inputs have the same name. */
  ghost predicate RequiredOnce(inputs: seq<FieldSchema>) {
    forall i, j | 0 <= i < j < |inputs| && inputs[i].required && inputs[j].required :: inputs[i].name != inputs[j].name
  }

  lemma RequiredOnceIff(inputs: seq<FieldSchema>)
    ensures RequiredOnce(inputs) <==> forall name :: !RepeatsRequired(inputs, name)
  {
    forall i, j | 0 <= i < j < |inputs| && inputs[i].required && inputs[j].required && inputs[i].name == inputs[j].name
      ensures RepeatsRequired(inputs, inputs[i].name)
    {
    }
  }

  predicate NotBlank(s: string) {
    exists c | c in s :: !Handoff.IsWhitespace(c)
  }

  lemma NotBlankIff(s: string)
    ensures NotBlank(s) <==> !Blank(s)
  {
    hide Handoff.IsWhitespace;
    var pre, post := TrimParts(s, Handoff.IsWhitespace);
    if Blank(s) {
      assert s == pre + post;
    } else {
      var t := Trim(s, Handoff.IsWhitespace);
      assert s[|pre|] == t[0] && s[|pre|] in s;
    }
  }

  lemma WellFormedIff(gs: seq<Grouped>)
    ensures WellFormed(gs) <==> forall e :: !Fault(gs, e)
  {
    if !exists e :: Fault(gs, e) {
      FaultlessNames(gs);
      FaultlessParts(gs);
    } else {
      var e :| Fault(gs, e);
      var i :| Faults(gs, i, e);
      FaultySpoils(gs, i, e);
    }
  }

  lemma FaultlessNames(gs: seq<Grouped>)
    requires forall e :: !Fault(gs, e)
    ensures forall i, j | 0 <= i < j < |gs| ::
      !Collide(gs[i].controller.schema, gs[j].controller.schema, '.')
      && !Collide(gs[i].controller.schema, gs[j].controller.schema, '_')
  {
    hide Collide;
    forall i, j | 0 <= i < j < |gs|
      ensures !Collide(gs[i].controller.schema, gs[j].controller.schema, '.')
      ensures !Collide(gs[i].controller.schema, gs[j].controller.schema, '_')
    {
      KeysCollideIff(gs[i].controller.schema, gs[j].controller.schema);
      RpcNamesCollideIff(gs[i].controller.schema, gs[j].controller.schema);
      NoFaults(gs, j, DuplicateKey(MethodName(gs[j].controller.schema)));
      NoFaults(gs, j, DuplicateRpcMethod(NameOf(gs[j])));
    }
  }

  lemma FaultlessParts(gs: seq<Grouped>)
    requires forall e :: !Fault(gs, e)
    ensures forall g | g in gs :: NotBlank(g.controller.schema.namespace) && NotBlank(g.controller.schema.func)
    ensures forall g | g in gs :: RequiredOnce(g.controller.schema.inputs)
  {
    forall g | g in gs ensures NotBlank(g.controller.schema.namespace) && NotBlank(g.controller.schema.func) {
      var i :| 0 <= i < |gs| && gs[i] == g;
      NotBlankIff(g.controller.schema.namespace);
      NotBlankIff(g.controller.schema.func);
      NoFaults(gs, i, EmptyNamespace(MethodName(g.controller.schema)));
      NoFaults(gs, i, EmptyFunction(MethodName(g.controller.schema)));
    }
    forall g | g in gs ensures RequiredOnce(g.controller.schema.inputs) {
      var i :| 0 <= i < |gs| && gs[i] == g;
      forall name ensures !RepeatsRequired(g.controller.schema.inputs, name) {
        NoFaults(gs, i, DuplicateRequiredInput(name, MethodName(g.controller.schema)));
      }
      RequiredOnceIff(g.controller.schema.inputs);
    }
  }

  lemma FaultySpoils(gs: seq<Grouped>, i: int, e: RegistryError)
    requires Faults(gs, i, e)
    ensures !WellFormed(gs)
  {
    hide Collide;
    var s := gs[i].controller.schema;
    assert gs[i] in gs;
    match e
    case DuplicateKey(key) =>
      var j :| 0 <= j < i && MethodName(gs[j].controller.schema) == key;
      KeysCollideIff(gs[j].controller.schema, s);
    case DuplicateRpcMethod(name) =>
      var j :| 0 <= j < i && NameOf(gs[j]) == name;
      RpcNamesCollideIff(gs[j].controller.schema, s);
    case EmptyNamespace(_) => NotBlankIff(s.namespace);
    case EmptyFunction(_) => NotBlankIff(s.func);
    case DuplicateRequiredInput(_, _) => RequiredOnceIff(s.inputs);
  }

  lemma NoFaults(gs: seq<Grouped>, i: int, e: RegistryError)
    requires !Fault(gs, e)
    ensures !Faults(gs, i, e)
  {
  }

  /** Rendered method names are equal exactly for equal parts or a cut shifted across an underscore. */
  lemma RpcNamesCollideIff(s: ControllerSchema, t: ControllerSchema)
    ensures RpcMethodName(s) == RpcMethodName(t) <==> Collide(s, t, '_')
  {
    var x, y := s.namespace + "_" + s.func, t.namespace + "_" + t.func;
    assert RpcMethodName(s) == "openhuman." + x && RpcMethodName(t) == "openhuman." + y;
    assert ("openhuman." + x)[10..] == x && ("openhuman." + y)[10..] == y;
    JoinedCollideIff(s, t, '_');
  }

  /** Keys are equal exactly for equal parts or a cut shifted across a dot. */
  lemma KeysCollideIff(s: ControllerSchema, t: ControllerSchema)
    ensures MethodName(s) == MethodName(t) <==> Collide(s, t, '.')
  {
    JoinedCollideIff(s, t, '.');
  }

  /** Namespaces without dots leave only equal parts. */
  lemma UndottedKeysAreParts(s: ControllerSchema, t: ControllerSchema)
    requires '.' !in s.namespace && '.' !in t.namespace
    ensures MethodName(s) == MethodName(t) <==> s.namespace == t.namespace && s.func == t.func
  {
    KeysCollideIff(s, t);
    forall a: string, mid: string ensures '.' in a + ['.'] + mid {
      assert (a + ['.'] + mid)[|a|] == '.';
    }
  }

  lemma JoinedCollideIff(s: ControllerSchema, t: ControllerSchema, sep: char)
    ensures s.namespace + [sep] + s.func == t.namespace + [sep] + t.func <==> Collide(s, t, sep)
  {
    var x, y := s.namespace + [sep] + s.func, t.namespace + [sep] + t.func;
    if x == y {
      if |s.namespace| == |t.namespace| {
        SameCut(s, t, sep);
      } else if |s.namespace| < |t.namespace| {
        var mid := Shifted(s, t, sep);
      } else {
        var mid := Shifted(t, s, sep);
      }
    }
    forall mid | t.namespace == s.namespace + [sep] + mid && s.func == mid + [sep] + t.func ensures x == y {
      Rejoined(s.namespace, mid, t.func, sep);
    }
    forall mid | s.namespace == t.namespace + [sep] + mid && t.func == mid + [sep] + s.func ensures x == y {
      Rejoined(t.namespace, mid, s.func, sep);
    }
  }

  lemma SameCut(s: ControllerSchema, t: ControllerSchema, sep: char)
    requires s.namespace + [sep] + s.func == t.namespace + [sep] + t.func && |s.namespace| == |t.namespace|
    ensures s.namespace == t.namespace && s.func == t.func
  {
    var x, n := s.namespace + [sep] + s.func, |s.namespace|;
    assert x[..n] == s.namespace && x[..n] == t.namespace;
    assert x[n + 1..] == s.func && x[n + 1..] == t.func;
  }

  lemma Rejoined(a: string, mid: string, b: string, sep: char)
    ensures a + [sep] + (mid + [sep] + b) == a + [sep] + mid + [sep] + b
  {
  }

  lemma Shifted(s: ControllerSchema, t: ControllerSchema, sep: char) returns (mid: string)
    requires s.namespace + [sep] + s.func == t.namespace + [sep] + t.func
    requires |s.namespace| < |t.namespace|
    ensures t.namespace == s.namespace + [sep] + mid && s.func == mid + [sep] + t.func
  {
    var x := s.namespace + [sep] + s.func;
    var n, m := |s.namespace|, |t.namespace|;
    mid := x[n + 1..m];
    assert x[..m] == t.namespace && x[m] == sep && x[m + 1..] == t.func;
    assert x[..n] == s.namespace && x[n] == sep && x[n + 1..] == s.func;
    assert x[..m] == x[..n] + [x[n]] + x[n + 1..m];
    assert x[n + 1..] == x[n + 1..m] + [x[m]] + x[m + 1..];
  }
}
