/**
 * The current initializer (UDMCore): load the persisted config, restore the
 * registry from the configured type names, discover new module types, write
 * the registry back to the config, instantiate one module per registered type,
 * and raise the initialization flag.
 *
 * The static fields of the source are gathered in one `State` record and every
 * step is a function from state to state.
 */
module Core {
  import opened Catalog
  import opened Registry

  /** Diagnostics written to the console, as tags (the message text is not modelled). */
  datatype Event =
    | Warned(warning: Warning)
    | ConfigLoadFailed
    | FailedValidation(typeName: string)
    | NotRestored(typeName: string)
    | ConfigSaved(count: nat)
    | CreateFailed(failed: TypeDesc)

  /** The persisted config asset; `names` is its list of type names, which may be null. */
  datatype Config = Config(names: Option<seq<string>>)

  /** The static state of the initializer. An instance value `None` is a null
      stored in the dictionary. */
  datatype State = State(
    registered: seq<TypeDesc>,
    instances: map<TypeDesc, Option<Instance>>,
    config: Option<Config>,
    isInitialized: bool,
    initializedFired: nat,
    log: seq<Event>)

  /** The state when the domain has just been loaded. */
  function Initial(): State
  {
    State([], map[], None, false, 0, [])
  }

  /** What the initializer keeps true between steps: only module types are
      registered, and an instance stored under a type was created from it. */
  predicate Valid(s: State)
  {
    && (forall t :: t in s.registered ==> IsEligible(t))
    && (forall t :: t in s.instances ==> s.instances[t] == None || s.instances[t] == Some(Instance(t)))
  }

  // ---------------------------------------------------------------- validation

  /** ValidateModuleType: accepts exactly the eligible types; an untagged type is
      rejected silently, a tagged but malformed one with exactly one warning. */
  function ValidateModuleType(t: TypeDesc): (v: Verdict)
    ensures v.ok <==> IsEligible(t)
    ensures v.warnings != [] <==> t.hasModuleAttr && !IsEligible(t)
    ensures |v.warnings| <= 1
    ensures t.hasModuleAttr && !t.implementsModule ==> v.warnings == [MissingInterface(t.fullName)]
    ensures t.hasModuleAttr && t.implementsModule && !IsEligible(t) ==> v.warnings == [AbstractOrInterface(t.fullName)]
  {
    if !t.hasModuleAttr then Verdict(false, [])
    else if !t.implementsModule then Verdict(false, [MissingInterface(t.fullName)])
    else if t.isAbstract || t.isInterface then Verdict(false, [AbstractOrInterface(t.fullName)])
    else Verdict(true, [])
  }

  /** A validator warning as a console event. */
  function Warn(w: Warning): Event
  {
    Warned(w)
  }

  /** The console events for a validator's warnings. */
  function Warnings(ws: seq<Warning>): (r: seq<Event>)
    ensures |r| == |ws|
    ensures |ws| == 1 ==> r == [Warned(ws[0])]
  {
    WarningEvents(ws, Warn)
  }

  // ---------------------------------------------------------------- resolution

  /** The first assembly, in domain order, that declares `name` decides. */
  function SearchAssemblies(assemblies: seq<Assembly>, name: string): Option<TypeDesc>
  {
    if assemblies == [] then None
    else match FindType(assemblies[0].types, name)
      case Some(t) => Some(t)
      case None => SearchAssemblies(assemblies[1..], name)
  }

  /** Assembly `k` declares `name` and no earlier assembly does. */
  predicate FirstDefining(assemblies: seq<Assembly>, name: string, k: int)
  {
    && 0 <= k < |assemblies|
    && Defines(assemblies[k], name)
    && forall j :: 0 <= j < k ==> !Defines(assemblies[j], name)
  }

  /** The search finds nothing exactly when no assembly declares the name, and
      otherwise answers with the first declaring assembly's type of that name. */
  lemma {:induction false} SearchAssembliesSpec(assemblies: seq<Assembly>, name: string)
    ensures var r := SearchAssemblies(assemblies, name);
      && (r.None? <==> forall a :: a in assemblies ==> !Defines(a, name))
      && (r.Some? ==> exists k :: FirstDefining(assemblies, name, k) && r == FindType(assemblies[k].types, name))
  {
    if assemblies != [] {
      var tail := assemblies[1..];
      assert forall a :: a in assemblies <==> a == assemblies[0] || a in tail;
      if FindType(assemblies[0].types, name).Some? {
        assert FirstDefining(assemblies, name, 0);
      } else {
        SearchAssembliesSpec(tail, name);
        if SearchAssemblies(tail, name).Some? {
          var k :| FirstDefining(tail, name, k) && SearchAssemblies(tail, name) == FindType(tail[k].types, name);
          assert FirstDefining(assemblies, name, k + 1);
        }
      }
    }
  }

  /** GetTypeFromAllAssemblies: Type.GetType wins; otherwise the first assembly
      declaring the name supplies the type; otherwise there is none. */
  function GetTypeFromAllAssemblies(d: Domain, name: string): Option<TypeDesc>
  {
    match d.getType(name)
    case Some(t) => Some(t)
    case None => SearchAssemblies(d.assemblies, name)
  }

  /** How a name is resolved: Type.GetType's answer wins; failing that, the
      name resolves exactly when some assembly declares it, and then to a type
      of that name declared by the first such assembly. */
  lemma ResolutionSpec(d: Domain, name: string)
    ensures var r := GetTypeFromAllAssemblies(d, name);
      && (d.getType(name).Some? ==> r == d.getType(name))
      && (d.getType(name).None? ==> (r.None? <==> forall a :: a in d.assemblies ==> !Defines(a, name)))
      && (d.getType(name).None? && r.Some? ==>
            r.value.fullName == name
            && exists k :: FirstDefining(d.assemblies, name, k) && r.value in d.assemblies[k].types)
  {
    SearchAssembliesSpec(d.assemblies, name);
  }

  /** Assembly.GetType rejects the empty name with ArgumentException. Type.GetType
      is asked first, so resolving "" throws exactly when Type.GetType found
      nothing and there is an assembly to ask; nothing in the pipeline catches it. */
  predicate ResolveThrows(d: Domain, name: string)
  {
    name == "" && d.getType(name).None? && d.assemblies != []
  }

  /** Every type Type.GetType answers with belongs to a loaded assembly; its full
      name may differ from the name asked for, as for an assembly-qualified name. */
  ghost predicate LookupsLoaded(d: Domain)
  {
    forall n :: d.getType(n).Some? ==> exists a :: a in d.assemblies && d.getType(n).value in a.types
  }

  // ---------------------------------------------------------------- restoring

  /** The types restored from some configured names, and what was logged meanwhile. */
  datatype Restored = Restored(types: seq<TypeDesc>, log: seq<Event>)

  /** One iteration of ApplyConfigData's loop. A resolved but invalid type goes
      through the validator twice, once for each branch condition. When the
      lookup throws, the iteration adds and logs nothing. */
  function RestoreName(d: Domain, name: string): Restored
  {
    if ResolveThrows(d, name) then Restored([], [])
    else match GetTypeFromAllAssemblies(d, name)
      case None => Restored([], [NotRestored(name)])
      case Some(t) =>
        if ValidateModuleType(t).ok then Restored([t], [])
        else
          var first := Warnings(ValidateModuleType(t).warnings);
          var second := Warnings(ValidateModuleType(t).warnings);
          Restored([], first + second + [FailedValidation(name)])
  }

  /** One configured name: a lookup that throws adds and logs nothing; a missing
      type is reported as not restored; a module type is kept; any other type
      is reported as failing validation, after the validator's own warning has
      been logged twice. */
  lemma RestoreNameSpec(d: Domain, name: string)
    ensures ResolveThrows(d, name) ==> RestoreName(d, name) == Restored([], [])
    ensures !ResolveThrows(d, name) ==>
      var r := RestoreName(d, name);
      match GetTypeFromAllAssemblies(d, name)
      case None => r == Restored([], [NotRestored(name)])
      case Some(t) =>
        && (IsEligible(t) ==> r == Restored([t], []))
        && (!IsEligible(t) ==> r.types == [] && |r.log| > 0 && r.log[|r.log| - 1] == FailedValidation(name))
        && (!IsEligible(t) && !t.hasModuleAttr ==> r.log == [FailedValidation(name)])
        && (!IsEligible(t) && t.hasModuleAttr ==>
              var w := if t.implementsModule then AbstractOrInterface(t.fullName) else MissingInterface(t.fullName);
              r.log == [Warned(w), Warned(w), FailedValidation(name)])
  {
  }

  /** The loop over `names` throws: one of them is the empty name and resolving
      it throws. */
  predicate RestoreAborts(d: Domain, names: seq<string>)
  {
    "" in names && ResolveThrows(d, "")
  }

  /** ApplyConfigData's loop over the configured names, in config order. It
      stops at the first name whose lookup throws. */
  function RestoreNames(d: Domain, names: seq<string>): (r: Restored)
    ensures |r.types| <= |names|
    ensures forall t :: t in r.types ==> IsEligible(t)
    decreases |names|
  {
    if names == [] then Restored([], [])
    else
      var init := names[..|names| - 1];
      var a := RestoreNames(d, init);
      if RestoreAborts(d, init) then a
      else
        var b := RestoreName(d, names[|names| - 1]);
        Restored(a.types + b.types, a.log + b.log)
  }

  /** What restoring keeps and drops: every restored type comes from a
      configured name; when the loop runs to the end, exactly the configured
      names that resolve to a module type are kept, an unresolvable name is
      logged as not restored and a resolvable but invalid one as failing
      validation. */
  lemma {:induction false} RestoreNamesSpec(d: Domain, names: seq<string>)
    ensures var r := RestoreNames(d, names);
      && (forall t :: t in r.types ==> exists n :: n in names && GetTypeFromAllAssemblies(d, n) == Some(t))
      && (!RestoreAborts(d, names) ==>
            && (forall n :: n in names && GetTypeFromAllAssemblies(d, n).Some? && IsEligible(GetTypeFromAllAssemblies(d, n).value)
                  ==> GetTypeFromAllAssemblies(d, n).value in r.types)
            && (forall n :: n in names && GetTypeFromAllAssemblies(d, n).None? ==> NotRestored(n) in r.log)
            && (forall n :: n in names && GetTypeFromAllAssemblies(d, n).Some? && !IsEligible(GetTypeFromAllAssemblies(d, n).value)
                  ==> FailedValidation(n) in r.log))
    decreases |names|
  {
    if names != [] {
      var init := names[..|names| - 1];
      var last := names[|names| - 1];
      assert forall n :: n in names <==> n in init || n == last;
      RestoreNamesSpec(d, init);
    }
  }

  /** When the loop throws, it throws at the first empty name: the outcome is
      that of the names before it, which run to the end. */
  lemma {:induction false} RestoreStopsAtEmpty(d: Domain, names: seq<string>, k: nat)
    requires k < |names| && names[k] == "" && "" !in names[..k]
    requires ResolveThrows(d, "")
    ensures RestoreNames(d, names) == RestoreNames(d, names[..k])
    ensures !RestoreAborts(d, names[..k])
    decreases |names|
  {
    var init := names[..|names| - 1];
    if k == |names| - 1 {
      assert init == names[..k];
      assert RestoreName(d, names[k]) == Restored([], []);
      assert RestoreNames(d, init).types + [] == RestoreNames(d, init).types;
      assert RestoreNames(d, init).log + [] == RestoreNames(d, init).log;
    } else {
      assert init[..k] == names[..k] && init[k] == "";
      RestoreStopsAtEmpty(d, init, k);
      assert "" in init;
    }
  }

  /** Restoring is done name by name, so it keeps config order: restoring a
      concatenation concatenates the restored types and the logs, unless the
      first part already throws. */
  lemma {:induction false} RestoreConcat(d: Domain, a: seq<string>, b: seq<string>)
    ensures RestoreAborts(d, a) ==> RestoreNames(d, a + b) == RestoreNames(d, a)
    ensures !RestoreAborts(d, a) ==>
      && RestoreNames(d, a + b).types == RestoreNames(d, a).types + RestoreNames(d, b).types
      && RestoreNames(d, a + b).log == RestoreNames(d, a).log + RestoreNames(d, b).log
    decreases |b|
  {
    if b == [] {
      assert a + b == a;
    } else {
      var b' := b[..|b| - 1];
      assert (a + b)[..|a + b| - 1] == a + b';
      assert (a + b)[|a + b| - 1] == b[|b| - 1];
      AbortsConcat(d, a, b');
      RestoreConcat(d, a, b');
      if !RestoreAborts(d, a) && !RestoreAborts(d, b') {
        var x := RestoreNames(d, a);
        var y := RestoreNames(d, b');
        var z := RestoreName(d, b[|b| - 1]);
        assert x.types + y.types + z.types == x.types + (y.types + z.types);
        assert x.log + y.log + z.log == x.log + (y.log + z.log);
      }
    }
  }

  lemma AbortsConcat(d: Domain, a: seq<string>, b: seq<string>)
    ensures RestoreAborts(d, a + b) <==> RestoreAborts(d, a) || RestoreAborts(d, b)
  {
    assert "" in a + b <==> "" in a || "" in b;
  }

  /** The reference reading of restoring: walk the names front to back, keep
      each name's type exactly when it resolves and is a module type, and stop
      at a name whose lookup throws. */
  function ResolvedModules(d: Domain, names: seq<string>): seq<TypeDesc>
    decreases |names|
  {
    if names == [] then []
    else if ResolveThrows(d, names[0]) then []
    else
      var head := match GetTypeFromAllAssemblies(d, names[0])
        case Some(t) => if IsEligible(t) then [t] else []
        case None => [];
      head + ResolvedModules(d, names[1..])
  }

  /** ApplyConfigData's loop restores exactly the names that resolve to module
      types, in config order, up to a name whose lookup throws. */
  lemma {:induction false} RestoreNamesFilters(d: Domain, names: seq<string>)
    ensures RestoreNames(d, names).types == ResolvedModules(d, names)
    decreases |names|
  {
    if names != [] {
      var n := names[0];
      assert names == [n] + names[1..];
      RestoreConcat(d, [n], names[1..]);
      assert RestoreNames(d, [n]) == RestoreName(d, n) by {
        assert [n][..0] == [];
        assert RestoreName(d, n).types == [] + RestoreName(d, n).types;
        assert RestoreName(d, n).log == [] + RestoreName(d, n).log;
      }
      RestoreNameSpec(d, n);
      if !ResolveThrows(d, n) {
        assert !RestoreAborts(d, [n]);
        RestoreNamesFilters(d, names[1..]);
      }
    }
  }

  /** The type names a registry is written back as, in registry order. */
  function FullNames(types: seq<TypeDesc>): (names: seq<string>)
    ensures |names| == |types|
    ensures forall i :: 0 <= i < |types| ==> names[i] == types[i].fullName
  {
    seq(|types|, i requires 0 <= i < |types| => types[i].fullName)
  }

  /** A registered type whose full name resolves back to itself, without the
      lookup throwing. */
  predicate ResolvesBack(d: Domain, t: TypeDesc)
  {
    !ResolveThrows(d, t.fullName) && GetTypeFromAllAssemblies(d, t.fullName) == Some(t)
  }

  /** The name round trip: a registry of module types whose names resolve back
      to themselves is restored exactly, and silently, from its own names. */
  lemma {:induction false} NamesRoundTrip(d: Domain, types: seq<TypeDesc>)
    requires forall t :: t in types ==> IsEligible(t) && ResolvesBack(d, t)
    ensures RestoreNames(d, FullNames(types)) == Restored(types, [])
    decreases |types|
  {
    if types != [] {
      var init := types[..|types| - 1];
      var last := types[|types| - 1];
      assert FullNames(types) == FullNames(init) + [last.fullName] by {
        assert types == init + [last];
        FullNamesSnoc(init, last);
      }
      assert RestoreNames(d, FullNames(init)) == Restored(init, []) by {
        assert forall t :: t in init ==> t in types;
        NamesRoundTrip(d, init);
      }
      assert !RestoreAborts(d, FullNames(init)) by {
        assert forall t :: t in init ==> t in types;
        ResolvingNamesDoNotThrow(d, init);
      }
      assert RestoreName(d, last.fullName) == Restored([last], []) by {
        assert last in types;
        RestoreNameSpec(d, last.fullName);
      }
      assert RestoreNames(d, FullNames(types)) == Restored(init + [last], []) by {
        RestoreSnoc(d, FullNames(init), last.fullName);
        var none: seq<Event> := [];
        assert none + none == none;
      }
      assert init + [last] == types;
    }
  }

  /** Names that resolve back without throwing never make the restore loop throw. */
  lemma ResolvingNamesDoNotThrow(d: Domain, types: seq<TypeDesc>)
    requires forall t :: t in types ==> ResolvesBack(d, t)
    ensures !RestoreAborts(d, FullNames(types))
  {
    if "" in FullNames(types) {
      var i :| 0 <= i < |types| && FullNames(types)[i] == "";
      assert types[i] in types;
    }
  }

  lemma FullNamesSnoc(types: seq<TypeDesc>, t: TypeDesc)
    ensures FullNames(types + [t]) == FullNames(types) + [t.fullName]
  {
  }

  /** Restoring one more name appends its outcome, unless the loop already threw. */
  lemma RestoreSnoc(d: Domain, names: seq<string>, n: string)
    ensures RestoreAborts(d, names) ==> RestoreNames(d, names + [n]) == RestoreNames(d, names)
    ensures !RestoreAborts(d, names) ==>
      RestoreNames(d, names + [n]) == Restored(RestoreNames(d, names).types + RestoreName(d, n).types,
                                               RestoreNames(d, names).log + RestoreName(d, n).log)
  {
    assert (names + [n])[..|names|] == names;
  }

  // ---------------------------------------------------------------- pipeline steps

  /** LoadConfig: the config is whatever the asset load produced; a failed
      load leaves it null and is logged. */
  function LoadConfig(s: State, loaded: Option<Config>): (s': State)
    ensures s'.config == loaded
    ensures s'.registered == s.registered && s'.instances == s.instances && s'.isInitialized == s.isInitialized
    ensures loaded.None? <==> s'.log == s.log + [ConfigLoadFailed]
    ensures loaded.Some? ==> s'.log == s.log
    ensures Valid(s) ==> Valid(s')
  {
    s.(config := loaded, log := if loaded.None? then s.log + [ConfigLoadFailed] else s.log)
  }

  /** After a successful load LoadConfig logs the size of the name list; when
      that list is null this throws NullReferenceException. Nothing catches it:
      Constructor and the entry point that awaited it end there. */
  predicate LoadThrows(loaded: Option<Config>)
  {
    loaded.Some? && loaded.value.names.None?
  }

  /** The configured name list makes ApplyConfigData's loop throw. */
  predicate RestoreThrows(d: Domain, loaded: Option<Config>)
  {
    loaded.Some? && loaded.value.names.Some? && RestoreAborts(d, loaded.value.names.value)
  }

  /** Constructor ends by an exception, in LoadConfig or in ApplyConfigData. */
  predicate ConstructorThrows(d: Domain, loaded: Option<Config>)
  {
    LoadThrows(loaded) || RestoreThrows(d, loaded)
  }

  /** ApplyConfigData: with a config and a name list, the registry becomes the
      restorable module types of the list; otherwise nothing changes. When the
      loop throws, this is the state the exception leaves: the registry holds
      what was restored before the empty name. */
  function ApplyConfigData(s: State, d: Domain): (s': State)
    ensures s.config.None? || s.config.value.names.None? ==> s' == s
    ensures s.config.Some? && s.config.value.names.Some? ==>
      var names := s.config.value.names.value;
      && (forall t :: t in s'.registered ==> IsEligible(t) && exists n :: n in names && GetTypeFromAllAssemblies(d, n) == Some(t))
      && (!RestoreAborts(d, names) ==>
            forall n :: n in names && GetTypeFromAllAssemblies(d, n).Some? && IsEligible(GetTypeFromAllAssemblies(d, n).value)
              ==> GetTypeFromAllAssemblies(d, n).value in s'.registered)
      && |s'.registered| <= |names|
    ensures s'.config == s.config && s'.instances == s.instances && s'.isInitialized == s.isInitialized
    ensures s'.initializedFired == s.initializedFired
    ensures Valid(s) ==> Valid(s')
  {
    if s.config.None? || s.config.value.names.None? then s
    else
      var r := RestoreNames(d, s.config.value.names.value);
      RestoreNamesSpec(d, s.config.value.names.value);
      s.(registered := r.types, log := s.log + r.log)
  }

  /** RegisterAllModules, on the state. */
  function RegisterStep(s: State, d: Domain): (s': State)
    ensures s'.registered == Discover(s.registered, ScannedTypes(d.assemblies))
    ensures s'.config == s.config && s'.instances == s.instances && s'.isInitialized == s.isInitialized
    ensures s'.initializedFired == s.initializedFired
    ensures Valid(s) ==> Valid(s')
  {
    var scanned := ScannedTypes(d.assemblies);
    DiscoverSpec(s.registered, scanned);
    s.(registered := Discover(s.registered, scanned), log := s.log + ScanLog(scanned, ValidateModuleType, Warn))
  }

  /** RegisterAllModules as the source writes it, a scan over every assembly
      and every type with a running count of new registrations. */
  method RegisterAllModules(registered: seq<TypeDesc>, assemblies: seq<Assembly>)
    returns (result: seq<TypeDesc>, count: nat, log: seq<Event>)
    ensures result == Discover(registered, ScannedTypes(assemblies))
    ensures log == ScanLog(ScannedTypes(assemblies), ValidateModuleType, Warn)
    ensures |result| == |registered| + count
    ensures result[..|registered|] == registered
    ensures forall i :: |registered| <= i < |result| ==>
      && IsEligible(result[i])
      && result[i] !in registered
      && exists a :: a in assemblies && !IsSkipped(a.fullName) && result[i] in a.types
  {
    result, count, log := registered, 0, [];
    var i := 0;
    while i < |assemblies|
      invariant 0 <= i <= |assemblies|
      invariant result == Discover(registered, ScannedTypes(assemblies[..i]))
      invariant log == ScanLog(ScannedTypes(assemblies[..i]), ValidateModuleType, Warn)
      invariant |result| == |registered| + count
    {
      var assembly := assemblies[i];
      ScannedTypesStep(assemblies, i);
      var done := ScannedTypes(assemblies[..i]);
      if !IsSkipped(assembly.fullName) {
        result, count, log := VisitTypes(result, count, log, assembly.types);
        DiscoverConcat(registered, done, assembly.types);
        ScanLogConcat(done, assembly.types, ValidateModuleType, Warn);
      } else {
        assert done + [] == done;
      }
      i := i + 1;
    }
    assert assemblies[..i] == assemblies;
    var scanned := ScannedTypes(assemblies);
    DiscoverSpec(registered, scanned);
    forall k | |registered| <= k < |result|
      ensures exists a :: a in assemblies && !IsSkipped(a.fullName) && result[k] in a.types
    {
      assert result[k] in scanned;
    }
  }

  /** The inner loop of RegisterAllModules: validate each type of one assembly
      in order, append the valid ones not yet registered, and count them. */
  method VisitTypes(result0: seq<TypeDesc>, count0: nat, log0: seq<Event>, types: seq<TypeDesc>)
    returns (result: seq<TypeDesc>, count: nat, log: seq<Event>)
    ensures result == Discover(result0, types)
    ensures log == log0 + ScanLog(types, ValidateModuleType, Warn)
    ensures |result| - |result0| == count - count0
  {
    result, count, log := result0, count0, log0;
    var j := 0;
    while j < |types|
      invariant 0 <= j <= |types|
      invariant result == Discover(result0, types[..j])
      invariant log == log0 + ScanLog(types[..j], ValidateModuleType, Warn)
      invariant |result| - |result0| == count - count0
    {
      var t := types[j];
      assert Discover(result0, types[..j + 1]) == Register(result, t)
          && ScanLog(types[..j + 1], ValidateModuleType, Warn) == ScanLog(types[..j], ValidateModuleType, Warn) + Warnings(ValidateModuleType(t).warnings) by {
        assert types[..j + 1] == types[..j] + [t];
        ScanStep(result0, types[..j], t);
      }
      var v := ValidateModuleType(t);
      log := log + Warnings(v.warnings);
      if v.ok && t !in result {
        result := result + [t];
        count := count + 1;
      }
      j := j + 1;
    }
    assert types[..j] == types;
  }

  /** Visiting one more assembly extends the scanned types by its types, unless it is skipped. */
  lemma ScannedTypesStep(assemblies: seq<Assembly>, i: nat)
    requires i < |assemblies|
    ensures ScannedTypes(assemblies[..i + 1])
      == ScannedTypes(assemblies[..i]) + (if IsSkipped(assemblies[i].fullName) then [] else assemblies[i].types)
  {
    assert assemblies[..i + 1][..i] == assemblies[..i];
  }

  /** Visiting one more type is one step of discovery and adds its warnings to the log. */
  lemma ScanStep(registered: seq<TypeDesc>, visited: seq<TypeDesc>, t: TypeDesc)
    ensures Discover(registered, visited + [t]) == Register(Discover(registered, visited), t)
    ensures ScanLog(visited + [t], ValidateModuleType, Warn) == ScanLog(visited, ValidateModuleType, Warn) + Warnings(ValidateModuleType(t).warnings)
  {
    assert (visited + [t])[..|visited|] == visited;
  }

  /** UpdateConfigWithModules: the config's name list becomes the registry's
      type names in registry order; without a config nothing happens. In an
      editor build the asset is then saved. */
  function UpdateConfigWithModules(s: State, d: Domain): (s': State)
    ensures s.config.None? ==> s' == s
    ensures s.config.Some? ==> s'.config == Some(Config(Some(FullNames(s.registered))))
    ensures s'.registered == s.registered && s'.instances == s.instances && s'.isInitialized == s.isInitialized
    ensures s'.initializedFired == s.initializedFired
    ensures s.config.Some? && d.editorBuild ==> s'.log == s.log + [ConfigSaved(|s.registered|)]
    ensures s.config.Some? && !d.editorBuild ==> s'.log == s.log
    ensures Valid(s) ==> Valid(s')
  {
    if s.config.None? then s
    else
      var saved := s.(config := Some(Config(Some(FullNames(s.registered)))));
      if d.editorBuild then saved.(log := s.log + [ConfigSaved(|s.registered|)]) else saved
  }

  /** The states Constructor passes through: after lowering the flag, after
      loading, after restoring, after discovering and after writing back. A
      load that throws ends the run after the second state, a restore loop
      that throws after the third. */
  function ConstructorSteps(s: State, d: Domain, loaded: Option<Config>): (trace: seq<State>)
    ensures |trace| == (if LoadThrows(loaded) then 2 else if RestoreThrows(d, loaded) then 3 else 5)
    ensures forall i :: 0 <= i < |trace| ==>
      && !trace[i].isInitialized
      && trace[i].initializedFired == s.initializedFired
      && trace[i].instances == s.instances
    ensures Valid(s) ==> forall i :: 0 <= i < |trace| ==> Valid(trace[i])
  {
    var s0 := s.(isInitialized := false);
    var s1 := LoadConfig(s0, loaded);
    if LoadThrows(loaded) then [s0, s1]
    else
      var s2 := ApplyConfigData(s1, d);
      if RestoreThrows(d, loaded) then [s0, s1, s2]
      else
        var s3 := RegisterStep(s2, d);
        var s4 := UpdateConfigWithModules(s3, d);
        [s0, s1, s2, s3, s4]
  }

  /** The state Constructor ends in, normally or by the exception. */
  function Constructor(s: State, d: Domain, loaded: Option<Config>): (s': State)
    ensures !s'.isInitialized
    ensures s'.instances == s.instances && s'.initializedFired == s.initializedFired
    ensures LoadThrows(loaded) ==> s'.registered == s.registered && s'.config == loaded && s'.log == s.log
    ensures RestoreThrows(d, loaded) ==>
      var restored := RestoreNames(d, loaded.value.names.value);
      s'.registered == restored.types && s'.config == loaded && s'.log == s.log + restored.log
    ensures !ConstructorThrows(d, loaded) ==>
      s'.config == (if loaded.Some? then Some(Config(Some(FullNames(s'.registered)))) else None)
    ensures !ConstructorThrows(d, loaded) ==>
      var scanned := ScannedTypes(d.assemblies);
      if loaded.Some?
      then s'.registered == Discover(RestoreNames(d, loaded.value.names.value).types, scanned)
      else s'.registered == Discover(s.registered, scanned)
  {
    var trace := ConstructorSteps(s, d, loaded);
    trace[|trace| - 1]
  }

  /** Restored entries come first and discovered ones after them. */
  lemma ConstructorRestoresThenDiscovers(s: State, d: Domain, names: seq<string>)
    ensures var s' := Constructor(s, d, Some(Config(Some(names))));
      var restored := RestoreNames(d, names).types;
      && restored <= s'.registered
      && (RestoreAborts(d, names) ==> s'.registered == restored && s'.config == Some(Config(Some(names))))
      && (!RestoreAborts(d, names) ==>
            s'.config == Some(Config(Some(FullNames(s'.registered)))) && FullNames(restored) <= s'.config.value.names.value)
      && forall i :: |restored| <= i < |s'.registered| ==>
           IsEligible(s'.registered[i]) && s'.registered[i] !in restored && s'.registered[i] in ScannedTypes(d.assemblies)
  {
    var s' := Constructor(s, d, Some(Config(Some(names))));
    var restored := RestoreNames(d, names).types;
    if !RestoreAborts(d, names) {
      DiscoverSpec(restored, ScannedTypes(d.assemblies));
      assert FullNames(s'.registered)[..|restored|] == FullNames(restored);
    }
  }

  // ---------------------------------------------------------------- instantiation

  /** The dictionary after instantiating some registered types, and what was logged. */
  datatype Instantiated = Instantiated(instances: map<TypeDesc, Option<Instance>>, log: seq<Event>)

  /** One iteration of InstantiateModules. Creation may throw; Dictionary.Add
      throws on a key already present; a created object that is not an
      IUDMModule is stored as null and the following log line throws. Every
      exception is caught and logged. */
  function InstantiateOne(m: map<TypeDesc, Option<Instance>>, t: TypeDesc): Instantiated
  {
    if CreateInstanceThrows(t) then Instantiated(m, [CreateFailed(t)])
    else if t in m then Instantiated(m, [CreateFailed(t)])
    else if !t.implementsModule then Instantiated(m[t := None], [CreateFailed(t)])
    else Instantiated(m[t := Some(Instance(t))], [])
  }

  /** InstantiateModules: one attempt per registered type, in registry order,
      into the existing dictionary; a failure never stops the loop. */
  function InstantiateModules(registered: seq<TypeDesc>, m: map<TypeDesc, Option<Instance>>): (r: Instantiated)
    ensures forall t :: t in r.instances <==> t in m || (t in registered && !CreateInstanceThrows(t))
    ensures forall t :: t in m ==> r.instances[t] == m[t]
    ensures forall t :: t in r.instances && t !in m ==>
      r.instances[t] == (if t.implementsModule then Some(Instance(t)) else None)
    ensures forall e :: e in r.log ==> e.CreateFailed? && e.failed in registered
    ensures forall t :: t in registered && CreateInstanceThrows(t) ==> CreateFailed(t) in r.log
    ensures |r.log| <= |registered|
    decreases |registered|
  {
    if registered == [] then Instantiated(m, [])
    else
      var init := registered[..|registered| - 1];
      var last := registered[|registered| - 1];
      assert forall t :: t in registered ==> t in init || t == last;
      var a := InstantiateModules(init, m);
      var b := InstantiateOne(a.instances, last);
      Instantiated(b.instances, a.log + b.log)
  }

  /** Every failed attempt is logged: a type whose key is already in the
      dictionary, every later occurrence of a type registered more than once
      (Dictionary.Add throws), and a type whose instance is not an IUDMModule
      (the log line after the null store throws). */
  lemma InstantiateLogsFailures(registered: seq<TypeDesc>, m: map<TypeDesc, Option<Instance>>)
    ensures var r := InstantiateModules(registered, m);
      && (forall t :: t in registered && t in m ==> CreateFailed(t) in r.log)
      && (forall i, j :: 0 <= i < j < |registered| && registered[i] == registered[j] ==> CreateFailed(registered[j]) in r.log)
      && (forall t :: t in registered && !t.implementsModule ==> CreateFailed(t) in r.log)
  {
    forall j | 0 <= j < |registered| && (registered[j] in m || !registered[j].implementsModule)
      ensures CreateFailed(registered[j]) in InstantiateModules(registered, m).log
    {
      AttemptLogged(registered, m, j);
    }
    forall i, j | 0 <= i < j < |registered| && registered[i] == registered[j]
      ensures CreateFailed(registered[j]) in InstantiateModules(registered, m).log
    {
      assert registered[..j][i] == registered[j];
      AttemptLogged(registered, m, j);
    }
  }

  /** The attempt at position `j` fails, and is logged, when construction
      throws, the key is already present, the same type came earlier, or the
      instance is not an IUDMModule. */
  lemma {:induction false} AttemptLogged(registered: seq<TypeDesc>, m: map<TypeDesc, Option<Instance>>, j: nat)
    requires j < |registered|
    requires var t := registered[j];
      CreateInstanceThrows(t) || t in m || t in registered[..j] || !t.implementsModule
    ensures CreateFailed(registered[j]) in InstantiateModules(registered, m).log
    decreases |registered|
  {
    var init := registered[..|registered| - 1];
    var last := registered[|registered| - 1];
    var a := InstantiateModules(init, m);
    assert InstantiateModules(registered, m).log == a.log + InstantiateOne(a.instances, last).log;
    if j == |registered| - 1 {
      assert registered[..j] == init;
      LastAttemptLogged(init, m, last);
    } else {
      assert init[..j] == registered[..j] && init[j] == registered[j];
      AttemptLogged(init, m, j);
    }
  }

  /** The attempt after `init` fails, and is logged, under the same four causes. */
  lemma LastAttemptLogged(init: seq<TypeDesc>, m: map<TypeDesc, Option<Instance>>, t: TypeDesc)
    requires CreateInstanceThrows(t) || t in m || t in init || !t.implementsModule
    ensures CreateFailed(t) in InstantiateOne(InstantiateModules(init, m).instances, t).log
  {
  }

  /** Partial-failure accounting: from an empty dictionary and a registry of
      distinct module types, every type ends up either instantiated or logged
      as failed, never both and never neither. */
  lemma {:induction false} InstantiateAccounting(registered: seq<TypeDesc>)
    requires NoDuplicates(registered)
    requires forall t :: t in registered ==> IsEligible(t)
    ensures var r := InstantiateModules(registered, map[]);
      && |r.instances| + |r.log| == |registered|
      && forall t :: t in registered ==> (t in r.instances <==> CreateFailed(t) !in r.log)
    decreases |registered|
  {
    if registered != [] {
      var init := registered[..|registered| - 1];
      var last := registered[|registered| - 1];
      assert forall t :: t in init ==> t in registered;
      InstantiateAccounting(init);
      var a := InstantiateModules(init, map[]);
      assert last !in init;
      assert last !in a.instances;
      assert CreateFailed(last) !in a.log;
      if !CreateInstanceThrows(last) {
        assert a.instances[last := Some(Instance(last))].Keys == a.instances.Keys + {last};
      }
    }
  }

  /** GetModule: a pure lookup, null when the type has no entry. */
  function GetModule(instances: map<TypeDesc, Option<Instance>>, t: TypeDesc): (r: Option<Instance>)
    ensures t !in instances ==> r == None
    ensures t in instances ==> r == instances[t]
  {
    if t in instances then instances[t] else None
  }

  /** GetModule<TModule>: the lookup by typeof(TModule), then a cast that
      yields null unless the instance is of that type. */
  function GetModuleAs(instances: map<TypeDesc, Option<Instance>>, t: TypeDesc): (r: Option<Instance>)
    ensures r.Some? <==> t in instances && instances[t] == Some(Instance(t))
    ensures r.Some? ==> r == Some(Instance(t))
  {
    match GetModule(instances, t)
    case Some(i) => if i.of == t then Some(i) else None
    case None => None
  }

  /** In a valid state the typed lookup always agrees with the untyped one. */
  lemma GetModuleAsAgrees(s: State, t: TypeDesc)
    requires Valid(s)
    ensures GetModuleAs(s.instances, t) == GetModule(s.instances, t)
  {
  }

  // ---------------------------------------------------------------- entry points

  /** RuntimeInit: Constructor, then InstantiateModules, then the flag is raised
      and the Initialized event fires. Returns every state an observer can see.
      When Constructor throws, the run stops inside it: nothing is
      instantiated, the flag stays down and the event never fires. */
  function RuntimeInit(s: State, d: Domain, loaded: Option<Config>): (trace: seq<State>)
    ensures |trace| == (if LoadThrows(loaded) then 2 else if RestoreThrows(d, loaded) then 3 else 7)
    ensures forall i :: 0 <= i < |trace| - 1 ==> !trace[i].isInitialized && trace[i].initializedFired == s.initializedFired
    ensures trace[|trace| - 1].isInitialized <==> !ConstructorThrows(d, loaded)
    ensures trace[|trace| - 1].initializedFired == s.initializedFired + (if ConstructorThrows(d, loaded) then 0 else 1)
    ensures ConstructorThrows(d, loaded) ==> trace[|trace| - 1].instances == s.instances
    ensures forall t :: t in trace[|trace| - 1].instances ==> t in s.instances || t in trace[|trace| - 1].registered
  {
    var c := ConstructorSteps(s, d, loaded);
    if ConstructorThrows(d, loaded) then c
    else
      var r := InstantiateModules(c[4].registered, c[4].instances);
      var s5 := c[4].(instances := r.instances, log := c[4].log + r.log);
      var s6 := s5.(isInitialized := true, initializedFired := s5.initializedFired + 1);
      [c[0], c[1], c[2], c[3], c[4], s5, s6]
  }

  /** EditorInit, which only an editor build compiles: skipped while entering
      play mode; otherwise Constructor, then the flag is raised and the event
      fires, without instantiating anything. An exception ends it inside
      Constructor, as in RuntimeInit. */
  function EditorInit(s: State, d: Domain, loaded: Option<Config>, isPlayingOrWillChangePlaymode: bool): (trace: seq<State>)
    requires d.editorBuild
    ensures isPlayingOrWillChangePlaymode ==> trace == [s]
    ensures !isPlayingOrWillChangePlaymode ==>
      && |trace| == (if LoadThrows(loaded) then 2 else if RestoreThrows(d, loaded) then 3 else 6)
      && (forall i :: 0 <= i < |trace| - 1 ==> !trace[i].isInitialized && trace[i].initializedFired == s.initializedFired)
      && (trace[|trace| - 1].isInitialized <==> !ConstructorThrows(d, loaded))
      && trace[|trace| - 1].initializedFired == s.initializedFired + (if ConstructorThrows(d, loaded) then 0 else 1)
      && trace[|trace| - 1].instances == s.instances
  {
    if isPlayingOrWillChangePlaymode then [s]
    else
      var c := ConstructorSteps(s, d, loaded);
      if ConstructorThrows(d, loaded) then c
      else [c[0], c[1], c[2], c[3], c[4], c[4].(isInitialized := true, initializedFired := s.initializedFired + 1)]
  }

  // ---------------------------------------------------------------- properties of the pipeline

  /** Every state a run passes through is valid when the run starts valid. */
  lemma RuntimeInitKeepsValid(s: State, d: Domain, loaded: Option<Config>)
    requires Valid(s)
    ensures forall i :: 0 <= i < |RuntimeInit(s, d, loaded)| ==> Valid(RuntimeInit(s, d, loaded)[i])
  {
    var c := ConstructorSteps(s, d, loaded);
    if !ConstructorThrows(d, loaded) {
      InstantiateKeepsValid(c[4]);
    }
  }

  /** Instantiating the registry of a valid state keeps the dictionary valid. */
  lemma InstantiateKeepsValid(s: State)
    requires Valid(s)
    ensures Valid(s.(instances := InstantiateModules(s.registered, s.instances).instances))
  {
  }

  /** After RuntimeInit from an empty dictionary, GetModule finds an instance
      exactly for the registered types whose construction succeeds, unless
      Constructor threw, in which case it finds nothing. */
  lemma GetModuleAfterRuntimeInit(s: State, d: Domain, loaded: Option<Config>, t: TypeDesc)
    requires Valid(s) && s.instances == map[]
    ensures var trace := RuntimeInit(s, d, loaded);
      var last := trace[|trace| - 1];
      && (GetModule(last.instances, t).Some? <==> !ConstructorThrows(d, loaded) && t in last.registered && !CreateInstanceThrows(t))
      && (GetModule(last.instances, t).Some? ==> GetModule(last.instances, t) == Some(Instance(t)))
  {
    RuntimeInitKeepsValid(s, d, loaded);
    var trace := RuntimeInit(s, d, loaded);
    if !ConstructorThrows(d, loaded) {
      assert trace[6].registered == trace[4].registered;
    }
  }

  /** In edit mode, from an empty dictionary: once the flag is up and the event
      has fired, GetModule still returns null for every type, because the
      editor entry point never instantiates. */
  lemma GetModuleAfterEditorInit(s: State, d: Domain, loaded: Option<Config>, t: TypeDesc)
    requires d.editorBuild && s.instances == map[]
    ensures var trace := EditorInit(s, d, loaded, false);
      var last := trace[|trace| - 1];
      && (last.isInitialized <==> !ConstructorThrows(d, loaded))
      && GetModule(last.instances, t) == None
  {
  }

  /** Reconciling twice over an unchanged catalog: when every registered type
      resolves back from its full name, a second Constructor that loads the
      saved config, in any state, ends with the same registry and config. */
  lemma ReconcileIdempotent(s: State, s2: State, d: Domain, names: seq<string>)
    requires var s1 := Constructor(s, d, Some(Config(Some(names))));
      forall t :: t in s1.registered ==> ResolvesBack(d, t)
    ensures var s1 := Constructor(s, d, Some(Config(Some(names))));
      var again := Constructor(s2, d, s1.config);
      again.registered == s1.registered && again.config == s1.config
  {
    var s1 := Constructor(s, d, Some(Config(Some(names))));
    if !RestoreAborts(d, names) {
      var scanned := ScannedTypes(d.assemblies);
      DiscoverSpec(RestoreNames(d, names).types, scanned);
      assert forall t :: t in s1.registered ==> IsEligible(t);
      NamesRoundTrip(d, s1.registered);
      ResolvingNamesDoNotThrow(d, s1.registered);
      DiscoverIdempotent(RestoreNames(d, names).types, scanned);
    }
  }

  /** Self-healing: a configured name that resolves to nothing is absent from
      the registry and, when the run completes, from the config written back
      by the same Constructor run. When the restore loop throws, the config
      keeps the names it was loaded with. */
  lemma SelfHealing(s: State, d: Domain, names: seq<string>, missing: string)
    requires LookupsLoaded(d)
    requires GetTypeFromAllAssemblies(d, missing).None?
    ensures var s' := Constructor(s, d, Some(Config(Some(names))));
      && (forall t :: t in s'.registered ==> t.fullName != missing)
      && (!RestoreAborts(d, names) ==> missing !in s'.config.value.names.value)
      && (RestoreAborts(d, names) ==> s'.config == Some(Config(Some(names))))
  {
    var s' := Constructor(s, d, Some(Config(Some(names))));
    var restored := RestoreNames(d, names).types;
    RestoreNamesSpec(d, names);
    ResolutionSpec(d, missing);
    DiscoverSpec(restored, ScannedTypes(d.assemblies));
    forall t | t in s'.registered
      ensures t.fullName != missing
    {
      var a: Assembly;
      if t in restored {
        var n :| n in names && GetTypeFromAllAssemblies(d, n) == Some(t);
        ResolutionSpec(d, n);
        if d.getType(n).Some? {
          a :| a in d.assemblies && t in a.types;
        } else {
          var k :| FirstDefining(d.assemblies, n, k) && t in d.assemblies[k].types;
          a := d.assemblies[k];
        }
      } else {
        assert t in ScannedTypes(d.assemblies);
        a :| a in d.assemblies && !IsSkipped(a.fullName) && t in a.types;
      }
      assert Defines(a, t.fullName);
    }
  }
}
