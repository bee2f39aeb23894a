/**
 * Concrete runs of the current initializer on small catalogs.
 */
module Scenarios {
  import opened Catalog
  import opened Registry
  import opened Core

  const A := TypeDesc("Game.A", "Game", true, true, false, false, false)
  const B := TypeDesc("Game.B", "Game", true, true, true, false, false)
  const C := TypeDesc("Game.C", "Game", true, true, false, false, false)
  const D := TypeDesc("Tools.D", "UnityTools", true, true, false, false, false)
  const Broken := TypeDesc("Game.Broken", "Game", true, true, false, false, true)

  const GameAB := Assembly("Game", [A, B])
  const GameCA := Assembly("Game", [C, A])
  const UnityTools := Assembly("UnityTools", [D])

  function NoDirectLookup(name: string): Option<TypeDesc> { None }

  const DomainAB := Domain([GameAB], NoDirectLookup, false)
  const DomainCA := Domain([GameCA, UnityTools], NoDirectLookup, true)

  /** Constructor is its four steps applied in turn. */
  lemma ConstructorUnfold(s: State, d: Domain, loaded: Option<Config>)
    requires !ConstructorThrows(d, loaded)
    ensures Constructor(s, d, loaded)
      == UpdateConfigWithModules(RegisterStep(ApplyConfigData(LoadConfig(s.(isInitialized := false), loaded), d), d), d)
  {
  }

  lemma ResolveAB()
    ensures GetTypeFromAllAssemblies(DomainAB, "Game.A") == Some(A)
    ensures GetTypeFromAllAssemblies(DomainAB, "Game.B") == Some(B)
    ensures GetTypeFromAllAssemblies(DomainAB, "Ghost") == None
  {
    assert FindType([A, B], "Game.A") == Some(A);
    assert FindType([A, B], "Game.B") == Some(B);
    assert FindType([A, B], "Ghost") == None;
    assert [GameAB][1..] == [];
    assert SearchAssemblies([GameAB], "Ghost") == SearchAssemblies([], "Ghost") == None;
  }

  lemma RestoreEachAB()
    ensures RestoreName(DomainAB, "Game.A") == Restored([A], [])
    ensures RestoreName(DomainAB, "Game.B")
      == Restored([], [Warned(AbstractOrInterface("Game.B")), Warned(AbstractOrInterface("Game.B")), FailedValidation("Game.B")])
    ensures RestoreName(DomainAB, "Ghost") == Restored([], [NotRestored("Ghost")])
  {
    ResolveAB();
    assert Warnings(ValidateModuleType(B).warnings) == [Warned(AbstractOrInterface("Game.B"))];
  }

  lemma RestoreAB()
    ensures RestoreNames(DomainAB, ["Game.A", "Game.B"])
      == Restored([A], [Warned(AbstractOrInterface("Game.B")), Warned(AbstractOrInterface("Game.B")), FailedValidation("Game.B")])
  {
    RestoreEachAB();
    assert RestoreNames(DomainAB, ["Game.A"]) == Restored([A], []) by {
      RestoreSnoc(DomainAB, [], "Game.A");
      assert [] + ["Game.A"] == ["Game.A"];
    }
    assert !RestoreAborts(DomainAB, ["Game.A"]);
    RestoreSnoc(DomainAB, ["Game.A"], "Game.B");
    assert ["Game.A"] + ["Game.B"] == ["Game.A", "Game.B"];
  }

  lemma RestoreABGhost()
    ensures RestoreNames(DomainAB, ["Game.A", "Game.B", "Ghost"])
      == Restored([A], [ Warned(AbstractOrInterface("Game.B")), Warned(AbstractOrInterface("Game.B")),
                         FailedValidation("Game.B"), NotRestored("Ghost") ])
  {
    RestoreEachAB();
    RestoreAB();
    RestoreSnoc(DomainAB, ["Game.A", "Game.B"], "Ghost");
    assert ["Game.A", "Game.B"] + ["Ghost"] == ["Game.A", "Game.B", "Ghost"];
  }

  lemma ScannedAB()
    ensures ScannedTypes([GameAB]) == [A, B]
  {
    ScannedTypesStep([GameAB], 0);
    assert [GameAB][..1] == [GameAB] && [GameAB][..0] == [];
  }

  lemma ScanLogAB()
    ensures ScanLog([A, B], ValidateModuleType, Warn) == [Warned(AbstractOrInterface("Game.B"))]
  {
    assert Warnings(ValidateModuleType(B).warnings) == [Warned(AbstractOrInterface("Game.B"))];
    assert Warnings(ValidateModuleType(A).warnings) == [];
    ScanStep([A], [], A);
    assert [] + [A] == [A];
    ScanStep([A], [A], B);
    assert [A] + [B] == [A, B];
  }

  lemma DiscoverAB()
    ensures Discover([A], [A, B]) == [A]
  {
    assert !IsEligible(B);
    ScanStep([A], [], A);
    assert [] + [A] == [A];
    ScanStep([A], [A], B);
    assert [A] + [B] == [A, B];
  }

  const ConfigABGhost := Some(Config(Some(["Game.A", "Game.B", "Ghost"])))
  const AfterRestoreABGhost := State([A], map[], ConfigABGhost, false, 0,
    [ Warned(AbstractOrInterface("Game.B")), Warned(AbstractOrInterface("Game.B")),
      FailedValidation("Game.B"), NotRestored("Ghost") ])

  lemma ApplyABGhost()
    ensures ApplyConfigData(LoadConfig(Initial().(isInitialized := false), ConfigABGhost), DomainAB) == AfterRestoreABGhost
  {
    assert LoadConfig(Initial().(isInitialized := false), ConfigABGhost) == State([], map[], ConfigABGhost, false, 0, []);
    RestoreABGhost();
  }

  lemma RegisterAB(s: State)
    requires s.registered == [A]
    ensures RegisterStep(s, DomainAB) == s.(log := s.log + [Warned(AbstractOrInterface("Game.B"))])
  {
    ScannedAB();
    ScanLogAB();
    DiscoverAB();
  }

  /** A config naming a module, an abstract tagged type and a type that no longer
      exists restores only the module; the abstract type is warned about twice
      while restoring and once more while scanning. */
  lemma RestoreDropsInvalidAndMissing()
    ensures var s := Constructor(Initial(), DomainAB, ConfigABGhost);
      && s.registered == [A]
      && s.config == Some(Config(Some(["Game.A"])))
      && s.log == [ Warned(AbstractOrInterface("Game.B")), Warned(AbstractOrInterface("Game.B")),
                    FailedValidation("Game.B"), NotRestored("Ghost"), Warned(AbstractOrInterface("Game.B")) ]
  {
    ConstructorUnfold(Initial(), DomainAB, ConfigABGhost);
    ApplyABGhost();
    RegisterAB(AfterRestoreABGhost);
    assert FullNames([A]) == ["Game.A"];
  }

  lemma ScannedCA()
    ensures ScannedTypes([GameCA, UnityTools]) == [C, A]
  {
    assert IsSkipped("UnityTools") by {
      assert "UnityTools"[..5] == "Unity";
    }
    assert ScannedTypes([GameCA]) == [C, A] by {
      ScannedTypesStep([GameCA], 0);
      assert [GameCA][..1] == [GameCA] && [GameCA][..0] == [];
    }
    ScannedTypesStep([GameCA, UnityTools], 1);
    assert [GameCA, UnityTools][..2] == [GameCA, UnityTools];
    assert [GameCA, UnityTools][..1] == [GameCA];
  }

  lemma DiscoverCA()
    ensures Discover([A], [C, A]) == [A, C]
  {
    ScanStep([A], [], C);
    assert [] + [C] == [C];
    ScanStep([A], [C], A);
    assert [C] + [A] == [C, A];
  }

  lemma RestoreA()
    ensures RestoreNames(DomainCA, ["Game.A"]).types == [A]
  {
    assert FindType([C, A], "Game.A") == Some(A);
    assert GetTypeFromAllAssemblies(DomainCA, "Game.A") == Some(A);
    RestoreSnoc(DomainCA, [], "Game.A");
    assert [] + ["Game.A"] == ["Game.A"];
  }

  lemma ApplyA()
    ensures ApplyConfigData(LoadConfig(Initial().(isInitialized := false), Some(Config(Some(["Game.A"])))), DomainCA).registered == [A]
  {
    RestoreA();
  }

  lemma RegisterCA(s: State)
    requires s.registered == [A]
    ensures RegisterStep(s, DomainCA).registered == [A, C]
  {
    ScannedCA();
    DiscoverCA();
  }

  /** A module missing from the config is appended after the restored ones; one
      in an assembly whose name starts with "Unity" is never discovered. */
  lemma DiscoveryAppendsAfterRestored()
    ensures var s := Constructor(Initial(), DomainCA, Some(Config(Some(["Game.A"]))));
      && s.registered == [A, C]
      && s.config == Some(Config(Some(["Game.A", "Game.C"])))
      && D !in s.registered
  {
    var loaded := Some(Config(Some(["Game.A"])));
    ConstructorUnfold(Initial(), DomainCA, loaded);
    ApplyA();
    RegisterCA(ApplyConfigData(LoadConfig(Initial().(isInitialized := false), loaded), DomainCA));
    assert FullNames([A, C]) == ["Game.A", "Game.C"];
  }

  lemma InstantiateABrokenC()
    ensures InstantiateModules([A, Broken, C], map[])
      == Instantiated(map[A := Some(Instance(A)), C := Some(Instance(C))], [CreateFailed(Broken)])
  {
    var reg := [A, Broken, C];
    assert reg[..2] == [A, Broken] && reg[..2][..1] == [A] && reg[..1][..0] == [];
    assert InstantiateModules([A], map[]) == Instantiated(map[A := Some(Instance(A))], []);
    assert InstantiateModules([A, Broken], map[]) == Instantiated(map[A := Some(Instance(A))], [CreateFailed(Broken)]);
  }

  /** One throwing constructor among three modules: the other two are
      instantiated, the failing one is only logged, and the flag is raised. */
  lemma OneBrokenModule()
    ensures var s := State([A, Broken, C], map[], None, false, 0, []);
      var last := RuntimeInit(s, Domain([], NoDirectLookup, false), None)[6];
      && last.instances == map[A := Some(Instance(A)), C := Some(Instance(C))]
      && last.isInitialized && last.initializedFired == 1
      && CreateFailed(Broken) in last.log
  {
    var s := State([A, Broken, C], map[], None, false, 0, []);
    var c := ConstructorSteps(s, Domain([], NoDirectLookup, false), None);
    assert c[4].registered == [A, Broken, C] && c[4].instances == map[] by {
      assert ScannedTypes([]) == [];
    }
    InstantiateABrokenC();
  }

  /** With nothing registered the flag is still raised and the event fires once. */
  lemma EmptyRegistryStillReady()
    ensures var last := RuntimeInit(Initial(), Domain([], NoDirectLookup, false), None)[6];
      last.isInitialized && last.initializedFired == 1 && last.instances == map[]
  {
    assert ScannedTypes([]) == [];
  }

  /** A loaded config whose name list is null: logging the list's size throws,
      so nothing is restored, discovered, written back or instantiated, and the
      flag is never raised. */
  lemma NullNameListAborts()
    ensures var trace := RuntimeInit(Initial(), DomainAB, Some(Config(None)));
      var last := trace[|trace| - 1];
      && |trace| == 2
      && !last.isInitialized && last.initializedFired == 0
      && last.registered == [] && last.instances == map[]
      && last.config == Some(Config(None)) && last.log == []
  {
  }

  /** A config listing the empty name: resolving it throws inside
      ApplyConfigData after the registry was cleared, so only the names before
      it are restored, nothing is discovered or written back, nothing is
      instantiated, and the flag is never raised. */
  lemma EmptyNameAborts()
    ensures var loaded := Some(Config(Some(["Game.A", "", "Game.B"])));
      var trace := RuntimeInit(State([C], map[], None, false, 0, []), DomainAB, loaded);
      var last := trace[|trace| - 1];
      && |trace| == 3
      && last.registered == [A] && last.config == loaded && last.log == []
      && !last.isInitialized && last.initializedFired == 0 && last.instances == map[]
  {
    var names := ["Game.A", "", "Game.B"];
    assert ResolveThrows(DomainAB, "");
    assert RestoreNames(DomainAB, names) == Restored([A], []) by {
      assert names[..1] == ["Game.A"];
      RestoreStopsAtEmpty(DomainAB, names, 1);
      RestoreEachAB();
      RestoreSnoc(DomainAB, [], "Game.A");
      assert [] + ["Game.A"] == ["Game.A"];
    }
    assert RestoreThrows(DomainAB, Some(Config(Some(names))));
  }

  /** A name listed twice in the config is restored twice. */
  lemma DuplicateConfigNameKept()
    ensures RestoreNames(DomainAB, ["Game.A", "Game.A"]).types == [A, A]
  {
    RestoreEachAB();
    assert RestoreNames(DomainAB, ["Game.A"]) == Restored([A], []) by {
      RestoreSnoc(DomainAB, [], "Game.A");
      assert [] + ["Game.A"] == ["Game.A"];
    }
    assert !RestoreAborts(DomainAB, ["Game.A"]);
    RestoreSnoc(DomainAB, ["Game.A"], "Game.A");
    assert ["Game.A"] + ["Game.A"] == ["Game.A", "Game.A"];
  }

  /** A registry holding a type twice: the second Dictionary.Add throws, is
      logged, and the first instance stays. */
  lemma DuplicateRegistrationLogged()
    ensures InstantiateModules([A, A], map[]) == Instantiated(map[A := Some(Instance(A))], [CreateFailed(A)])
  {
    assert [A, A][..1] == [A] && [A][..0] == [];
    var first := InstantiateModules([A], map[]);
    assert first == Instantiated(map[A := Some(Instance(A))], []) by {
      assert InstantiateModules([], map[]) == Instantiated(map[], []);
    }
  }
}
