/**
 * The older initializer (UDM_Core): it keeps its registry only in memory,
 * revalidates it and then scans for new module types; instantiation is a
 * separate convenience call that returns a list.
 *
 * It differs from the current initializer in three observable ways: its
 * validator stays silent about abstract types and interfaces, its revalidation
 * removes at most one type per call, and its instances come back as a list.
 */
module LegacyCore {
  import opened Catalog
  import opened Registry
  import Core

  /** Diagnostics written to the console, as tags. */
  datatype Event =
    | Warned(warning: Warning)
    | Deregistered(removed: TypeDesc)
    | CreateFailed(failed: TypeDesc)

  /** A validator warning as a console event. */
  function Warn(w: Warning): Event
  {
    Warned(w)
  }

  /** ValidateModuleType: accepts exactly the eligible types, but warns only
      about a tagged type that does not implement IUDMModule. */
  function ValidateModuleType(t: TypeDesc): (v: Verdict)
    ensures v.ok <==> IsEligible(t)
    ensures v.warnings != [] <==> t.hasModuleAttr && !t.implementsModule
    ensures v.warnings != [] ==> v.warnings == [MissingInterface(t.fullName)]
  {
    if !t.hasModuleAttr then Verdict(false, [])
    else if !t.implementsModule then Verdict(false, [MissingInterface(t.fullName)])
    else if t.isAbstract || t.isInterface then Verdict(false, [])
    else Verdict(true, [])
  }

  /** The two validators accept the same types; the older one's warnings are a
      prefix of the newer one's, and they differ exactly on tagged abstract
      types and interfaces that implement IUDMModule. */
  lemma ValidatorsCompared(t: TypeDesc)
    ensures ValidateModuleType(t).ok == Core.ValidateModuleType(t).ok
    ensures ValidateModuleType(t).warnings <= Core.ValidateModuleType(t).warnings
    ensures ValidateModuleType(t).warnings != Core.ValidateModuleType(t).warnings
      <==> t.hasModuleAttr && t.implementsModule && (t.isAbstract || t.isInterface)
  {
  }

  // ---------------------------------------------------------------- revalidation

  /** The position of the first registered type that is not a module. */
  function FirstIneligible(registered: seq<TypeDesc>): (r: Option<nat>)
    ensures r.None? <==> forall i :: 0 <= i < |registered| ==> IsEligible(registered[i])
    ensures r.Some? ==>
      && r.value < |registered|
      && !IsEligible(registered[r.value])
      && forall j :: 0 <= j < r.value ==> IsEligible(registered[j])
    decreases |registered|
  {
    if registered == [] then None
    else if !IsEligible(registered[0]) then Some(0)
    else match FirstIneligible(registered[1..])
      case None => None
      case Some(i) => Some(i + 1)
  }

  /** The answer of a revalidation, the registry it leaves and what it logged. */
  datatype Revalidation = Revalidation(ok: bool, registered: seq<TypeDesc>, log: seq<Event>)

  /** ValidateRegisteredModules: walks a copy of the registry and, at the first
      type that fails validation, removes that type and returns false at once.
      List.Remove drops the first equal entry, which is this one, since every
      earlier entry passed validation. */
  function ValidateRegisteredModules(registered: seq<TypeDesc>): (r: Revalidation)
    ensures r.ok <==> forall t :: t in registered ==> IsEligible(t)
    ensures r.ok ==> r.registered == registered && r.log == []
    ensures !r.ok ==>
      && FirstIneligible(registered).Some?
      && var i := FirstIneligible(registered).value;
      && r.registered == registered[..i] + registered[i + 1..]
      && |r.log| > 0 && r.log[|r.log| - 1] == Deregistered(registered[i])
  {
    if |registered| == 0 then Revalidation(true, registered, [])
    else match FirstIneligible(registered)
      case None => Revalidation(true, registered, [])
      case Some(i) =>
        var t := registered[i];
        var ws := ValidateModuleType(t).warnings;
        Revalidation(false, registered[..i] + registered[i + 1..], WarningEvents(ws, Warn) + [Deregistered(t)])
  }

  /** How many registered entries are not modules. */
  function CountIneligible(s: seq<TypeDesc>): nat
    decreases |s|
  {
    if s == [] then 0 else (if IsEligible(s[0]) then 0 else 1) + CountIneligible(s[1..])
  }

  lemma {:induction false} CountIneligibleConcat(a: seq<TypeDesc>, b: seq<TypeDesc>)
    ensures CountIneligible(a + b) == CountIneligible(a) + CountIneligible(b)
    decreases |a|
  {
    if a == [] {
      assert a + b == b;
    } else {
      assert (a + b)[1..] == a[1..] + b;
      CountIneligibleConcat(a[1..], b);
    }
  }

  /** A failed revalidation removes exactly one invalid entry and no valid one:
      any further invalid entries are still registered afterwards. */
  lemma RevalidationRemovesOne(registered: seq<TypeDesc>)
    ensures var r := ValidateRegisteredModules(registered);
      !r.ok ==>
        && |r.registered| == |registered| - 1
        && CountIneligible(r.registered) == CountIneligible(registered) - 1
        && multiset(r.registered) + multiset{registered[FirstIneligible(registered).value]} == multiset(registered)
  {
    var r := ValidateRegisteredModules(registered);
    if !r.ok {
      var i := FirstIneligible(registered).value;
      assert registered == registered[..i] + [registered[i]] + registered[i + 1..];
      CountIneligibleConcat(registered[..i] + [registered[i]], registered[i + 1..]);
      CountIneligibleConcat(registered[..i], [registered[i]]);
      CountIneligibleConcat(registered[..i], registered[i + 1..]);
      assert CountIneligible([registered[i]]) == 1 by {
        assert [registered[i]][1..] == [];
      }
    }
  }

  // ---------------------------------------------------------------- discovery

  /** The scan warns about exactly the scanned types that carry [UDMModule]
      without implementing IUDMModule, and about nothing else. */
  lemma {:induction false} ScanLogSpec(scanned: seq<TypeDesc>)
    ensures forall t :: t in scanned && t.hasModuleAttr && !t.implementsModule ==>
      Warned(MissingInterface(t.fullName)) in ScanLog(scanned, ValidateModuleType, Warn)
    ensures forall e :: e in ScanLog(scanned, ValidateModuleType, Warn) ==>
      exists t :: t in scanned && t.hasModuleAttr && !t.implementsModule && e == Warned(MissingInterface(t.fullName))
    decreases |scanned|
  {
    if scanned != [] {
      var init := scanned[..|scanned| - 1];
      var last := scanned[|scanned| - 1];
      ScanLogSpec(init);
      var final := WarningEvents(ValidateModuleType(last).warnings, Warn);
      assert ScanLog(scanned, ValidateModuleType, Warn) == ScanLog(init, ValidateModuleType, Warn) + final;
      assert forall t :: t in scanned ==> t in init || t == last;
      if final != [] {
        assert final == [Warned(MissingInterface(last.fullName))];
      }
    }
  }

  /** The registry after a scan and what the scan logged. */
  datatype Scan = Scan(registered: seq<TypeDesc>, log: seq<Event>)

  /** RegisterAllModules: the same append-only scan as the current initializer,
      skipping the same assembly-name prefixes; the validator warns while it
      visits the types. */
  function RegisterAllModules(registered: seq<TypeDesc>, assemblies: seq<Assembly>): (r: Scan)
    ensures |registered| <= |r.registered| && r.registered[..|registered|] == registered
    ensures forall i :: |registered| <= i < |r.registered| ==>
      && IsEligible(r.registered[i])
      && r.registered[i] !in registered
      && exists a :: a in assemblies && !IsSkipped(a.fullName) && r.registered[i] in a.types
    ensures forall a, t :: a in assemblies && !IsSkipped(a.fullName) && t in a.types && IsEligible(t) ==> t in r.registered
    ensures NoDuplicates(registered) ==> NoDuplicates(r.registered)
    ensures forall a, t :: a in assemblies && !IsSkipped(a.fullName) && t in a.types && t.hasModuleAttr && !t.implementsModule ==>
      Warned(MissingInterface(t.fullName)) in r.log
    ensures forall e :: e in r.log ==> e.Warned? && e.warning.MissingInterface?
  {
    var scanned := ScannedTypes(assemblies);
    var r := Discover(registered, scanned);
    DiscoverSpec(registered, scanned);
    ScanLogSpec(scanned);
    assert forall i :: |registered| <= i < |r| ==> r[i] in scanned;
    Scan(r, ScanLog(scanned, ValidateModuleType, Warn))
  }

  /** Constructor: revalidation first, then discovery. The revalidated registry
      is kept as a prefix and only new module types follow it; the
      revalidation's log comes before the scan's. */
  function Constructor(registered: seq<TypeDesc>, assemblies: seq<Assembly>): (r: Scan)
    ensures var kept := ValidateRegisteredModules(registered).registered;
      && kept <= r.registered
      && forall i :: |kept| <= i < |r.registered| ==> IsEligible(r.registered[i]) && r.registered[i] !in kept
    ensures |registered| - 1 <= |r.registered|
    ensures ValidateRegisteredModules(registered).log <= r.log
  {
    var v := ValidateRegisteredModules(registered);
    var scan := RegisterAllModules(v.registered, assemblies);
    Scan(scan.registered, v.log + scan.log)
  }

  /** Because discovery only appends module types, running it before the
      revalidation would have left the very same registry. */
  lemma ConstructorOrderUnobservable(registered: seq<TypeDesc>, assemblies: seq<Assembly>)
    ensures Constructor(registered, assemblies).registered
      == ValidateRegisteredModules(RegisterAllModules(registered, assemblies).registered).registered
  {
    RevalidateCommutes(registered, ScannedTypes(assemblies));
  }

  lemma RevalidateCommutes(registered: seq<TypeDesc>, scanned: seq<TypeDesc>)
    ensures Discover(ValidateRegisteredModules(registered).registered, scanned)
      == ValidateRegisteredModules(Discover(registered, scanned)).registered
  {
    DiscoverKeepsFirstIneligible(registered, scanned);
    if FirstIneligible(registered).Some? {
      RevalidateCommutesRemoving(registered, scanned, FirstIneligible(registered).value);
    }
  }

  /** Discovery only appends modules, so the first invalid entry stays where it was. */
  lemma DiscoverKeepsFirstIneligible(registered: seq<TypeDesc>, scanned: seq<TypeDesc>)
    ensures FirstIneligible(Discover(registered, scanned)) == FirstIneligible(registered)
  {
    var d := Discover(registered, scanned);
    var added := d[|registered|..];
    assert d == registered + added;
    DiscoverAppendsModules(registered, scanned);
    FirstIneligiblePrefix(registered, added);
  }

  lemma RevalidateCommutesRemoving(registered: seq<TypeDesc>, scanned: seq<TypeDesc>, i: nat)
    requires FirstIneligible(registered) == Some(i)
    requires FirstIneligible(Discover(registered, scanned)) == Some(i)
    ensures Discover(ValidateRegisteredModules(registered).registered, scanned)
      == ValidateRegisteredModules(Discover(registered, scanned)).registered
  {
    var d := Discover(registered, scanned);
    var added := d[|registered|..];
    var kept := registered[..i] + registered[i + 1..];
    RemovalKeepsModules(registered, i);
    DiscoverSameFresh(registered, kept, scanned);
    var c := Discover(kept, scanned);
    SplitAt(c, kept);
    SplitAt(d, registered);
    RemoveFromPrefix(registered, added, i);
  }

  lemma SplitAt<T>(s: seq<T>, prefix: seq<T>)
    requires |prefix| <= |s| && s[..|prefix|] == prefix
    ensures s == prefix + s[|prefix|..]
  {
  }

  /** Removing position `i` of a prefix commutes with appending. */
  lemma RemoveFromPrefix<T>(a: seq<T>, b: seq<T>, i: nat)
    requires i < |a|
    ensures (a + b)[..i] + (a + b)[i + 1..] == (a[..i] + a[i + 1..]) + b
  {
    assert (a + b)[..i] == a[..i];
    assert (a + b)[i + 1..] == a[i + 1..] + b;
  }

  /** Removing an invalid entry does not change which modules are registered. */
  lemma RemovalKeepsModules(registered: seq<TypeDesc>, i: nat)
    requires i < |registered| && !IsEligible(registered[i])
    ensures forall t :: IsEligible(t) ==> (t in registered <==> t in registered[..i] + registered[i + 1..])
  {
    var kept := registered[..i] + registered[i + 1..];
    forall t | IsEligible(t) && t in registered
      ensures t in kept
    {
      var k :| 0 <= k < |registered| && registered[k] == t;
      if k < i {
        assert kept[k] == t;
      } else {
        assert kept[k - 1] == t;
      }
    }
  }

  /** Appending module types does not move the first invalid entry. */
  lemma {:induction false} FirstIneligiblePrefix(registered: seq<TypeDesc>, added: seq<TypeDesc>)
    requires forall t :: t in added ==> IsEligible(t)
    ensures FirstIneligible(registered + added) == FirstIneligible(registered)
    decreases |registered|
  {
    if registered != [] {
      assert (registered + added)[1..] == registered[1..] + added;
      FirstIneligiblePrefix(registered[1..], added);
    } else {
      assert registered + added == added;
    }
  }

  // ---------------------------------------------------------------- instantiation

  /** The modules created, in registry order, and what was logged. */
  datatype Instantiated = Instantiated(modules: seq<Instance>, log: seq<Event>)

  /** One iteration: a throwing constructor is logged; an object that is not an
      IUDMModule is silently left out. */
  function InstantiateOne(t: TypeDesc): Instantiated
  {
    if CreateInstanceThrows(t) then Instantiated([], [CreateFailed(t)])
    else if t.implementsModule then Instantiated([Instance(t)], [])
    else Instantiated([], [])
  }

  /** InstantiateModules: one attempt per registered type; never throws, and
      yields at most one module per registered type. */
  function InstantiateModules(registered: seq<TypeDesc>): (r: Instantiated)
    ensures |r.modules| + |r.log| <= |registered|
    decreases |registered|
  {
    if registered == [] then Instantiated([], [])
    else
      var a := InstantiateModules(registered[..|registered| - 1]);
      var b := InstantiateOne(registered[|registered| - 1]);
      Instantiated(a.modules + b.modules, a.log + b.log)
  }

  /** The modules are exactly the registered types whose construction succeeds
      and yields an IUDMModule; the log names exactly the types whose
      construction throws. */
  lemma {:induction false} InstantiateModulesSpec(registered: seq<TypeDesc>)
    ensures var r := InstantiateModules(registered);
      && (forall m :: m in r.modules ==> m.of in registered && !CreateInstanceThrows(m.of) && m.of.implementsModule)
      && (forall t :: t in registered && !CreateInstanceThrows(t) && t.implementsModule ==> Instance(t) in r.modules)
      && (forall e :: e in r.log ==> e.CreateFailed? && e.failed in registered && CreateInstanceThrows(e.failed))
      && (forall t :: t in registered && CreateInstanceThrows(t) ==> CreateFailed(t) in r.log)
    decreases |registered|
  {
    if registered != [] {
      var init := registered[..|registered| - 1];
      assert forall t :: t in registered <==> t in init || t == registered[|registered| - 1];
      InstantiateModulesSpec(init);
    }
  }

  /** Instances come out in registration order: instantiating a concatenation
      concatenates the results. */
  lemma {:induction false} InstantiateConcat(a: seq<TypeDesc>, b: seq<TypeDesc>)
    ensures InstantiateModules(a + b).modules == InstantiateModules(a).modules + InstantiateModules(b).modules
    ensures InstantiateModules(a + b).log == InstantiateModules(a).log + InstantiateModules(b).log
    decreases |b|
  {
    if b == [] {
      assert a + b == a;
    } else {
      var b' := b[..|b| - 1];
      assert (a + b)[..|a + b| - 1] == a + b';
      assert (a + b)[|a + b| - 1] == b[|b| - 1];
      InstantiateConcat(a, b');
    }
  }
}
