/**
 * What both initializer variants share: the eligibility rules a module type
 * must meet, the assembly-name prefixes the scan skips, and the append-only,
 * first-registration-wins discovery of new module types.
 */
module Registry {
  import opened Catalog

  /** A type is a module when it carries [UDMModule], implements IUDMModule and
      can be instantiated (neither abstract nor an interface). */
  predicate IsEligible(t: TypeDesc)
  {
    t.hasModuleAttr && t.implementsModule && !t.isAbstract && !t.isInterface
  }

  /** The diagnostics a validator may emit about a tagged but malformed type. */
  datatype Warning =
    | MissingInterface(typeName: string)
    | AbstractOrInterface(typeName: string)

  /** A validator's answer together with the warnings it logged. */
  datatype Verdict = Verdict(ok: bool, warnings: seq<Warning>)

  /** A validator's warnings as console events, one event per warning, built
      by `warned`; each initializer has its own event type. */
  function WarningEvents<E>(ws: seq<Warning>, warned: Warning -> E): (r: seq<E>)
    ensures |r| == |ws|
  {
    seq(|ws|, k requires 0 <= k < |ws| => warned(ws[k]))
  }

  /** The console events of validating every scanned type, in scan order;
      `validate` is the initializer's validator and `warned` its warning event. */
  function ScanLog<E>(scanned: seq<TypeDesc>, validate: TypeDesc -> Verdict, warned: Warning -> E): (r: seq<E>)
    decreases |scanned|
  {
    if scanned == [] then []
    else
      var last := scanned[|scanned| - 1];
      ScanLog(scanned[..|scanned| - 1], validate, warned) + WarningEvents(validate(last).warnings, warned)
  }

  /** Logging two stretches of scanned types is logging their concatenation. */
  lemma {:induction false} ScanLogConcat<E>(a: seq<TypeDesc>, b: seq<TypeDesc>, validate: TypeDesc -> Verdict, warned: Warning -> E)
    ensures ScanLog(a + b, validate, warned) == ScanLog(a, validate, warned) + ScanLog(b, validate, warned)
    decreases |b|
  {
    if b == [] {
      assert a + b == a;
    } else {
      var b' := b[..|b| - 1];
      assert (a + b)[..|a + b| - 1] == a + b';
      ScanLogConcat(a, b', validate, warned);
    }
  }

  /** Assemblies whose names start with "Unity", "System" or "mscorlib" are
      not scanned; the test is on the name prefix alone. */
  predicate IsSkipped(assemblyName: string)
  {
    StartsWith(assemblyName, "Unity")
    || StartsWith(assemblyName, "System")
    || StartsWith(assemblyName, "mscorlib")
  }

  predicate NoDuplicates(s: seq<TypeDesc>)
  {
    forall i, j :: 0 <= i < j < |s| ==> s[i] != s[j]
  }

  /** The types the scan visits, in visiting order: every type of every
      assembly that is not skipped, in domain order. */
  function ScannedTypes(assemblies: seq<Assembly>): (r: seq<TypeDesc>)
    ensures forall t :: t in r <==> exists a :: a in assemblies && !IsSkipped(a.fullName) && t in a.types
    decreases |assemblies|
  {
    if assemblies == [] then []
    else
      var init := assemblies[..|assemblies| - 1];
      var last := assemblies[|assemblies| - 1];
      assert forall a :: a in assemblies <==> a in init || a == last;
      ScannedTypes(init) + (if IsSkipped(last.fullName) then [] else last.types)
  }

  /** One visited type: appended when it is eligible and not registered yet. */
  function Register(registered: seq<TypeDesc>, t: TypeDesc): seq<TypeDesc>
  {
    if IsEligible(t) && t !in registered then registered + [t] else registered
  }

  /** The registry after visiting `scanned` in order, starting from `registered`. */
  function Discover(registered: seq<TypeDesc>, scanned: seq<TypeDesc>): (r: seq<TypeDesc>)
    ensures |registered| <= |r| && r[..|registered|] == registered
    decreases |scanned|
  {
    if scanned == [] then registered
    else Register(Discover(registered, scanned[..|scanned| - 1]), scanned[|scanned| - 1])
  }

  /** First registration wins: what discovery appends after the kept registry
      is eligible, scanned, new and free of repeats, and every eligible scanned
      type ends up registered. */
  lemma {:induction false} DiscoverSpec(registered: seq<TypeDesc>, scanned: seq<TypeDesc>)
    ensures forall i :: |registered| <= i < |Discover(registered, scanned)| ==>
      var t := Discover(registered, scanned)[i]; IsEligible(t) && t in scanned && t !in registered
    ensures forall i, j :: |registered| <= i < j < |Discover(registered, scanned)| ==>
      Discover(registered, scanned)[i] != Discover(registered, scanned)[j]
    ensures forall t :: t in scanned && IsEligible(t) ==> t in Discover(registered, scanned)
    ensures NoDuplicates(registered) ==> NoDuplicates(Discover(registered, scanned))
    decreases |scanned|
  {
    if scanned != [] {
      var init := scanned[..|scanned| - 1];
      assert forall t :: t in scanned <==> t in init || t == scanned[|scanned| - 1];
      DiscoverSpec(registered, init);
    }
  }

  /** Everything discovery appends is a module type. */
  lemma DiscoverAppendsModules(registered: seq<TypeDesc>, scanned: seq<TypeDesc>)
    ensures forall t :: t in Discover(registered, scanned)[|registered|..] ==> IsEligible(t)
  {
    var d := Discover(registered, scanned);
    forall t | t in d[|registered|..]
      ensures IsEligible(t)
    {
      DiscoverSpec(registered, scanned);
      var k :| 0 <= k < |d| - |registered| && d[|registered|..][k] == t;
      assert d[|registered| + k] == t;
    }
  }

  /** Scanning two stretches of types one after the other is scanning their concatenation. */
  lemma {:induction false} DiscoverConcat(registered: seq<TypeDesc>, a: seq<TypeDesc>, b: seq<TypeDesc>)
    ensures Discover(registered, a + b) == Discover(Discover(registered, a), b)
    decreases |b|
  {
    if b == [] {
      assert a + b == a;
    } else {
      var b' := b[..|b| - 1];
      assert (a + b)[..|a + b| - 1] == a + b';
      DiscoverConcat(registered, a, b');
    }
  }

  /** Once every eligible scanned type is registered, scanning changes nothing. */
  lemma {:induction false} DiscoverFixpoint(registered: seq<TypeDesc>, scanned: seq<TypeDesc>)
    requires forall t :: t in scanned && IsEligible(t) ==> t in registered
    ensures Discover(registered, scanned) == registered
    decreases |scanned|
  {
    if scanned != [] {
      var init := scanned[..|scanned| - 1];
      assert forall t :: t in init ==> t in scanned;
      DiscoverFixpoint(registered, init);
      assert scanned[|scanned| - 1] in scanned;
    }
  }

  /** Discovering a second time over the same catalog adds nothing. */
  lemma DiscoverIdempotent(registered: seq<TypeDesc>, scanned: seq<TypeDesc>)
    ensures Discover(Discover(registered, scanned), scanned) == Discover(registered, scanned)
  {
    DiscoverSpec(registered, scanned);
    DiscoverFixpoint(Discover(registered, scanned), scanned);
  }

  /** What is appended depends only on which eligible types are already registered. */
  lemma {:induction false} DiscoverSameFresh(a: seq<TypeDesc>, b: seq<TypeDesc>, scanned: seq<TypeDesc>)
    requires forall t :: IsEligible(t) ==> (t in a <==> t in b)
    ensures Discover(a, scanned)[|a|..] == Discover(b, scanned)[|b|..]
    decreases |scanned|
  {
    if scanned != [] {
      var init := scanned[..|scanned| - 1];
      var t := scanned[|scanned| - 1];
      var da := Discover(a, init);
      var db := Discover(b, init);
      var added := da[|a|..];
      assert da == a + added && db == b + added by {
        DiscoverSameFresh(a, b, init);
      }
      RegisterSameFresh(a, b, added, t);
      assert Discover(a, scanned) == Register(da, t) && Discover(b, scanned) == Register(db, t);
    }
  }

  lemma RegisterSameFresh(a: seq<TypeDesc>, b: seq<TypeDesc>, added: seq<TypeDesc>, t: TypeDesc)
    requires IsEligible(t) ==> (t in a <==> t in b)
    ensures Register(a + added, t)[|a|..] == Register(b + added, t)[|b|..]
  {
    assert (a + added)[|a|..] == added;
    assert (b + added)[|b|..] == added;
    if IsEligible(t) && t !in a + added {
      assert (a + added + [t])[|a|..] == added + [t];
      assert (b + added + [t])[|b|..] == added + [t];
    }
  }
}
