# UDM-Core module registry, modelled in Dafny

UDM-Core discovers the game's module types at start-up and registers them.
A module type is a class tagged with `[UDMModule]` that implements `IUDMModule`
and can be instantiated.

The current initializer, `UDMCore`, works in these steps:

1. It loads a persisted config asset holding a list of type names.
2. It restores the registry from those names, dropping names that no longer resolve and types that no longer validate. An empty name makes the lookup throw, and the run ends there.
3. It scans every loaded assembly except those whose names start with "Unity", "System" or "mscorlib", and appends module types not yet registered. The prefix test is all there is: a project assembly named "SystemsGame" is skipped, while "netstandard" is scanned.
4. It writes the registry back to the config as full type names.
5. At run time it creates one instance per registered type, tolerating failures.
6. It raises `IsInitialized` and fires `Initialized`.

The older initializer, `UDM_Core`, keeps its registry in memory only. It revalidates the registry, then scans. It instantiates on demand into a list. Its registry is a fresh static list and its constructor runs once per domain load, so in a real run the revalidation always sees an empty list and removes nothing. The revalidation lemmas describe the method on an arbitrary list.

Reflection is replaced by plain data:

- A type is a `TypeDesc` descriptor. It records its full name, its defining assembly, whether `[UDMModule]` is declared on the type itself, whether it implements `IUDMModule`, whether it is abstract or an interface, and whether creating an instance throws.
- An assembly is a name plus a sequence of descriptors.
- The application domain is the ordered list of assemblies, the `Type.GetType` lookup, and whether the build defines `UNITY_EDITOR`. `Type.GetType` also accepts assembly-qualified names, so its answer may carry a full name other than the one asked for.
- Console output is a list of event tags.

The static fields of `UDMCore` form one `State` record, and every step is a function from state to state.

Files:

- `catalog.dfy` (`Catalog`): descriptors, assemblies, the domain, `Option`, and the per-assembly `GetType`.
- `registry.dfy` (`Registry`): what both initializers share. This is the eligibility rule, the skipped assembly prefixes, the scan order, and the append-only, first-registration-wins discovery with its algebra.
- `core.dfy` (`Core`): the current initializer in `Scripts/Core/UDMCore.cs`.
- `legacy_core.dfy` (`LegacyCore`): the older initializer in `Scripts/Core/UDM_Core.cs`.
- `scenarios.dfy` (`Scenarios`): concrete runs on small catalogs, checked by the verifier.

## Model

| member | source | states |
|---|---|---|
| Catalog.FindType | Scripts/Core/UDMCore.cs:102 | Assembly.GetType finds nothing exactly when the assembly declares no type of that name; otherwise it returns one of its own types with exactly that name |
| Registry.ScannedTypes | Scripts/Core/UDMCore.cs:155-165 | a type is visited by the scan iff it belongs to a loaded assembly whose name does not start with "Unity", "System" or "mscorlib" |
| Registry.Discover | Scripts/Core/UDMCore.cs:152-180 | discovery is append-only: the registry before the scan is kept unchanged as a prefix |
| Registry.DiscoverSpec | Scripts/Core/UDMCore.cs:165-176 | every appended type is valid, was scanned, was not registered before, and appears once; every valid scanned type ends up registered; a registry without repeats stays without repeats |
| Registry.DiscoverAppendsModules | Scripts/Core/UDMCore.cs:167-172 | only module types are ever appended |
| Registry.DiscoverConcat | Scripts/Core/UDMCore.cs:155-177 | scanning assembly after assembly is the same as scanning their types as one stretch |
| Registry.DiscoverFixpoint | Scripts/Core/UDMCore.cs:170 | when every valid scanned type is already registered, the scan changes nothing |
| Registry.DiscoverIdempotent | Scripts/Core/UDMCore.cs:152-180 | scanning the same catalog a second time adds nothing |
| Registry.DiscoverSameFresh | Scripts/Core/UDM_Core.cs:45-51 | what the scan appends depends only on which module types are already registered, not on the registry's order or its invalid entries |
| Core.ValidateModuleType | Scripts/Core/UDMCore.cs:187-208 | accepts iff tagged, implementing IUDMModule, and neither abstract nor an interface; an untagged type is rejected silently; a tagged, rejected type gets exactly one warning, naming the interface problem or the abstract/interface problem |
| Core.SearchAssembliesSpec | Scripts/Core/UDMCore.cs:100-107 | the assembly loop finds nothing iff no assembly declares the name; otherwise the first declaring assembly, in domain order, supplies the type |
| Core.ResolutionSpec | Scripts/Core/UDMCore.cs:92-108 | a Type.GetType hit wins; otherwise the result is null iff no assembly declares the name, and otherwise it is a type of that name from the first declaring assembly |
| Core.RestoreNameSpec | Scripts/Core/UDMCore.cs:116-130 | for one configured name: a lookup that throws (the empty name) adds and logs nothing; otherwise an unresolvable name is logged as not restored; a module type is kept silently; any other resolved type is dropped and logged as failing validation, after that type's own validator warning is logged twice for a tagged type |
| Core.RestoreNames | Scripts/Core/UDMCore.cs:116-131 | the restored registry holds only module types and has at most one entry per configured name |
| Core.RestoreNamesSpec | Scripts/Core/UDMCore.cs:110-134 | every restored type comes from a configured name; when the loop does not throw, every name that resolves to a module type is restored, every unresolvable name is logged as not restored, and every name resolving to an invalid type is logged as failing validation |
| Core.RestoreStopsAtEmpty | Scripts/Core/UDMCore.cs:114-118 | when resolving the empty name throws, the loop's outcome is exactly that of the names before the first empty name, whose restore runs to the end |
| Core.RestoreNamesFilters | Scripts/Core/UDMCore.cs:116-122 | the restored registry is exactly the configured names that resolve to a module type, taken front to back in config order, including repeats, and stopping at a name whose lookup throws |
| Core.RestoreConcat | Scripts/Core/UDMCore.cs:116-131 | restoring keeps config order: restoring two lists one after the other concatenates both the restored types and the logs, unless the first list already throws, in which case the second is never reached |
| Core.FullNames | Scripts/Core/UDMCore.cs:140-142 | the written-back list has one name per registered type, in registry order, each the type's full name |
| Core.NamesRoundTrip | Scripts/Core/UDMCore.cs:110-142 | a registry of module types whose full names resolve back to themselves without throwing is restored exactly, in order and without any log entry, from the names written back for it |
| Core.LoadConfig | Scripts/Core/UDMCore.cs:76-90 | the config becomes the load result, also when its name list is null; a failed load leaves it null and logs exactly one error; nothing else changes (the exception a null list raises is in Core.ConstructorSteps) |
| Core.ApplyConfigData | Scripts/Core/UDMCore.cs:110-134 | with a null config or a null name list nothing changes; otherwise the registry holds only module types, each from a configured name, and, unless the loop throws, every configured name resolving to a module type is in it |
| Core.RegisterStep | Scripts/Core/UDMCore.cs:152-180 | the step leaves the config, the instances and the flag alone, and keeps `Valid` |
| Core.RegisterAllModules | Scripts/Core/UDMCore.cs:152-180 | the nested loops compute the discovery fold and the validator's warnings; count is the number appended; earlier entries keep their positions; each appended type is valid, new, and from an assembly that is not skipped |
| Core.VisitTypes | Scripts/Core/UDMCore.cs:165-176 | the inner loop over one assembly's types is one stretch of discovery, and the counter grows by the number appended |
| Registry.ScanLogConcat | Scripts/Core/UDMCore.cs:155-177 | the scan's warnings for consecutive assemblies are logged in scan order |
| Core.UpdateConfigWithModules | Scripts/Core/UDMCore.cs:136-150 | with a null config nothing changes; otherwise the name list becomes the registered types' full names in registry order, and only an editor build records the save |
| Core.ConstructorSteps | Scripts/Core/UDMCore.cs:59-90 | a successfully loaded config with a null name list throws while its size is logged, so the trace stops after the load; a name list whose restore throws stops it after the restore; otherwise it has all five steps; IsInitialized is false in every state, the instances and the fired count stay untouched, and each step keeps the state valid |
| Core.Constructor | Scripts/Core/UDMCore.cs:59-90 | when the load throws, the registry and the log are left as they were and the config is the loaded one; when the restore throws, the registry holds what was restored before the throw, and the config keeps the loaded names; in both cases nothing is discovered or written back; otherwise the config written back is exactly the final registry's names when a config was loaded, and stays null when none was, and the registry is the configured names' restoration followed by discovery, or the old registry followed by discovery when nothing was loaded |
| Core.ConstructorRestoresThenDiscovers | Scripts/Core/UDMCore.cs:59-68 | restored entries come first in the registry and every later entry is a new, valid, scanned type; if the restore throws the registry is just the restored entries and the loaded names stay in the config; otherwise the saved names are the registry's, with the restored names first |
| Core.InstantiateModules | Scripts/Core/UDMCore.cs:210-225 | the dictionary's keys are the previous keys plus every registered type whose creation does not throw; existing entries are kept; a new entry is the type's instance, or null when the object is not an IUDMModule; the log only names registered types and names every type whose constructor throws |
| Core.InstantiateLogsFailures | Scripts/Core/UDMCore.cs:210-225 | every failed attempt is logged: a registered type already in the dictionary, every later occurrence of a type registered twice (Dictionary.Add throws), and a type whose object is not an IUDMModule (the log line after the null store throws) |
| Core.AttemptLogged | Scripts/Core/UDMCore.cs:213-223 | the attempt at one registry position is logged as failed when creation throws, the key is already present, the same type came earlier in the registry, or the object is not an IUDMModule |
| Core.InstantiateAccounting | Scripts/Core/UDMCore.cs:210-225 | from an empty dictionary and distinct module types, each type is either instantiated or logged as failed, never both and never neither, so instances plus failures equal the registry size |
| Core.InstantiateKeepsValid | Scripts/Core/UDMCore.cs:210-225 | every stored instance was created from its own key type |
| Core.GetModule | Scripts/Core/UDMCore.cs:70-71 | a pure lookup that returns null for an absent key |
| Core.GetModuleAs | Scripts/Core/UDMCore.cs:73-74 | the generic lookup returns an instance only when one of exactly that type is stored, and null otherwise |
| Core.GetModuleAsAgrees | Scripts/Core/UDMCore.cs:70-74 | in a valid state the generic and non-generic lookups agree |
| Core.RuntimeInit | Scripts/Core/UDMCore.cs:48-57 | when Constructor throws (null name list or empty name), the run stops inside it: nothing is instantiated, the flag stays false and the event never fires; otherwise IsInitialized is false through the Constructor states and true only at the end, where Initialized has fired once more; every dictionary key is an old key or a registered type |
| Core.EditorInit | Scripts/Core/UDMCore.cs:34-46 | exists only in an editor build; in or entering play mode nothing happens; an exception in Constructor ends the run with the flag down and no event; otherwise the flag is false through Constructor, then raised and the event fired once, and no module is instantiated |
| Core.RuntimeInitKeepsValid | Scripts/Core/UDMCore.cs:48-57 | starting from a valid state, every state of the run is valid |
| Core.GetModuleAfterRuntimeInit | Scripts/Core/UDMCore.cs:49-74 | after a run from an empty dictionary, GetModule finds an instance iff Constructor did not throw, the type is registered and its creation does not throw; that instance was created from the type |
| Core.GetModuleAfterEditorInit | Scripts/Core/UDMCore.cs:34-46 | in edit mode from an empty dictionary, the flag is raised iff Constructor does not throw, and GetModule returns null for every type afterwards |
| Core.ReconcileIdempotent | Scripts/Core/UDMCore.cs:59-68 | when every registered type resolves back from its full name without throwing, a second Constructor loading the saved config ends with the same registry and the same config; a run whose restore throws repeats identically |
| Core.SelfHealing | Scripts/Core/UDMCore.cs:110-142 | when every Type.GetType answer is a type of a loaded assembly, a configured name that resolves to nothing names no registered type and, unless the restore throws, is missing from the names written back; if it throws, the loaded names are kept |
| LegacyCore.ValidateModuleType | Scripts/Core/UDM_Core.cs:81-99 | accepts iff tagged, implementing IUDMModule, and concrete; warns only about a tagged type missing the interface |
| LegacyCore.ValidatorsCompared | Scripts/Core/UDM_Core.cs:81-99 | both validators accept the same types; the older one's warnings are a prefix of the newer one's, and they differ exactly for tagged abstract or interface types that implement IUDMModule |
| LegacyCore.FirstIneligible | Scripts/Core/UDM_Core.cs:65-66 | the loop stops at the first entry that fails validation; none fails iff every entry is valid |
| LegacyCore.ValidateRegisteredModules | Scripts/Core/UDM_Core.cs:62-74 | returns true iff every entry is valid, and then changes nothing; otherwise it removes exactly the first invalid entry, keeps every other entry in order, and logs the removal last |
| LegacyCore.RevalidationRemovesOne | Scripts/Core/UDM_Core.cs:62-74 | a failed revalidation shortens the registry by one and the number of invalid entries by one; the registry loses exactly one copy of that entry, so later invalid entries stay |
| LegacyCore.RemovalKeepsModules | Scripts/Core/UDM_Core.cs:65-69 | removing an invalid entry does not change which module types are registered |
| LegacyCore.ScanLogSpec | Scripts/Core/UDM_Core.cs:45-47 | the scan's validator warns about exactly the scanned types tagged [UDMModule] that do not implement IUDMModule, and about nothing else |
| LegacyCore.RegisterAllModules | Scripts/Core/UDM_Core.cs:33-60 | existing entries are kept as a prefix; appended entries are valid, new, and from assemblies that are not skipped; every valid type of a scanned assembly ends up registered; no duplicate is created; every tagged type lacking IUDMModule in a scanned assembly is warned about, and the log holds only such warnings |
| LegacyCore.Constructor | Scripts/Core/UDM_Core.cs:27-31 | the revalidated registry is kept as a prefix, followed only by new module types, so at most one entry is lost; the revalidation's log comes before the scan's |
| LegacyCore.ConstructorOrderUnobservable | Scripts/Core/UDM_Core.cs:27-31 | revalidating before discovery leaves the same registry as discovering first |
| LegacyCore.RevalidateCommutes | Scripts/Core/UDM_Core.cs:27-31 | revalidation and discovery commute on any registry and scan |
| LegacyCore.InstantiateModules | Scripts/Core/UDM_Core.cs:102-117 | at most one module or one failure per registered type, so the list is never longer than the registry |
| LegacyCore.InstantiateModulesSpec | Scripts/Core/UDM_Core.cs:102-117 | the list holds exactly the registered types whose creation succeeds and yields an IUDMModule; the log names exactly the types whose creation throws |
| LegacyCore.InstantiateConcat | Scripts/Core/UDM_Core.cs:105-116 | modules and failures come out in registration order |
| Scenarios.RestoreDropsInvalidAndMissing | Scripts/Core/UDMCore.cs:110-134 | config [A, abstract B, missing Ghost] restores only A, saves ["Game.A"], and logs B's warning twice, then B's validation failure, Ghost's restore failure, and B's warning once more from the scan |
| Scenarios.DiscoveryAppendsAfterRestored | Scripts/Core/UDMCore.cs:152-180 | a module missing from the config is appended after the restored one and saved; a module in a "Unity…" assembly is never discovered by the scan |
| Scenarios.OneBrokenModule | Scripts/Core/UDMCore.cs:210-225 | one throwing constructor among three modules: the other two are instantiated, the failure is logged, and the flag is raised after one event |
| Scenarios.EmptyRegistryStillReady | Scripts/Core/UDMCore.cs:48-57 | with nothing to register, the flag is still raised and the event fires once |
| Scenarios.NullNameListAborts | Scripts/Core/UDMCore.cs:76-90 | a loaded config with a null name list ends the run after the load: nothing registered, nothing instantiated, the flag false and the event not fired |
| Scenarios.EmptyNameAborts | Scripts/Core/UDMCore.cs:102-118 | config ["Game.A", "", "Game.B"] clears the registry, restores A, and stops at the empty name: nothing discovered, written back or instantiated, the flag false and the event not fired |
| Scenarios.DuplicateConfigNameKept | Scripts/Core/UDMCore.cs:116-122 | a name listed twice in the config is registered twice |
| Scenarios.DuplicateRegistrationLogged | Scripts/Core/UDMCore.cs:217 | for a type registered twice, the second Dictionary.Add throws and is logged, and the first instance stays |

## Left out

- The Addressables load in `LoadConfig` is asynchronous. It is an input `Option<Config>`, and a failed load is `None`. Loading the same reference twice is not modelled.
- `EditorUtility.SetDirty`, `AssetDatabase.SaveAssets` and `AssetDatabase.Refresh` are editor persistence I/O. They appear only as a `ConfigSaved` event when the editor build flag is set.
- Reflection is not modelled. `AppDomain.GetAssemblies`, `Assembly.GetTypes`, `Attribute.IsDefined`, `IsAssignableFrom` and `Activator.CreateInstance` are replaced by descriptor fields. Creation throws when creating the instance throws, or the type is abstract or an interface.
- The `async void` entry points and the `[InitializeOnLoadMethod]` and `[RuntimeInitializeOnLoadMethod]` hooks are left out. Each entry point is a function producing the trace of states it passes through.
- The `Initialized` delegate and its subscribers are left out. Only a counter of how often the event fired is kept.
- `Debug.Log` message text is left out, and warnings and errors are abstract event tags. Two plain `Debug.Log` lines are kept as events: the save line at UDMCore.cs:148 (`ConfigSaved`) and the legacy removal line at UDM_Core.cs:68 (`LegacyCore.Deregistered`). The other plain `Debug.Log` lines (start-up banners, counts, per-module registration and creation lines) are omitted.
- Message text uses `Type.Name` in some places and `FullName` in others. The tags carry the full name or the descriptor.
- `String.StartsWith` is culture-sensitive in .NET. Here it is an ordinal prefix test, which agrees for assembly names without ignorable characters. A name starting with a zero-weight character such as a soft hyphen before "Unity" is skipped by the source but scanned here.
- Core.GetModuleAs: the `as TModule` cast is modelled as equality of the stored instance's type with the requested type. Subtype casts are not modelled.
- LegacyCore.RegisterAllModules: its informational log lines are not collected, including the line it prints for every valid type even when that type was already present. Its validator warnings are collected.
- `Assembly.GetTypes()` can throw `ReflectionTypeLoadException` when an assembly's types cannot all be loaded. Neither scan catches it, so in the source one such assembly ends `Constructor` without a write-back, and the flag is never raised. Here an assembly's types are always a complete sequence, so that abort is not modelled.
- Core.ApplyConfigData: its null-list branch cannot be reached through `Constructor`, because a null list throws in `LoadConfig` first (`Core.LoadThrows`). The function still models the branch on its own.
- Core.SearchAssembliesSpec: it describes the assembly loop for a name it can answer. For the empty name the first `Assembly.GetType` call throws `ArgumentException`; that case is `Core.ResolveThrows`, which every caller checks before using the search result.
- Core.ResolutionSpec: it describes the lookup's answer when the lookup returns. When `Type.GetType("")` finds nothing and an assembly is loaded, the lookup throws instead (`Core.ResolveThrows`), and the restore loop stops there.
- Only the empty name is modelled as making `Assembly.GetType` throw. Other malformed names that the runtime's type-name parser may reject are treated as unresolvable.
- The engine's report of an exception that escapes an `async void` entry point is not modelled. The trace just ends.
- LegacyCore: the public `ModulesInstances` dictionary is never written by `UDM_Core`, so it is not modelled.
- LegacyCore.InstantiateModules: its ensures only bounds the lengths. Contents and order are stated in `LegacyCore.InstantiateModulesSpec` and `LegacyCore.InstantiateConcat`.
- Registry.Discover: its ensures states only that the old registry is kept as a prefix. What is appended is stated in `Registry.DiscoverSpec`.
- Core.RestoreNames: its ensures states only eligibility and a length bound. Which names are kept is stated in `Core.RestoreNamesSpec` and `Core.RestoreNamesFilters`.
- Core.RegisterStep: its ensures says only how the registry is computed and that the other fields and validity are kept. Discovery's properties are stated in `Registry.DiscoverSpec`.

In five places the code does not do what the registry is evidently meant to do. The model follows the code:

- The registry should hold each type at most once. A config listing a name twice restores it twice (`Scenarios.DuplicateConfigNameKept`). Instantiation then logs the second `Dictionary.Add` as a failure (`Scenarios.DuplicateRegistrationLogged`).
- An invalid configured type runs through the validator twice, once for each branch condition. Its warning is therefore logged twice before the "failed validation" line (`Core.RestoreNameSpec`).
- A subscriber to `Initialized` should learn that initialization happened even if it subscribes late. It is not told, and every initializer run fires the event again.
- An assembly that cannot be introspected should be skipped and logged. Both scans call `Assembly.GetTypes()` without a `try`, so its `ReflectionTypeLoadException` ends the whole run instead. The model does not cover this case (see "Left out").
- A stale or garbage config entry should be dropped and logged. An empty name instead makes `Assembly.GetType` throw. The registry is left holding only the names before it, nothing is written back, and the empty name stays in the config, so every later run ends the same way (`Scenarios.EmptyNameAborts`).

In edit mode, `EditorInit` raises `IsInitialized` and fires `Initialized` without instantiating anything. From an empty dictionary, `GetModule` therefore returns null for every type once the flag is up (`Core.GetModuleAfterEditorInit`).
