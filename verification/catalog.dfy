/**
 * The reflection surface the module registry depends on, reduced to plain data.
 * A type is a descriptor holding exactly the facts the registry asks of it, an
 * assembly is a named sequence of types, and the application domain is the
 * ordered list of loaded assemblies together with the runtime's own by-name
 * lookup `Type.GetType`.
 */
module Catalog {

  /** The conventional Some/None datatype, used wherever the source returns null. */
  datatype Option<+T> = None | Some(value: T)

  /** What reflection reports about one type. Two descriptors denote the same
      type exactly when all fields agree; `origin`, the full name of the
      defining assembly, keeps equally named types of different assemblies apart. */
  datatype TypeDesc = TypeDesc(
    fullName: string,
    origin: string,
    hasModuleAttr: bool,    // [UDMModule] is declared on this very type; the attribute is not inherited
    implementsModule: bool, // IUDMModule is assignable from the type
    isAbstract: bool,
    isInterface: bool,
    ctorThrows: bool)       // creating an instance throws: the constructor throws, there is no public parameterless one, or the type is an open generic

  datatype Assembly = Assembly(fullName: string, types: seq<TypeDesc>)

  /** The loaded application domain. `assemblies` is AppDomain.GetAssemblies() in
      load order; `getType` is Type.GetType(name), which searches the calling
      assembly and the core library and also accepts assembly-qualified names,
      so the type it answers with may have a full name other than the one asked
      for; `editorBuild` says whether the code was compiled with UNITY_EDITOR
      defined. */
  datatype Domain = Domain(
    assemblies: seq<Assembly>,
    getType: string -> Option<TypeDesc>,
    editorBuild: bool)

  /** A live module object, remembered by the type it was created from. */
  datatype Instance = Instance(of: TypeDesc)

  /** Activator.CreateInstance fails: creating the instance throws, or the type
      cannot be instantiated at all because it is abstract or an interface. */
  predicate CreateInstanceThrows(t: TypeDesc)
  {
    t.ctorThrows || t.isAbstract || t.isInterface
  }

  /** Ordinal prefix test. */
  predicate StartsWith(name: string, prefix: string)
  {
    |prefix| <= |name| && name[..|prefix|] == prefix
  }

  /** The assembly declares a type of the given full name. */
  predicate Defines(a: Assembly, name: string)
  {
    exists t :: t in a.types && t.fullName == name
  }

  /** Assembly.GetType(name): the type of that name declared in one assembly. */
  function FindType(types: seq<TypeDesc>, name: string): (r: Option<TypeDesc>)
    ensures r.None? <==> forall t :: t in types ==> t.fullName != name
    ensures r.Some? ==> r.value in types && r.value.fullName == name
  {
    if types == [] then None
    else if types[0].fullName == name then Some(types[0])
    else FindType(types[1..], name)
  }
}
