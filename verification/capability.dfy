/** Capability gates. Each rendition declares a module-level variable and assigns
    it a function only when a load-time test of the host environment passes;
    otherwise the variable stays `undefined`, which callers treat as "this
    rendition is unavailable". */
module Capability {

  /** The value a rendition leaves in its module-level variable. */
  datatype Export<F> = Undefined | Defined(impl: F)

  /** A host object, seen only through the names of the members for which the
      toolkit's `isHostMethod` test holds. */
  datatype HostObject = HostObject(hostMethods: set<string>)

  predicate IsHostMethod(o: HostObject, name: string) {
    name in o.hostMethods
  }

  /** `if (gate) { v = impl; }` on a variable that starts out `undefined`. */
  function Gate<F>(gate: bool, impl: F): Export<F>
  {
    if gate then Defined(impl) else Undefined
  }
}
