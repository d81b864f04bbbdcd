/** The component registry: component names mapped to factories that load a module.
    Loading is deferred to `load`, and nothing is cached: every `load` of a registered
    name invokes its factory again. */
module ComponentRegistry {
  import opened Wrappers
  import InsertionMap

  /** A factory: `id` stands for the closure's identity and `default` for the `default`
      export of the module its promise resolves to. Whether a particular call's promise
      rejects instead is decided per call (see `LoadComponent`). */
  datatype Factory<A> = Factory(id: nat, default: A)

  datatype Registry<A> = Registry(components: InsertionMap.IMap<Factory<A>>)

  datatype LoadError = NotFound(name: string) | LoaderFailed(reason: string)

  /** The result of one `load`: what it returned or threw, and the factories it invoked. */
  datatype Load<A> = Load(result: Result<A, LoadError>, invoked: seq<Factory<A>>)

  ghost predicate Valid<A>(reg: Registry<A>) {
    InsertionMap.Valid(reg.components)
  }

  function Empty<A>(): (reg: Registry<A>)
    ensures Valid(reg) && reg.components.order == []
  {
    Registry(InsertionMap.Empty())
  }

  /** The message an error carries: unknown names are reported by name; a factory's own
      rejection propagates unchanged. */
  function Message(e: LoadError): (msg: string)
    ensures e.NotFound? ==> |msg| == |e.name| + 22 && msg[..11] == "Component \"" &&
                            msg[11..11 + |e.name|] == e.name && msg[11 + |e.name|..] == "\" not found"
    ensures e.LoaderFailed? ==> msg == e.reason
  {
    match e
    case NotFound(name) => "Component \"" + name + "\" not found"
    case LoaderFailed(reason) => reason
  }

  /** `register`: map the name to the factory, replacing any earlier mapping. The factory
      is not invoked: registering has no effect besides the mapping. */
  function Register<A>(reg: Registry<A>, name: string, factory: Factory<A>): (reg': Registry<A>)
    ensures reg'.components.entries.Keys == reg.components.entries.Keys + {name}
    ensures reg'.components.entries[name] == factory
    ensures forall k :: k in reg.components.entries && k != name ==> reg'.components.entries[k] == reg.components.entries[k]
    ensures name in reg.components.entries ==> reg'.components.order == reg.components.order
    ensures name !in reg.components.entries ==> reg'.components.order == reg.components.order + [name]
  {
    Registry(InsertionMap.Set(reg.components, name, factory))
  }

  /** Registering keeps every name listed exactly once. */
  lemma RegisterPreservesValid<A>(reg: Registry<A>, name: string, factory: Factory<A>)
    requires Valid(reg)
    ensures Valid(Register(reg, name, factory))
  {
    InsertionMap.SetPreservesValid(reg.components, name, factory);
  }

  /** `load`: an unknown name throws without invoking anything; a known name invokes its
      factory exactly once, and `settles` says whether that call's promise resolves, so
      that `load` returns the module's `default`, or rejects, so that `load` rethrows. */
  function LoadComponent<A>(reg: Registry<A>, name: string, settles: Outcome): (l: Load<A>)
    ensures name !in reg.components.entries ==> l.result == Err(NotFound(name)) && l.invoked == []
    ensures name in reg.components.entries ==> l.invoked == [reg.components.entries[name]]
    ensures name in reg.components.entries && settles.Completes? ==>
              l.result == Ok(reg.components.entries[name].default)
    ensures name in reg.components.entries && settles.Throws? ==>
              l.result == Err(LoaderFailed(settles.error))
  {
    match InsertionMap.Get(reg.components, name)
    case None => Load(Err(NotFound(name)), [])
    case Some(f) =>
      match settles
      case Completes => Load(Ok(f.default), [f])
      case Throws(why) => Load(Err(LoaderFailed(why)), [f])
  }

  /** `getRegisteredComponents`: the map's keys, each registered name exactly once, in
      the map's key order (first registration, by `RegisteredInFirstOrder`). */
  function RegisteredComponents<A>(reg: Registry<A>): (names: seq<string>)
    requires Valid(reg)
    ensures names == reg.components.order
    ensures forall k :: k in names <==> k in reg.components.entries
    ensures forall i, j :: 0 <= i < j < |names| ==> names[i] != names[j]
  {
    InsertionMap.Keys(reg.components)
  }

  /** The registry built by the given `register(name, factory)` calls, in order, starting
      from an empty registry. */
  function RegisterAll<A>(calls: seq<InsertionMap.Entry<Factory<A>>>): (reg: Registry<A>)
    ensures Valid(reg)
  {
    if |calls| == 0 then Empty()
    else
      var last := calls[|calls| - 1];
      RegisterPreservesValid(RegisterAll(calls[..|calls| - 1]), last.key, last.value);
      Register(RegisterAll(calls[..|calls| - 1]), last.key, last.value)
  }

  lemma {:induction false} RegisterAllIsSetAll<A>(calls: seq<InsertionMap.Entry<Factory<A>>>)
    ensures RegisterAll(calls).components == InsertionMap.SetAll(calls)
  {
    if |calls| > 0 {
      RegisterAllIsSetAll(calls[..|calls| - 1]);
    }
  }

  /** After any sequence of registrations, `getRegisteredComponents` lists exactly the
      registered names, each once, in the order of their first registration, and each
      name loads the factory registered last under it. */
  lemma RegisteredInFirstOrder<A>(calls: seq<InsertionMap.Entry<Factory<A>>>)
    ensures forall k :: k in RegisteredComponents(RegisterAll(calls)) <==> InsertionMap.Mentions(calls, k)
    ensures forall i, j :: 0 <= i < j < |RegisteredComponents(RegisterAll(calls))| ==>
              InsertionMap.FirstIndex(calls, RegisteredComponents(RegisterAll(calls))[i])
                < InsertionMap.FirstIndex(calls, RegisteredComponents(RegisterAll(calls))[j])
    ensures forall k :: InsertionMap.Mentions(calls, k) ==>
              RegisterAll(calls).components.entries[k] == calls[InsertionMap.LastIndex(calls, k)].value
  {
    RegisterAllIsSetAll(calls);
    InsertionMap.SetAllEntries(calls);
    InsertionMap.SetAllOrder(calls);
  }

  /** The factories invoked by a sequence of `load` calls on the same registry, in order.
      Which factory a load invokes does not depend on whether its promise rejects. */
  function Invocations<A>(reg: Registry<A>, names: seq<string>): seq<Factory<A>> {
    if |names| == 0 then []
    else LoadComponent(reg, names[0], Completes).invoked + Invocations(reg, names[1..])
  }

  /** How many of the names are unregistered. */
  function UnknownCount<A>(reg: Registry<A>, names: seq<string>): nat {
    if |names| == 0 then 0
    else (if names[0] in reg.components.entries then 0 else 1) + UnknownCount(reg, names[1..])
  }

  /** Every load of a registered name invokes exactly one factory, and a load of an unknown
      name invokes none. */
  lemma {:induction false} InvocationCount<A>(reg: Registry<A>, names: seq<string>)
    ensures |Invocations(reg, names)| == |names| - UnknownCount(reg, names)
  {
    if |names| > 0 {
      InvocationCount(reg, names[1..]);
    }
  }

  function Repeat<T>(x: T, n: nat): (xs: seq<T>)
    ensures |xs| == n && forall i :: 0 <= i < n ==> xs[i] == x
  {
    seq(n, _ => x)
  }

  /** No memoisation: `n` loads of a registered name invoke its factory `n` times, and
      each returns what the factory yields. */
  lemma {:induction false} RepeatedLoadsInvokeEachTime<A>(reg: Registry<A>, name: string, n: nat)
    requires name in reg.components.entries
    ensures Invocations(reg, Repeat(name, n)) == Repeat(reg.components.entries[name], n)
  {
    if n > 0 {
      assert Repeat(name, n)[1..] == Repeat(name, n - 1);
      RepeatedLoadsInvokeEachTime(reg, name, n - 1);
    }
  }
}
