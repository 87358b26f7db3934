/** The scoping layer of `createRefsStore` (and the older `createRefsStore`
    and `createDOMRegistry`): each call creates its own context; its Provider
    publishes one store to the subtree and its accessor looks up the nearest
    enclosing Provider of that same context. */
module Provider {
  import opened Values
  import opened RefsStore
  import opened Binder

  /** The identity of the context one `createRefsStore` call creates; two
      calls never share one. */
  type ContextId = nat

  /** One Provider on the path from the root to a consumer, publishing
      `value` under `context`. */
  datatype Scope = Scope(context: ContextId, value: StoreRef)

  /** `useContext`: the value of the innermost Provider of context `c` on
      the path (outermost first), or `None` when there is no such Provider. */
  function Nearest(path: seq<Scope>, c: ContextId): (r: Option<StoreRef>)
    ensures r.None? <==> forall i :: 0 <= i < |path| ==> path[i].context != c
    ensures r.Some? ==>
              exists i :: 0 <= i < |path| && path[i] == Scope(c, r.value)
                          && forall j :: i < j < |path| ==> path[j].context != c
  {
    if |path| == 0 then None
    else if path[|path| - 1].context == c then Some(path[|path| - 1].value)
    else Nearest(path[..|path| - 1], c)
  }

  /** `externalRefsStore || internalRefsStore`: a supplied store wins. */
  function ProvidedStore(external: Option<StoreRef>, internal: StoreRef): (s: StoreRef)
    ensures external.Some? ==> s == external.value
    ensures external.None? ==> s == internal
  {
    match external
    case Some(e) => e
    case None => internal
  }

  datatype Mounted<E> = Mounted(heap: Heap<E>, scope: Scope)

  /** Mounting a Provider of context `c`: its internal store is always
      created (a new object, so a reference not yet in the heap) and starts
      empty; the published store is the external one when supplied. */
  function MountProvider<E>(h: Heap<E>, c: ContextId, external: Option<StoreRef>, internal: StoreRef): (m: Mounted<E>)
    requires internal !in h && external != Some(internal)
    ensures m.scope.context == c
    ensures forall k :: !At(m.heap, internal).Has(k)
    ensures forall s, k :: s != internal ==> At(m.heap, s).Get(k) == At(h, s).Get(k)
    ensures external.Some? ==> m.scope.value == external.value
    ensures external.None? ==> m.scope.value == internal
  {
    Mounted(h[internal := Empty()], Scope(c, ProvidedStore(external, internal)))
  }

  /** `part` occurs in `text` starting at index `i`. */
  ghost predicate OccursAt(text: string, part: string, i: int) {
    0 <= i && i + |part| <= |text| && text[i..i + |part|] == part
  }

  /** A substring test for error messages. */
  ghost predicate Contains(text: string, part: string) {
    exists i :: OccursAt(text, part, i)
  }

  lemma ContainsMiddle(before: string, part: string, after: string)
    ensures Contains(before + part + after, part)
  {
    assert OccursAt(before + part + after, part, |before|);
  }

  /** The messages the accessors throw, spelled as the concatenation of the
      phrases the callers rely on. */
  const StoreMissing: string := "useStore must be used within a RefsStore.Provider"
  const RegistryPhrase: string := "useRegistry must be used within a DOMRegistry.Provider"
  const OptOutHint: string := "{ optional: true }"
  const LegacyStoreMissing: string :=
    StoreMissing + ". If you want to use it outside, pass " + OptOutHint + " option."
  const RegistryMissing: string :=
    RegistryPhrase + ". If you want to use it outside, pass " + OptOutHint + " option."

  /** The strict accessor `useStore`: the found store unchanged, or an error
      naming the missing Provider. */
  function UseStore(found: Option<StoreRef>): (r: Result<StoreRef>)
    ensures r.Thrown? <==> found.None?
    ensures r.Ok? ==> r.value == found.value
    ensures r.Thrown? ==> Contains(r.message, StoreMissing)
  {
    ContainsMiddle("", StoreMissing, "");
    assert "" + StoreMissing + "" == StoreMissing;
    match found
    case Some(s) => Ok(s)
    case None => Thrown(StoreMissing)
  }

  /** The options object of the older accessors. */
  datatype AccessorOptions = AccessorOptions(optional: Option<bool>)

  /** `options?.optional` is truthy. */
  predicate Optional(options: Option<AccessorOptions>) {
    options.Some? && options.value.optional == Some(true)
  }

  /** The older accessors: a miss throws `message` unless the caller asked
      for optional mode, in which case it yields `null`. */
  function Access(found: Option<StoreRef>, options: Option<AccessorOptions>, message: string): Result<Option<StoreRef>> {
    if found.None? && !Optional(options) then Thrown(message) else Ok(found)
  }

  /** `useStore` of the older `createRefsStore`. */
  function UseStoreOrNull(found: Option<StoreRef>, options: Option<AccessorOptions>): (r: Result<Option<StoreRef>>)
    ensures r.Thrown? <==> found.None? && !Optional(options)
    ensures r.Ok? ==> r.value == found
    ensures r.Thrown? ==> Contains(r.message, StoreMissing)
    ensures r.Thrown? ==> Contains(r.message, OptOutHint)
  {
    var rest := ". If you want to use it outside, pass " + OptOutHint + " option.";
    ContainsMiddle("", StoreMissing, rest);
    assert "" + StoreMissing + rest == LegacyStoreMissing;
    ContainsMiddle(StoreMissing + ". If you want to use it outside, pass ", OptOutHint, " option.");
    Access(found, options, LegacyStoreMissing)
  }

  /** `useRegistry` of `createDOMRegistry`. */
  function UseRegistry(found: Option<StoreRef>, options: Option<AccessorOptions>): (r: Result<Option<StoreRef>>)
    ensures r.Thrown? <==> found.None? && !Optional(options)
    ensures r.Ok? ==> r.value == found
    ensures r.Thrown? ==> Contains(r.message, RegistryPhrase)
    ensures r.Thrown? ==> Contains(r.message, OptOutHint)
  {
    var rest := ". If you want to use it outside, pass " + OptOutHint + " option.";
    ContainsMiddle("", RegistryPhrase, rest);
    assert "" + RegistryPhrase + rest == RegistryMissing;
    ContainsMiddle(RegistryPhrase + ". If you want to use it outside, pass ", OptOutHint, " option.");
    Access(found, options, RegistryMissing)
  }

  /** The innermost Provider of a context is the one a consumer sees. */
  lemma InnermostProviderWins(path: seq<Scope>, c: ContextId, v: StoreRef)
    ensures Nearest(path + [Scope(c, v)], c) == Some(v)
  {
  }

  /** A Provider of another context is transparent to this context's
      lookup, so one pair's accessor never yields another pair's store. */
  lemma {:induction false} OtherContextsAreTransparent(path: seq<Scope>, c: ContextId, d: ContextId, v: StoreRef)
    requires c != d
    ensures Nearest(path + [Scope(d, v)], c) == Nearest(path, c)
  {
    assert (path + [Scope(d, v)])[..|path|] == path;
  }

  /** A consumer directly under a Provider given an external store receives
      that very store. */
  lemma ExternalStoreIsPublished<E>(h: Heap<E>, path: seq<Scope>, c: ContextId, external: StoreRef, internal: StoreRef)
    requires internal !in h && external != internal
    ensures var m := MountProvider(h, c, Some(external), internal);
            && UseStore(Nearest(path + [m.scope], c)) == Ok(external)
            && UseStoreOrNull(Nearest(path + [m.scope], c), None) == Ok(Some(external))
            && UseRegistry(Nearest(path + [m.scope], c), None) == Ok(Some(external))
  {
  }

  /** Without an external store the consumer receives the Provider's own
      store, and it is empty. */
  lemma InternalStoreIsPublished<E>(h: Heap<E>, path: seq<Scope>, c: ContextId, internal: StoreRef)
    requires internal !in h
    ensures var m := MountProvider(h, c, None, internal);
            && UseStore(Nearest(path + [m.scope], c)) == Ok(internal)
            && forall k :: !At(m.heap, internal).Has(k)
  {
  }

  /** Nested Providers of two different pairs, each with its own store: the
      inner consumer reaches both, and they are different stores. */
  lemma NestedPairsKeepTheirStores<E>(h: Heap<E>, outer: ContextId, inner: ContextId, s1: StoreRef, s2: StoreRef)
    requires outer != inner && s1 !in h && s2 != s1 && s2 !in h
    ensures var m1 := MountProvider(h, outer, None, s1);
            var m2 := MountProvider(m1.heap, inner, None, s2);
            var path := [m1.scope, m2.scope];
            && UseStore(Nearest(path, outer)) == Ok(s1)
            && UseStore(Nearest(path, inner)) == Ok(s2)
            && Nearest(path, outer) != Nearest(path, inner)
  {
    var m1 := MountProvider(h, outer, None, s1);
    var m2 := MountProvider(m1.heap, inner, None, s2);
    OtherContextsAreTransparent([m1.scope], outer, inner, s2);
    assert [m1.scope, m2.scope] == [m1.scope] + [m2.scope];
    assert [m1.scope] == [] + [m1.scope];
  }

  /** Outside every Provider of its context the strict accessor throws,
      while the older accessors in optional mode return `null`. */
  lemma OutsideProvider(path: seq<Scope>, c: ContextId)
    requires forall i :: 0 <= i < |path| ==> path[i].context != c
    ensures UseStore(Nearest(path, c)).Thrown?
    ensures UseStoreOrNull(Nearest(path, c), Some(AccessorOptions(Some(true)))) == Ok(None)
    ensures UseRegistry(Nearest(path, c), Some(AccessorOptions(Some(true)))) == Ok(None)
    ensures UseStoreOrNull(Nearest(path, c), None).Thrown?
  {
  }
}
