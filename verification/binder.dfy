/** The registration binder (`useRegisterRef`, and its copies `useRegisterRef`
    and `useDOMRegistration` of the older API) as an event-driven state
    machine. The layout effect becomes `Activate`, the animation-frame
    callback `Fire`, and the effect's cleanup `Cleanup`. Stores are objects
    shared between bindings, so the binder acts on a heap of stores indexed by
    object reference. */
module Binder {
  import opened Values
  import opened RefsStore

  /** The identity of a store object. */
  type StoreRef = nat

  /** The hook's options object; a field left out is `None`. */
  datatype BindOptions = BindOptions(isDefer: Option<bool>, isEnabled: Option<bool>)

  /** The effect's dependency list `[store, key, isDefer, isEnabled]`, with
      the options resolved. */
  datatype Binding = Binding(store: Option<StoreRef>, key: Key, isDefer: bool, isEnabled: bool)

  /** Resolves the hook's arguments: an omitted options object is `{}`, and
      each omitted option defaults to `true`. */
  function Bind(store: Option<StoreRef>, key: Key, options: Option<BindOptions>): (b: Binding)
    ensures b.store == store && b.key == key
    ensures !b.isDefer <==> options.Some? && options.value.isDefer == Some(false)
    ensures !b.isEnabled <==> options.Some? && options.value.isEnabled == Some(false)
  {
    var o := if options.Some? then options.value else BindOptions(None, None);
    Binding(store, key, WithDefault(o.isDefer, true), WithDefault(o.isEnabled, true))
  }

  /** Every store object by reference; a reference never written reads as an
      empty store. */
  type Heap<E> = map<StoreRef, Store<E>>

  function At<E>(h: Heap<E>, s: StoreRef): Store<E> {
    if s in h then h[s] else Empty()
  }

  /** `h2` agrees with `h1` on every store and key except key `k` of store `s`. */
  ghost predicate SameExcept<E>(h1: Heap<E>, h2: Heap<E>, s: StoreRef, k: Key) {
    forall t, j :: t != s || j != k ==> At(h2, t).Get(j) == At(h1, t).Get(j)
  }

  /** What a run of the layout effect leaves behind. `Inert`: its cleanup does
      nothing (no store, disabled, or never mounted). `Live`: its cleanup
      unregisters `key` in `store`; `framePending` says whether its
      animation-frame callback is still scheduled. */
  datatype Effect = Inert | Live(store: StoreRef, key: Key, framePending: bool)

  datatype Step<E> = Step(heap: Heap<E>, effect: Effect)

  /** The `register` closure: it reads the element slot and calls
      `store.register` only when the slot holds an element, so an empty slot
      leaves the store untouched rather than deleting the key. */
  function RegisterSlot<E>(h: Heap<E>, s: StoreRef, k: Key, slot: Nullable<E>): (h2: Heap<E>)
    ensures slot.Present? ==> At(h2, s).Get(k) == slot
    ensures !slot.Present? ==> h2 == h
    ensures SameExcept(h, h2, s, k)
  {
    if slot.Truthy() then h[s := At(h, s).Register(k, slot)] else h
  }

  /** The layout effect body. Without a store or when disabled it does nothing
      and leaves a no-op cleanup; deferred, it only schedules the frame
      callback; otherwise it registers the slot's element at once. */
  function Activate<E>(h: Heap<E>, b: Binding, slot: Nullable<E>): (r: Step<E>)
    ensures b.store.None? || !b.isEnabled ==> r == Step(h, Inert)
    ensures b.store.Some? && b.isEnabled && b.isDefer ==>
              r == Step(h, Live(b.store.value, b.key, true))
    ensures b.store.Some? && b.isEnabled && !b.isDefer ==>
              && r.effect == Live(b.store.value, b.key, false)
              && (slot.Present? ==> At(r.heap, b.store.value).Get(b.key) == slot)
              && (!slot.Present? ==> r.heap == h)
              && SameExcept(h, r.heap, b.store.value, b.key)
  {
    match b.store
    case None => Step(h, Inert)
    case Some(s) =>
      if !b.isEnabled then Step(h, Inert)
      else if b.isDefer then Step(h, Live(s, b.key, true))
      else Step(RegisterSlot(h, s, b.key, slot), Live(s, b.key, false))
  }

  /** The animation frame arrives. Only a scheduled callback runs; it reads
      the slot as it is now and registers only a present element. */
  function Fire<E>(h: Heap<E>, e: Effect, slot: Nullable<E>): (r: Step<E>)
    ensures e.Live? && e.framePending ==>
              && r.effect == Live(e.store, e.key, false)
              && (slot.Present? ==> At(r.heap, e.store).Get(e.key) == slot)
              && (!slot.Present? ==> r.heap == h)
              && SameExcept(h, r.heap, e.store, e.key)
    ensures !(e.Live? && e.framePending) ==> r == Step(h, e)
  {
    match e
    case Live(s, k, true) => Step(RegisterSlot(h, s, k, slot), Live(s, k, false))
    case _ => Step(h, e)
  }

  /** The effect's cleanup: cancel a scheduled frame callback, then
      unconditionally unregister the key of the binding that is ending. */
  function Cleanup<E>(h: Heap<E>, e: Effect): (r: Step<E>)
    ensures r.effect == Inert
    ensures e.Inert? ==> r.heap == h
    ensures e.Live? ==> !At(r.heap, e.store).Has(e.key) && SameExcept(h, r.heap, e.store, e.key)
  {
    match e
    case Inert => Step(h, Inert)
    case Live(s, k, _) => Step(h[s := At(h, s).Unregister(k)], Inert)
  }

  /** One mounted hook: the dependencies of its last effect run (`None` when
      unmounted) and what that run left behind. */
  datatype Hook = Hook(deps: Option<Binding>, effect: Effect)

  datatype World<E> = World(heap: Heap<E>, hook: Hook)

  function Unmounted(): Hook {
    Hook(None, Inert)
  }

  /** Whether the effect `e` is live on key `k` of store `s`. */
  predicate LiveOn(e: Effect, s: StoreRef, k: Key) {
    e.Live? && e.store == s && e.key == k
  }

  /** A render commits. The effect runs again only when a dependency changed,
      and then as a cleanup of the old binding followed by an activation of
      the new one. */
  function Render<E>(h: Heap<E>, hook: Hook, b: Binding, slot: Nullable<E>): (w: World<E>)
    ensures w.hook.deps == Some(b)
    ensures hook.deps == Some(b) ==> w == World(h, hook)
    ensures hook.deps != Some(b) && hook.effect.Live?
            && !(b.store == Some(hook.effect.store) && b.key == hook.effect.key
                 && b.isEnabled && !b.isDefer && slot.Present?) ==>
              !At(w.heap, hook.effect.store).Has(hook.effect.key)
    ensures hook.deps != Some(b) && (b.store.None? || !b.isEnabled) ==> w.hook.effect == Inert
    ensures hook.deps != Some(b) && b.store.Some? && b.isEnabled ==>
              w.hook.effect == Live(b.store.value, b.key, b.isDefer)
    ensures hook.deps != Some(b) && b.store.Some? && b.isEnabled && !b.isDefer && slot.Present? ==>
              At(w.heap, b.store.value).Get(b.key) == slot
    ensures forall t: StoreRef, j: Key ::
              !LiveOn(hook.effect, t, j)
              && !(b.store == Some(t) && b.key == j && b.isEnabled && !b.isDefer && slot.Present?) ==>
                At(w.heap, t).Get(j) == At(h, t).Get(j)
  {
    if hook.deps == Some(b) then World(h, hook)
    else
      var c := Cleanup(h, hook.effect);
      var a := Activate(c.heap, b, slot);
      World(a.heap, Hook(Some(b), a.effect))
  }

  /** The animation frame arrives for this hook: a scheduled callback runs
      once, registering the slot's element if there is one; otherwise
      nothing happens. */
  function Frame<E>(h: Heap<E>, hook: Hook, slot: Nullable<E>): (w: World<E>)
    ensures w.hook.deps == hook.deps
    ensures hook.effect.Live? && hook.effect.framePending ==>
              && w.hook.effect == Live(hook.effect.store, hook.effect.key, false)
              && (slot.Present? ==> At(w.heap, hook.effect.store).Get(hook.effect.key) == slot)
              && (!slot.Present? ==> w.heap == h)
              && SameExcept(h, w.heap, hook.effect.store, hook.effect.key)
    ensures !(hook.effect.Live? && hook.effect.framePending) ==> w == World(h, hook)
  {
    var f := Fire(h, hook.effect, slot);
    World(f.heap, Hook(hook.deps, f.effect))
  }

  /** The component unmounts: the last effect's cleanup runs. */
  function Unmount<E>(h: Heap<E>, hook: Hook): (w: World<E>)
    ensures w.hook == Unmounted()
    ensures hook.effect.Inert? ==> w.heap == h
    ensures hook.effect.Live? ==>
              && !At(w.heap, hook.effect.store).Has(hook.effect.key)
              && SameExcept(h, w.heap, hook.effect.store, hook.effect.key)
  {
    World(Cleanup(h, hook.effect).heap, Unmounted())
  }

  /** A binding without a store, or a disabled one, never touches the store:
      not on mount, not when a frame arrives, not on unmount. */
  lemma InertBindingNeverWrites<E>(h: Heap<E>, b: Binding, slot: Nullable<E>, later: Nullable<E>)
    requires b.store.None? || !b.isEnabled
    ensures var m := Render(h, Unmounted(), b, slot);
            && m.heap == h
            && Frame(m.heap, m.hook, later).heap == h
            && Unmount(m.heap, m.hook).heap == h
  {
  }

  /** Without deferral the element is in the store as soon as the effect has
      run, and unmounting removes it. */
  lemma ImmediateMountAndUnmount<E>(h: Heap<E>, s: StoreRef, k: Key, el: E)
    ensures var m := Render(h, Unmounted(), Binding(Some(s), k, false, true), Present(el));
            && At(m.heap, s).Get(k) == Present(el)
            && !At(Unmount(m.heap, m.hook).heap, s).Has(k)
  {
  }

  /** With deferral nothing is registered at mount; the frame registers the
      element the slot holds when it fires, and a frame that finds the slot
      empty registers nothing. */
  lemma DeferredMountWaitsForFrame<E>(h: Heap<E>, s: StoreRef, k: Key, atMount: Nullable<E>, el: E)
    ensures var m := Render(h, Unmounted(), Binding(Some(s), k, true, true), atMount);
            && m.heap == h
            && At(Frame(m.heap, m.hook, Present(el)).heap, s).Get(k) == Present(el)
            && Frame(m.heap, m.hook, Null).heap == h
  {
  }

  /** Unmounting before the frame cancels the callback: the key is absent, and
      a frame arriving afterwards cannot register a stale element. */
  lemma UnmountBeforeFrameCancels<E>(h: Heap<E>, s: StoreRef, k: Key, atMount: Nullable<E>, el: E)
    ensures var m := Render(h, Unmounted(), Binding(Some(s), k, true, true), atMount);
            var u := Unmount(m.heap, m.hook);
            && !At(u.heap, s).Has(k)
            && Frame(u.heap, u.hook, Present(el)) == u
  {
  }

  /** Changing the key from `a` to `b` leaves `a` absent and, once the frame
      has fired, `b` holding the element: cleanup uses the old key. */
  lemma RebindMovesKey<E>(h: Heap<E>, s: StoreRef, a: Key, b: Key, el: E)
    requires a != b
    ensures var m1 := Render(h, Unmounted(), Binding(Some(s), a, true, true), Present(el));
            var f1 := Frame(m1.heap, m1.hook, Present(el));
            var m2 := Render(f1.heap, f1.hook, Binding(Some(s), b, true, true), Present(el));
            var f2 := Frame(m2.heap, m2.hook, Present(el));
            && At(f1.heap, s).Get(a) == Present(el)
            && !At(f2.heap, s).Has(a)
            && At(f2.heap, s).Get(b) == Present(el)
  {
  }

  /** Disabling a live binding removes its key even when another party has
      meanwhile overwritten the entry: the unregister is unconditional. */
  lemma DisablingRemovesOverwrittenKey<E>(h: Heap<E>, s: StoreRef, k: Key, mine: E, theirs: E)
    ensures var on := Binding(Some(s), k, true, true);
            var m := Render(h, Unmounted(), on, Present(mine));
            var f := Frame(m.heap, m.hook, Present(mine));
            var overwritten := f.heap[s := At(f.heap, s).Register(k, Present(theirs))];
            var off := Render(overwritten, f.hook, on.(isEnabled := false), Present(mine));
            && At(overwritten, s).Get(k) == Present(theirs)
            && !At(off.heap, s).Has(k)
            && off.hook.effect == Inert
  {
  }
}
