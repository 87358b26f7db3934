/** Whole lifetimes of one binder: any sequence of commits, animation frames
    and a final teardown, and what the binder may have written on the way. */
module BinderTrace {
  import opened Values
  import opened RefsStore
  import opened Binder

  /** What the host does to one hook: commit a render with these effect
      dependencies and this slot content, deliver an animation frame (the
      slot as it is at that moment), or unmount the component. */
  datatype Event<E> = Commit(binding: Binding, slot: Nullable<E>) | AnimationFrame(slot: Nullable<E>) | Teardown

  function Apply<E>(w: World<E>, ev: Event<E>): World<E> {
    match ev
    case Commit(b, slot) => Render(w.heap, w.hook, b, slot)
    case AnimationFrame(slot) => Frame(w.heap, w.hook, slot)
    case Teardown => Unmount(w.heap, w.hook)
  }

  function CleanupWrites(e: Effect): set<(StoreRef, Key)> {
    if e.Live? then {(e.store, e.key)} else {}
  }

  /** The store entries an event hands to `register` or `unregister`. */
  function Writes<E>(hook: Hook, ev: Event<E>): set<(StoreRef, Key)> {
    match ev
    case Commit(b, slot) =>
      if hook.deps == Some(b) then {}
      else
        CleanupWrites(hook.effect) +
        (if b.store.Some? && b.isEnabled && !b.isDefer && slot.Present? then {(b.store.value, b.key)} else {})
    case AnimationFrame(slot) =>
      var e := hook.effect;
      if e.Live? && e.framePending && slot.Present? then {(e.store, e.key)} else {}
    case Teardown => CleanupWrites(hook.effect)
  }

  /** The world after a run of events, and every entry written along it. */
  datatype Trace<E> = Trace(world: World<E>, written: set<(StoreRef, Key)>)

  function Run<E>(start: World<E>, evs: seq<Event<E>>): Trace<E> {
    if |evs| == 0 then Trace(start, {})
    else
      var t := Run(start, evs[..|evs| - 1]);
      var ev := evs[|evs| - 1];
      Trace(Apply(t.world, ev), t.written + Writes(t.world.hook, ev))
  }

  /** Relative to the heap `h0` at mount: entries never written are as they
      were, and a written entry is present only while it is the registered
      entry of the live binding. */
  ghost predicate Accounted<E>(h0: Heap<E>, w: World<E>, written: set<(StoreRef, Key)>) {
    && (forall s: StoreRef, k: Key :: (s, k) !in written ==> At(w.heap, s).Get(k) == At(h0, s).Get(k))
    && (forall s: StoreRef, k: Key :: (s, k) in written && At(w.heap, s).Has(k) ==> w.hook.effect == Live(s, k, false))
  }

  lemma CleanupAccounted<E>(h0: Heap<E>, w: World<E>, written: set<(StoreRef, Key)>)
    requires Accounted(h0, w, written)
    ensures Accounted(h0, World(Cleanup(w.heap, w.hook.effect).heap, Hook(w.hook.deps, Inert)),
                      written + CleanupWrites(w.hook.effect))
  {
  }

  lemma {:induction false} ApplyAccounted<E>(h0: Heap<E>, w: World<E>, written: set<(StoreRef, Key)>, ev: Event<E>)
    requires Accounted(h0, w, written)
    ensures Accounted(h0, Apply(w, ev), written + Writes(w.hook, ev))
  {
    match ev
    case Commit(b, slot) =>
      if w.hook.deps != Some(b) {
        var c := Cleanup(w.heap, w.hook.effect);
        var mid := written + CleanupWrites(w.hook.effect);
        CleanupAccounted(h0, w, written);
        assert Accounted(h0, World(c.heap, Hook(w.hook.deps, Inert)), mid);
      }
    case AnimationFrame(slot) =>
    case Teardown =>
      CleanupAccounted(h0, w, written);
  }

  lemma {:induction false} RunAccounted<E>(h0: Heap<E>, evs: seq<Event<E>>)
    ensures var t := Run(World(h0, Unmounted()), evs); Accounted(h0, t.world, t.written)
  {
    if |evs| > 0 {
      var t := Run(World(h0, Unmounted()), evs[..|evs| - 1]);
      RunAccounted(h0, evs[..|evs| - 1]);
      ApplyAccounted(h0, t.world, t.written, evs[|evs| - 1]);
    }
  }

  /** Whatever happened between mount and unmount, after the unmount the
      binder leaves no trace: every entry it ever wrote is absent, and every
      other entry of every store is as it was before the mount. */
  lemma TeardownLeavesNoTrace<E>(h0: Heap<E>, evs: seq<Event<E>>)
    ensures var t := Run(World(h0, Unmounted()), evs + [Teardown]);
            && t.world.hook == Unmounted()
            && (forall s: StoreRef, k: Key :: (s, k) in t.written ==> !At(t.world.heap, s).Has(k))
            && (forall s: StoreRef, k: Key :: (s, k) !in t.written ==> At(t.world.heap, s).Get(k) == At(h0, s).Get(k))
  {
    var all := evs + [Teardown];
    assert all[..|all| - 1] == evs;
    RunAccounted(h0, all);
  }

  /** A binder writes only entries named by a commit that had a store and was
      enabled. */
  ghost predicate NamedByEnabledCommit<E>(evs: seq<Event<E>>, s: StoreRef, k: Key) {
    exists i :: 0 <= i < |evs| && evs[i].Commit? && evs[i].binding.store == Some(s)
                && evs[i].binding.key == k && evs[i].binding.isEnabled
  }

  lemma NamedByPrefix<E>(evs: seq<Event<E>>, n: nat, s: StoreRef, k: Key)
    requires n <= |evs| && NamedByEnabledCommit(evs[..n], s, k)
    ensures NamedByEnabledCommit(evs, s, k)
  {
    var i :| 0 <= i < n && evs[..n][i].Commit? && evs[..n][i].binding.store == Some(s)
              && evs[..n][i].binding.key == k && evs[..n][i].binding.isEnabled;
    assert evs[i] == evs[..n][i];
  }

  lemma {:induction false} WritesOnlyEnabledCommitKeys<E>(h0: Heap<E>, evs: seq<Event<E>>)
    ensures var t := Run(World(h0, Unmounted()), evs);
            && (t.world.hook.effect.Live? ==>
                  NamedByEnabledCommit(evs, t.world.hook.effect.store, t.world.hook.effect.key))
            && (forall s: StoreRef, k: Key :: (s, k) in t.written ==> NamedByEnabledCommit(evs, s, k))
  {
    if |evs| > 0 {
      var n := |evs| - 1;
      var prev := evs[..n];
      var t := Run(World(h0, Unmounted()), prev);
      var ev := evs[n];
      WritesOnlyEnabledCommitKeys(h0, prev);
      if t.world.hook.effect.Live? {
        NamedByPrefix(evs, n, t.world.hook.effect.store, t.world.hook.effect.key);
      }
      forall s, k | (s, k) in t.written
        ensures NamedByEnabledCommit(evs, s, k)
      {
        NamedByPrefix(evs, n, s, k);
      }
      if ev.Commit? && ev.binding.store.Some? && ev.binding.isEnabled {
        assert evs[n] == ev;
        assert NamedByEnabledCommit(evs, ev.binding.store.value, ev.binding.key);
      }
    }
  }

  /** After the cleanup has run, animation frames change nothing: a cancelled
      callback never registers a stale element. */
  lemma {:induction false} FramesAfterCleanupAreInert<E>(w: World<E>, slots: seq<Nullable<E>>)
    requires w.hook.effect == Inert
    ensures var t := Run(w, seq(|slots|, i requires 0 <= i < |slots| => AnimationFrame(slots[i])));
            t.world == w && t.written == {}
  {
    if |slots| > 0 {
      var evs := seq(|slots|, i requires 0 <= i < |slots| => AnimationFrame(slots[i]));
      var prefix := slots[..|slots| - 1];
      FramesAfterCleanupAreInert(w, prefix);
      assert evs[..|evs| - 1] == seq(|prefix|, i requires 0 <= i < |prefix| => AnimationFrame(prefix[i]));
    }
  }
}
