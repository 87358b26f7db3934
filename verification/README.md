# react-ref-store, modelled in Dafny

This project models the core of `react-ref-store`, a small React library that
keeps a registry of DOM element handles by string key. It has three parts:

- **The store** (`useRefsStore`, and the older `useRefsMap`, which the root
  `index.ts` re-exports as `useDOMRegistry`). It maps keys to elements and
  offers `register`, `unregister`, `get`, `has` and `clear`. The older variant
  returns `null` instead of `undefined` from `get` and adds a `getAll` snapshot.
- **The binder** (`useRegisterRef` in `src/`, plus the identical root
  `useRegisterRef` and `useDOMRegistration`). One hook binds one element slot
  to one key of a store. A layout effect registers the element, either at once
  or on the next animation frame. The effect's cleanup cancels a pending frame
  and unregisters the key.
- **The Provider/accessor pair** (`createRefsStore` in `src/`, the older root
  `createRefsStore`, and `createDOMRegistry`). A Provider publishes an external
  store or its own internal one. The accessor finds the nearest Provider of
  its own context, and either throws when there is none or, in the older
  variants' optional mode, returns `null`.

Files:

- `values.dfy` (module `Values`): the JavaScript value shapes. `Option` stands
  for a possibly-`null` reference or omitted option. `Result` is a return or a
  thrown error. `Nullable` is `undefined`, `null` or an element, with JavaScript
  truthiness and `||`.
- `refs_store.dfy` (module `RefsStore`): the store as an immutable
  `map<Key, E>` value. `E` is an opaque element type.
- `store_history.dfy` (module `StoreHistory`): the store's data invariant,
  stated over call histories. A key holds `e` exactly when the last call
  concerning that key was `register(key, e)`. This is proved against the
  replayed store.
- `binder.dfy` (module `Binder`): the binder as a state machine. React's
  layout effect becomes `Activate`, the animation frame becomes `Fire`, and
  the cleanup becomes `Cleanup`. `Render`, `Frame` and `Unmount` are the host
  events. They act on a heap of stores indexed by object reference
  (`StoreRef`), so a change of store is modelled too. A commit re-runs the
  effect only when the dependency list `[store, key, isDefer, isEnabled]`
  changed.
- `binder_trace.dfy` (module `BinderTrace`): arbitrary event sequences for one
  binder. Along any run, entries the binder never wrote stay as they were, and
  a written entry is present only while it is the live binding's registered
  entry. So after unmount the binder leaves no trace. A run has one binder and
  no other writer, so "as they were" is relative to that isolation. The
  pending frame is a flag inside the effect, and the cleanup discards the
  effect. A frame after the cleanup therefore cannot register a stale element
  by construction; `FramesAfterCleanupAreInert` records this over any number
  of frames.
- `provider.dfy` (module `Provider`): contexts, nearest-Provider lookup, the
  Provider's store choice and the three accessors.

The three binder sources are line-for-line the same logic:
`src/useRegisterRef.ts:45-65`, `useRegisterRef.ts:39-59` and
`useDOMRegistration.ts:39-59`. The binder is modelled once. The rows below
cite whichever copy the member's property is stated for. The binder only
calls `register` and `unregister`, which behave the same in every store
variant.

One detail of the code matters and is modelled: the binder's `register`
closure calls `store.register` only when the slot holds an element. An empty
slot at registration time therefore leaves the store untouched. It does not
delete the key, although `store.register(key, null)` would.

The `src/` accessor `useStore` has no optional mode: it always throws on a
miss. Only the older root `useStore` and `useRegistry` accept
`{ optional: true }`.

A Provider's internal store is a new object. `Provider.MountProvider`
therefore requires that its reference is not yet in the heap and differs from
the external store.

## Model

| member | source | states |
|---|---|---|
| `RefsStore.Store.Get` | src/useRefsStore.ts:41-43 | yields an element exactly for a stored key, that key's element, and `undefined` (never `null`) otherwise |
| `RefsStore.Store.Has` | src/useRefsStore.ts:45-47 | `has(k)` holds exactly when `get(k)` yields an element |
| `RefsStore.Store.GetOrNull` | useRefsMap.ts:37-39 | the older `get` yields `null` (never `undefined`) for a missing key and the same element as `get` for a stored one, so `has(k)` holds exactly when it is non-null |
| `RefsStore.Store.GetAll` | useRefsMap.ts:41-43 | the snapshot holds exactly the keys `has` reports, each with the element `get` returns |
| `RefsStore.Store.Unregister` | src/useRefsStore.ts:37-39 | afterwards the key is absent whether or not it was present; every other key reads as before |
| `RefsStore.Store.Register` | src/useRefsStore.ts:29-35 | a present element becomes what `get` returns for the key; an absent element gives exactly the store `unregister` gives; other keys are unchanged |
| `RefsStore.Store.Clear` | src/useRefsStore.ts:49-51 | afterwards no key is present and the snapshot is empty |
| `RefsStore.Empty` | src/useRefsStore.ts:27 | a new store has no key: `has` is false, `get` is `undefined`, the older `get` is `null` |
| `RefsStore.RegisterOverwrites` | src/useRefsStore.ts:29-32 | a second `register` on the same key replaces the effect of the first |
| `RefsStore.UnregisterIdempotent` | useRefsMap.ts:33-35 | unregistering twice is the same as unregistering once |
| `RefsStore.UnregisterUndoesRegister` | src/useRefsStore.ts:29-39 | `unregister(k)` after `register(k, e)` equals `unregister(k)` alone; on a store without `k` it restores the store |
| `RefsStore.DistinctKeysCommute` | useRefsMap.ts:25-31 | registrations on different keys commute |
| `StoreHistory.ReplayMatchesHistory` | src/useRefsStore.ts:29-51 | after any sequence of calls, `get(k)` yields `e` exactly when the last call concerning `k` was `register(k, e)` with a present `e` |
| `StoreHistory.ReplayHasMatchesHistory` | useRefsMap.ts:25-51 | after any sequence of calls, `has(k)` holds exactly when the history decides some element for `k` |
| `Binder.Bind` | src/useRegisterRef.ts:40-42 | an omitted options object or option means `isDefer = true` and `isEnabled = true`; each is false only when passed as `false` |
| `Binder.RegisterSlot` | useDOMRegistration.ts:42-46 | the frame/sync callback stores the slot's element when there is one, and otherwise leaves every store untouched; only that key of that store can change |
| `Binder.Activate` | src/useRegisterRef.ts:45-64 | without a store or when disabled nothing changes and the cleanup is a no-op; deferred, nothing is written and a frame is scheduled; immediate, the slot's element is registered at once |
| `Binder.Fire` | src/useRegisterRef.ts:48-55 | only a scheduled frame runs; it registers the slot's element as it is when the frame arrives, and only if present; a cancelled or absent frame changes nothing |
| `Binder.Cleanup` | useRegisterRef.ts:48-58 | the pending frame is cancelled and the ending binding's key is absent afterwards; nothing else changes; a no-op cleanup changes nothing |
| `Binder.Render` | src/useRegisterRef.ts:45-65 | unchanged dependencies leave everything as it was; changed ones end the old binding, so its key is absent unless the new binding is an enabled immediate one on the same store and key with a present slot; the new binding is live exactly when it has a store and is enabled, pending a frame when deferred, and an immediate one stores the slot's element; the only entries that can change are the old binding's and, for an enabled immediate binding with a present slot, the new one's |
| `Binder.Frame` | src/useRegisterRef.ts:55 | a scheduled frame runs once, leaves the binding live with no frame pending, registers the slot's element only if present and changes no other entry; with no frame scheduled nothing changes |
| `Binder.Unmount` | useDOMRegistration.ts:48-58 | unmounting runs the cleanup: the live binding's key is absent, no other entry changes, an inert hook leaves the heap as it was, and the hook is back to its unmounted state |
| `Binder.InertBindingNeverWrites` | useRegisterRef.ts:40 | a binding without a store or with `isEnabled` false changes no store on mount, on a frame or on unmount |
| `Binder.ImmediateMountAndUnmount` | useRegisterRef.ts:55-58 | with `isDefer` false the element is stored as soon as the effect runs, and unmount removes it |
| `Binder.DeferredMountWaitsForFrame` | useRegisterRef.ts:42-49 | deferred mode writes nothing at mount; the frame registers the element then in the slot, and a frame that finds the slot empty registers nothing |
| `Binder.UnmountBeforeFrameCancels` | src/useRegisterRef.ts:55-59 | unmounting before the frame leaves the key absent, and a later frame changes nothing |
| `Binder.RebindMovesKey` | src/useRegisterRef.ts:56-65 | changing the key from A to B leaves A absent and, once the frame fires, B holding the element |
| `Binder.DisablingRemovesOverwrittenKey` | src/useRegisterRef.ts:57-65 | switching `isEnabled` to false removes the key even after someone else overwrote its entry |
| `BinderTrace.ApplyAccounted` | src/useRegisterRef.ts:45-65 | every event keeps the accounting invariant: unwritten entries keep their value at mount, and a written entry is present only as the live binding's registered entry |
| `BinderTrace.RunAccounted` | useRegisterRef.ts:39-59 | the accounting invariant holds after every sequence of commits, frames and unmounts that starts from an unmounted hook |
| `BinderTrace.TeardownLeavesNoTrace` | useDOMRegistration.ts:39-59 | for one binder with no other writer: after any lifetime ending in unmount, every entry the binder wrote is absent and every other entry of every store is as before mount |
| `BinderTrace.WritesOnlyEnabledCommitKeys` | src/useRegisterRef.ts:46 | the binder only ever writes a store and key named by an enabled commit that had a store |
| `BinderTrace.FramesAfterCleanupAreInert` | useDOMRegistration.ts:48-54 | once the cleanup has run, any number of frames change nothing and write nothing (the pending flag lives in the discarded effect, so this holds by construction) |
| `Provider.Nearest` | src/createRefsStore.tsx:39-50 | the lookup finds nothing exactly when no Provider of the context is on the path; otherwise it returns the value of the innermost such Provider |
| `Provider.ProvidedStore` | createRefsStore.tsx:37-38 | a supplied external store wins over the internal one |
| `Provider.MountProvider` | src/createRefsStore.tsx:41-46 | the Provider always creates a new, empty internal store distinct from the external one, changes no other store, and publishes the external store when given, else the internal one |
| `Provider.UseStore` | src/createRefsStore.tsx:49-55 | the accessor throws exactly when no store is found, with a message containing 'useStore must be used within a RefsStore.Provider'; otherwise it returns the found store unchanged |
| `Provider.UseStoreOrNull` | createRefsStore.tsx:43-51 | throws exactly when no store is found and optional mode is off, with a message naming the Provider and the `{ optional: true }` opt-out; otherwise returns the lookup result, `null` on a miss |
| `Provider.UseRegistry` | createDOMRegistry.tsx:44-54 | same as the older `useStore`, with a message containing 'useRegistry must be used within a DOMRegistry.Provider' |
| `Provider.InnermostProviderWins` | src/createRefsStore.tsx:46-50 | a consumer sees the innermost Provider of its context |
| `Provider.OtherContextsAreTransparent` | src/createRefsStore.tsx:39 | a Provider of another context does not change this context's lookup, so one pair's accessor never yields another pair's store |
| `Provider.ExternalStoreIsPublished` | createDOMRegistry.tsx:36-41 | under a Provider given an external store, `useRegistry`, the older `useStore` and the `src/` `useStore` all return that very store |
| `Provider.InternalStoreIsPublished` | src/createRefsStore.tsx:43-44 | under a Provider without an external store, the accessor returns the Provider's own store, which is empty |
| `Provider.NestedPairsKeepTheirStores` | src/__tests__/createRefsStore.test.tsx:79-112 | nested Providers of two pairs publish two different stores, each reached by its own accessor |
| `Provider.OutsideProvider` | createDOMRegistry.tsx:44-53 | with no Provider of the context on the path, the strict accessors throw and the optional ones return `null` |

## Left out

- Identity stability of the store's operations (`useCallback`/`useMemo`/`useRef`). This is a React guarantee, not logic. A store is a Dafny value, and the heap in `Binder` gives each store object its identity.
- That an internal store persists across re-renders of its Provider (`useRef`). The model mounts a Provider once.
- Real effect ordering and `requestAnimationFrame`/`cancelAnimationFrame` timing. They are replaced by the explicit events `Render`, `Frame` and `Unmount`, so the frame id is a boolean "frame pending".
- Context propagation through the component tree. It is modelled as a path of Providers, outermost first, and each `createRefsStore` call is given a distinct `ContextId`.
- DOM elements, focus, `activeElement` and React's reuse of DOM nodes. Elements are an opaque type, and the host is a parameter that sets the slot.
- TypeScript's per-key element typing, which exists only at the type level. Keys are plain strings.
- `useDOMRegistry.ts`, which the root `createDOMRegistry.tsx` and `useDOMRegistration.ts` import, is not part of this model. The root `index.ts` re-exports `useRefsMap` under that name, so the registry is taken to be the `useRefsMap` store.
- Build and re-export files (`tsup.config.ts`, `index.ts`).
- The root `createRefsStore.tsx` (createRefsStore.tsx:5) and the root `useRegisterRef.ts` (useRegisterRef.ts:3, a type-only import of `RefsMap`) import `./useRefsStore`, which does not exist at the root. Its Provider is modelled with the `src/` store, which behaves the same as the root `useRefsMap` for the operations it uses.
- `RefsStore.Store.GetAll`: the snapshot is a Dafny map, which has no order. The JavaScript `Map` copy iterates in insertion order: re-registering a key keeps its place, and unregistering then registering moves it last. That order is not modelled. That mutating the returned map leaves the store alone holds because Dafny maps are immutable values; it is not stated as a separate contract.
- The older `useRefsMap` returns a new object literal on every call (useRefsMap.ts:53-60, with no `useMemo`). Its identity, which is one of the binder's dependencies, therefore changes whenever the owner re-renders, and the binder then re-runs its effect. The heap model gives each store one reference and cannot express two wrapper objects sharing one map.
- The host's callback queue for animation frames is not modelled apart from the hook. A pending frame is a flag in the hook's effect.
- The binder runs are isolated: `BinderTrace` has one binder and no writes by others. Interleaved writers appear only in `Binder.DisablingRemovesOverwrittenKey`.
