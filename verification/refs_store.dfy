/** The registry: a mapping from string keys to element handles (the hooks
    `useRefsStore` and the older `useRefsMap`). The React wrapping that keeps
    the operations' identities stable is not modelled; a store is a value and
    each mutating operation returns the next one. */
module RefsStore {
  import opened Values

  type Key = string

  /** Only truthy elements are ever stored, so the map's values are bare
      element handles. */
  datatype Store<E> = Store(entries: map<Key, E>) {

    /** `get` of `useRefsStore`: the element, or `undefined` for a missing key. */
    function Get(k: Key): (r: Nullable<E>)
      ensures !r.Null?
      ensures r.Present? <==> k in entries
      ensures r.Present? ==> r.value == entries[k]
    {
      if k in entries then Present(entries[k]) else Undefined
    }

    /** `has`: exactly the keys whose `get` yields an element. */
    function Has(k: Key): (b: bool)
      ensures b <==> Get(k).Present?
    {
      k in entries
    }

    /** `get` of the legacy `useRefsMap`: `map.get(key) || null`, so a missing
        key reads as `null` rather than `undefined`. */
    function GetOrNull(k: Key): (r: Nullable<E>)
      ensures !r.Undefined?
      ensures r.Present? <==> Has(k)
      ensures Has(k) ==> r == Get(k)
    {
      Or(Get(k), Null)
    }

    /** `getAll` of the legacy `useRefsMap`: a snapshot of the contents. A
        Dafny map is a value, so the snapshot is detached from the store. */
    function GetAll(): (snapshot: map<Key, E>)
      ensures forall k :: k in snapshot <==> Has(k)
      ensures forall k :: k in snapshot ==> Get(k) == Present(snapshot[k])
    {
      entries
    }

    /** `unregister`: the key is gone afterwards, whether or not it was there. */
    function Unregister(k: Key): (s: Store<E>)
      ensures !s.Has(k)
      ensures s.Get(k) == Undefined
      ensures forall j :: j != k ==> s.Get(j) == Get(j)
    {
      Store(entries - {k})
    }

    /** `register`: a truthy element is stored under the key, overwriting any
        earlier one; a nullish element behaves exactly as `unregister`. */
    function Register(k: Key, element: Nullable<E>): (s: Store<E>)
      ensures element.Present? ==> s.Get(k) == element && s.Has(k)
      ensures !element.Present? ==> s == Unregister(k)
      ensures forall j :: j != k ==> s.Get(j) == Get(j)
    {
      if element.Truthy() then Store(entries[k := element.value]) else Unregister(k)
    }

    /** `clear`: every key is absent afterwards. */
    function Clear(): (s: Store<E>)
      ensures forall k :: !s.Has(k) && s.Get(k) == Undefined
      ensures s.GetAll() == map[]
    {
      Store(map[])
    }
  }

  /** A freshly created store holds nothing. */
  function Empty<E>(): (s: Store<E>)
    ensures forall k :: !s.Has(k) && s.Get(k) == Undefined
    ensures forall k :: s.GetOrNull(k) == Null
  {
    Store(map[])
  }

  /** A later `register` on the same key wins, whatever the earlier one stored. */
  lemma RegisterOverwrites<E>(s: Store<E>, k: Key, first: Nullable<E>, second: Nullable<E>)
    ensures s.Register(k, first).Register(k, second) == s.Register(k, second)
  {
  }

  /** `unregister` is idempotent. */
  lemma UnregisterIdempotent<E>(s: Store<E>, k: Key)
    ensures s.Unregister(k).Unregister(k) == s.Unregister(k)
  {
  }

  /** `unregister` undoes `register` on the same key. */
  lemma UnregisterUndoesRegister<E>(s: Store<E>, k: Key, element: Nullable<E>)
    ensures s.Register(k, element).Unregister(k) == s.Unregister(k)
    ensures k !in s.entries ==> s.Register(k, element).Unregister(k) == s
  {
  }

  /** Operations on different keys commute. */
  lemma DistinctKeysCommute<E>(s: Store<E>, k: Key, a: Nullable<E>, j: Key, b: Nullable<E>)
    requires k != j
    ensures s.Register(k, a).Register(j, b) == s.Register(j, b).Register(k, a)
  {
  }
}
