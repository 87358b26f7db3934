/** The registry's data invariant, stated over the history of calls: a key
    holds an element exactly when the most recent call that concerned the
    key was a `register` with that (truthy) element. */
module StoreHistory {
  import opened Values
  import opened RefsStore

  /** One mutating call on a store. */
  datatype Op<E> = Register(key: Key, element: Nullable<E>) | Unregister(key: Key) | Clear

  /** Whether the call can change the entry of `k`. */
  predicate Concerns<E>(op: Op<E>, k: Key) {
    match op
    case Register(j, _) => j == k
    case Unregister(j) => j == k
    case Clear => true
  }

  function Apply<E>(s: Store<E>, op: Op<E>): Store<E> {
    match op
    case Register(k, e) => s.Register(k, e)
    case Unregister(k) => s.Unregister(k)
    case Clear => s.Clear()
  }

  /** The store a fresh registry holds after the calls `ops`, oldest first. */
  function Replay<E>(ops: seq<Op<E>>): Store<E> {
    if |ops| == 0 then Empty() else Apply(Replay(ops[..|ops| - 1]), ops[|ops| - 1])
  }

  /** Call `i` is the last one in `ops` that concerns `k`. */
  ghost predicate LastConcerning<E>(ops: seq<Op<E>>, k: Key, i: int) {
    && 0 <= i < |ops|
    && Concerns(ops[i], k)
    && forall j :: i < j < |ops| ==> !Concerns(ops[j], k)
  }

  /** The history decides that `k` holds `e`. */
  ghost predicate HoldsByHistory<E>(ops: seq<Op<E>>, k: Key, e: E) {
    exists i :: LastConcerning(ops, k, i) && ops[i] == Register(k, Present(e))
  }

  /** A call that does not concern `k` keeps the verdict of the history before it. */
  lemma HistoryIgnoresOtherKeys<E>(ops: seq<Op<E>>, k: Key, e: E)
    requires |ops| > 0 && !Concerns(ops[|ops| - 1], k)
    ensures HoldsByHistory(ops, k, e) <==> HoldsByHistory(ops[..|ops| - 1], k, e)
  {
    var prefix := ops[..|ops| - 1];
    if HoldsByHistory(ops, k, e) {
      var i :| LastConcerning(ops, k, i) && ops[i] == Register(k, Present(e));
      assert i < |ops| - 1;
      assert LastConcerning(prefix, k, i);
    }
    if HoldsByHistory(prefix, k, e) {
      var i :| LastConcerning(prefix, k, i) && prefix[i] == Register(k, Present(e));
      assert LastConcerning(ops, k, i);
    }
  }

  /** The replayed store and the history agree on every key: the store keeps
      an element exactly when the last call about that key registered it. */
  lemma {:induction false} ReplayMatchesHistory<E>(ops: seq<Op<E>>, k: Key, e: E)
    ensures Replay(ops).Get(k) == Present(e) <==> HoldsByHistory(ops, k, e)
  {
    if |ops| == 0 {
      assert !HoldsByHistory(ops, k, e);
    } else {
      var n := |ops| - 1;
      var prefix := ops[..n];
      var last := ops[n];
      if Concerns(last, k) {
        assert LastConcerning(ops, k, n);
        if HoldsByHistory(ops, k, e) {
          var i :| LastConcerning(ops, k, i) && ops[i] == Register(k, Present(e));
          assert i == n;
        }
        if Replay(ops).Get(k) == Present(e) {
          assert last == Register(k, Present(e));
        }
      } else {
        ReplayMatchesHistory(prefix, k, e);
        HistoryIgnoresOtherKeys(ops, k, e);
        assert Replay(ops).Get(k) == Replay(prefix).Get(k);
      }
    }
  }

  /** Consequently `has` holds exactly when some element is decided by the history. */
  lemma ReplayHasMatchesHistory<E>(ops: seq<Op<E>>, k: Key)
    ensures Replay(ops).Has(k) <==> exists e :: HoldsByHistory(ops, k, e)
  {
    if Replay(ops).Has(k) {
      var e := Replay(ops).Get(k).value;
      ReplayMatchesHistory(ops, k, e);
    }
    if exists e :: HoldsByHistory(ops, k, e) {
      var e :| HoldsByHistory(ops, k, e);
      ReplayMatchesHistory(ops, k, e);
    }
  }
}
