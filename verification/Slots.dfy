/** Rebuilding an index: which key takes which slot of it, one key at a time. */
module Slots {
  import opened Options

  datatype Slot<P> = NoSlot | TopSlot | NodeSlot(path: P)

  /** `owners` names, for every slot taken by a key of `keys`, a key that took it;
      no trie slot is taken twice. */
  ghost predicate Owned<K, P(!new)>(slots: map<K, Slot<P>>, owners: map<Slot<P>, K>, keys: set<K>) {
    && keys <= slots.Keys
    && (forall k :: k in keys ==>
          slots[k] != NoSlot && slots[k] in owners && (slots[k].NodeSlot? ==> owners[slots[k]] == k))
    && (forall s :: s in owners ==> owners[s] in keys && slots[owners[s]] == s)
  }

  ghost predicate CanIndex<K, P>(slots: map<K, Slot<P>>) {
    && (forall k :: k in slots ==> slots[k] != NoSlot)
    && (forall j, k :: j in slots && k in slots && slots[j] == slots[k] && slots[j].NodeSlot? ==> j == k)
  }

  ghost predicate Holds<K, P(!new), R>(owners: map<Slot<P>, K>, routes: map<K, R>, byPath: map<P, R>, top: Option<R>) {
    && (forall s :: s in owners ==> owners[s] in routes)
    && (forall p :: p in byPath <==> NodeSlot(p) in owners)
    && (forall p :: p in byPath ==> byPath[p] == routes[owners[NodeSlot(p)]])
    && (top.Some? <==> TopSlot in owners)
    && (top.Some? ==> top.value == routes[owners[TopSlot]])
  }

  lemma OwnStep<K, P(!new)>(slots: map<K, Slot<P>>, owners: map<Slot<P>, K>, done: set<K>, key: K)
    requires Owned(slots, owners, done)
    requires key in slots && key !in done && slots[key] != NoSlot
    ensures slots[key] == TopSlot || slots[key] !in owners ==>
              Owned(slots, owners[slots[key] := key], done + {key})
    ensures slots[key].NodeSlot? && slots[key] in owners ==> !CanIndex(slots)
  {
    if slots[key].NodeSlot? && slots[key] in owners {
      assert owners[slots[key]] != key;
    }
  }

  lemma HoldTop<K, P(!new), R>(owners: map<Slot<P>, K>, routes: map<K, R>, byPath: map<P, R>, top: Option<R>, key: K)
    requires Holds(owners, routes, byPath, top) && key in routes
    ensures Holds(owners[TopSlot := key], routes, byPath, Some(routes[key]))
  {
  }

  lemma HoldNode<K, P(!new), R>(owners: map<Slot<P>, K>, routes: map<K, R>, byPath: map<P, R>, top: Option<R>, p: P, key: K)
    requires Holds(owners, routes, byPath, top) && key in routes
    ensures Holds(owners[NodeSlot(p) := key], routes, byPath[p := routes[key]], top)
  {
  }

  lemma OwnedCanIndex<K, P(!new)>(slots: map<K, Slot<P>>, owners: map<Slot<P>, K>)
    requires Owned(slots, owners, slots.Keys)
    ensures CanIndex(slots)
  {
  }
}
