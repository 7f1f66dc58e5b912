/** Shared vocabulary of the relay model: optional values, opaque connection
    handles, and the per-connection outboxes that stand for everything the
    server writes to a socket. */
module Mailbox {

  datatype Option<+T> = None | Some(value: T) {
    function GetOr(default: T): T {
      match this
      case Some(v) => v
      case None => default
    }
  }

  /** A connected socket, known to the model only by its identity. */
  type Handle = nat

  /** What has been written to each connection so far, oldest first. A handle
      that is not a key has been sent nothing. */
  type Outboxes<M> = map<Handle, seq<M>>

  function Sent<M>(out: Outboxes<M>, h: Handle): seq<M> {
    if h in out then out[h] else []
  }

  /** Appends one message to one connection's outbox. */
  function Deliver<M>(out: Outboxes<M>, h: Handle, m: M): (r: Outboxes<M>)
    ensures Sent(r, h) == Sent(out, h) + [m]
    ensures forall g :: g != h ==> Sent(r, g) == Sent(out, g)
  {
    out[h := Sent(out, h) + [m]]
  }

  /** Appends the same message once to each connection in `hs`. */
  function DeliverAll<M>(out: Outboxes<M>, hs: set<Handle>, m: M): (r: Outboxes<M>)
    ensures forall g :: Sent(r, g) == Sent(out, g) + (if g in hs then [m] else [])
  {
    map g | g in out.Keys + hs :: Sent(out, g) + (if g in hs then [m] else [])
  }

  lemma DeliverAllNothing<M>(out: Outboxes<M>, m: M)
    ensures DeliverAll(out, {}, m) == out
  {
    var r := DeliverAll(out, {}, m);
    assert r.Keys == out.Keys;
    assert forall g :: g in out ==> r[g] == Sent(out, g);
  }

  /** Fanning out to one more connection is one more single delivery, which is
      how the relay loops build a fan-out one recipient at a time. */
  lemma DeliverAllInsert<M>(out: Outboxes<M>, hs: set<Handle>, h: Handle, m: M)
    requires h !in hs
    ensures DeliverAll(out, hs + {h}, m) == Deliver(DeliverAll(out, hs, m), h, m)
  {
    var a, b := DeliverAll(out, hs + {h}, m), Deliver(DeliverAll(out, hs, m), h, m);
    assert forall g :: Sent(a, g) == Sent(b, g);
    assert a.Keys == b.Keys;
  }

  /** Writing to the handle of one more registered key, over an injective
      registry: the fan-out to the larger set is one more single delivery. */
  lemma DeliverAllStep<K, M>(out: Outboxes<M>, registry: map<K, Handle>, ks: set<K>, k: K, m: M)
    requires Injective(registry) && k in registry && k !in ks
    ensures DeliverAll(out, HandlesOf(registry, ks + {k}), m) == Deliver(DeliverAll(out, HandlesOf(registry, ks), m), registry[k], m)
  {
    HandlesOfInsert(registry, ks, k);
    DeliverAllInsert(out, HandlesOf(registry, ks), registry[k], m);
  }

  /** No two keys share a value: two registered names never share a socket. */
  ghost predicate Injective<K, V>(m: map<K, V>) {
    forall x, y :: x in m && y in m && x != y ==> m[x] != m[y]
  }

  /** The handles of the names in `ks` that are registered in `m`. */
  function HandlesOf<K>(m: map<K, Handle>, ks: set<K>): (hs: set<Handle>)
    ensures forall k :: k in ks && k in m ==> m[k] in hs
    ensures forall h :: h in hs ==> exists k :: k in ks && k in m && m[k] == h
  {
    set k | k in ks && k in m :: m[k]
  }

  /** Over an injective map, one more registered key adds exactly its own
      handle, which no other key had. */
  lemma HandlesOfInsert<K>(m: map<K, Handle>, ks: set<K>, k: K)
    requires Injective(m) && k in m && k !in ks
    ensures m[k] !in HandlesOf(m, ks)
    ensures HandlesOf(m, ks + {k}) == HandlesOf(m, ks) + {m[k]}
  {
  }
}
