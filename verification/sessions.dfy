/** The in-memory session store of `src/store/sessions.js`: a map from chat
    user id to the record a multi-step workflow accumulates. It has no
    expiry: an entry stays until it is deleted. */
module Sessions {
  import opened Wrappers
  import opened JsValue

  type UserId = string

  /** A session record: the plain object `{ ...current, ...patch }` builds. */
  type Record = map<string, Value>

  type Store = map<UserId, Record>

  /** A write's new store together with the value the call returns. */
  datatype Written = Written(store: Store, value: Record)

  /** `getSession(u)`: the stored record, or `undefined`. */
  function GetSession(store: Store, u: UserId): Option<Record> {
    if u in store then Some(store[u]) else None
  }

  /** `hasSession(u)` */
  predicate HasSession(store: Store, u: UserId) {
    u in store
  }

  /** `setSession(u, v)` stores `v` under `u`, replacing any record there, and
      returns `v`. */
  function SetSession(store: Store, u: UserId, v: Record): (w: Written)
    ensures GetSession(w.store, u) == Some(v) && w.value == v
    ensures forall x | x != u :: GetSession(w.store, x) == GetSession(store, x)
  {
    Written(store[u := v], v)
  }

  /** `updateSession(u, patch)` shallow-merges `patch` over the current record
      (over `{}` when there is none), stores the merge and returns it. */
  function UpdateSession(store: Store, u: UserId, patch: Record): (w: Written)
    ensures GetSession(w.store, u) == Some(w.value)
    ensures w.value.Keys == patch.Keys + (if u in store then store[u].Keys else {})
    ensures forall k | k in patch :: w.value[k] == patch[k]
    ensures u in store ==> forall k | k in store[u] && k !in patch :: w.value[k] == store[u][k]
    ensures u !in store ==> w.value == patch
    ensures forall x | x != u :: GetSession(w.store, x) == GetSession(store, x)
  {
    var current := if u in store then store[u] else map[];
    var next := current + patch;
    Written(store[u := next], next)
  }

  /** `after` is `before` with `u`'s record shallow-merged with `patch`
      (over `{}` when `u` had none) and every other entry as it was. */
  ghost predicate Patched(before: Store, after: Store, u: UserId, patch: Record) {
    && u in after
    && after[u].Keys == patch.Keys + (if u in before then before[u].Keys else {})
    && (forall k | k in patch :: after[u][k] == patch[k])
    && (u in before ==> forall k | k in before[u] && k !in patch :: after[u][k] == before[u][k])
    && (forall x | x != u :: GetSession(after, x) == GetSession(before, x))
  }

  /** `updateSession` performs exactly that merge. */
  lemma UpdatePatches(store: Store, u: UserId, patch: Record)
    ensures Patched(store, UpdateSession(store, u, patch).store, u, patch)
  {
    var w := UpdateSession(store, u, patch);
    assert GetSession(w.store, u) == Some(w.value);
  }

  /** `deleteSession(u)` removes `u`'s entry and nothing else. */
  function DeleteSession(store: Store, u: UserId): (s: Store)
    ensures !HasSession(s, u)
    ensures forall x | x != u :: GetSession(s, x) == GetSession(store, x)
  {
    store - {u}
  }

  /** Two successive updates of one user merge like a single update with the
      later patch winning: `update(u, {a:1})` then `update(u, {b:2})` leaves
      `{a:1, b:2}`. */
  lemma UpdateTwice(store: Store, u: UserId, p: Record, q: Record)
    ensures UpdateSession(UpdateSession(store, u, p).store, u, q).value
         == UpdateSession(store, u, p + q).value
  {
    var first := UpdateSession(store, u, p).value;
    var second := UpdateSession(UpdateSession(store, u, p).store, u, q).value;
    var once := UpdateSession(store, u, p + q).value;
    assert second.Keys == once.Keys;
    forall k | k in second
      ensures second[k] == once[k]
    {
      if k !in q {
        assert second[k] == first[k];
      }
    }
  }

  /** The store operations a sequence of handler runs can perform. */
  datatype Op =
    | Get(user: UserId)
    | Has(user: UserId)
    | Set(user: UserId, value: Record)
    | Update(user: UserId, patch: Record)
    | Delete(user: UserId)

  function Apply(store: Store, op: Op): Store {
    match op
    case Get(_) => store
    case Has(_) => store
    case Set(u, v) => SetSession(store, u, v).store
    case Update(u, p) => UpdateSession(store, u, p).store
    case Delete(u) => DeleteSession(store, u)
  }

  function Replay(store: Store, ops: seq<Op>): Store
    decreases |ops|
  {
    if ops == [] then store else Replay(Apply(store, ops[0]), ops[1..])
  }

  /** No expiry: however many operations run, an entry that none of them
      deletes is still present afterwards. */
  lemma {:induction false} NoExpiry(store: Store, ops: seq<Op>, u: UserId)
    requires HasSession(store, u)
    requires forall i | 0 <= i < |ops| :: ops[i] != Delete(u)
    ensures HasSession(Replay(store, ops), u)
    decreases |ops|
  {
    if ops != [] {
      assert ops[0] != Delete(u);
      NoExpiry(Apply(store, ops[0]), ops[1..], u);
    }
  }

  /** Operations on other users leave `u`'s entry exactly as it was. */
  lemma {:induction false} OthersUntouched(store: Store, ops: seq<Op>, u: UserId)
    requires forall i | 0 <= i < |ops| :: ops[i].user != u
    ensures GetSession(Replay(store, ops), u) == GetSession(store, u)
    decreases |ops|
  {
    if ops != [] {
      assert ops[0].user != u;
      OthersUntouched(Apply(store, ops[0]), ops[1..], u);
    }
  }
}
