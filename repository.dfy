/**
 * The user store: one module-level JavaScript `Map` from chat id to user record.
 * A JavaScript Map iterates its entries in insertion order, and `updateUserCode`
 * picks the FIRST record holding a code in that order, so the store keeps the
 * order of its keys beside the records.
 */
module Repository {
  import opened UserModel

  /** The store as a value: the records by chat id, and the keys in iteration order. */
  datatype Store = Store(users: map<int, User>, order: seq<int>)

  ghost predicate Distinct(xs: seq<int>) {
    forall i, j :: 0 <= i < j < |xs| ==> xs[i] != xs[j]
  }

  /** Every record sits under its own id, and `order` lists every key exactly once. */
  ghost predicate WellFormed(s: Store) {
    && Distinct(s.order)
    && (forall k :: k in s.users <==> k in s.order)
    && (forall i :: 0 <= i < |s.order| ==> s.order[i] in s.users)
    && (forall k :: k in s.users ==> s.users[k].id == k)
  }

  /** The relation from card code to chat id is a partial injective function. */
  ghost predicate CodeInjective(s: Store) {
    forall a, b ::
      a in s.users && b in s.users && s.users[a].code.Some? && s.users[a].code == s.users[b].code ==> a == b
  }

  /** `xs` with every occurrence of `k` taken out, the rest in the same order. */
  function Without(xs: seq<int>, k: int): (r: seq<int>)
    ensures forall x :: x in r <==> x in xs && x != k
    ensures Distinct(xs) ==> Distinct(r)
  {
    if xs == [] then []
    else if xs[0] == k then Without(xs[1..], k)
    else
      var rest := Without(xs[1..], k);
      assert Distinct(xs) ==> Distinct(xs[1..]) && xs[0] !in xs[1..];
      [xs[0]] + rest
  }

  /** `Map.prototype.set`: a key already present keeps its place in the order, a new key goes last. */
  function Set(s: Store, k: int, u: User): (r: Store) {
    Store(s.users[k := u], if k in s.users then s.order else s.order + [k])
  }

  /** `Map.prototype.delete` */
  function Delete(s: Store, k: int): (r: Store) {
    Store(s.users - {k}, Without(s.order, k))
  }

  lemma SetWellFormed(s: Store, k: int, u: User)
    requires WellFormed(s) && u.id == k
    ensures WellFormed(Set(s, k, u))
    ensures Set(s, k, u).users == s.users[k := u]
  {
  }

  lemma DeleteWellFormed(s: Store, k: int)
    requires WellFormed(s)
    ensures WellFormed(Delete(s, k))
    ensures Delete(s, k).users == s.users - {k}
  {
  }

  /** `addUser(user)`: `users.set(user.id, user)`. */
  function Added(s: Store, u: User): (r: Store) {
    Set(s, u.id, u)
  }

  /** `findUserById(id)` */
  function Find(s: Store, id: int): (r: Option<User>) {
    if id in s.users then Some(s.users[id]) else None
  }

  /** `updateUserState(id, state)`: only a record that exists is touched. */
  function StateUpdated(s: Store, id: int, st: State): (r: Store) {
    if id in s.users then Set(s, id, s.users[id].(state := st)) else s
  }

  /** `[...users.values()].find(user => user.code === code)` over the keys `ks` in order. */
  function FirstHolder(users: map<int, User>, ks: seq<int>, c: string): (r: Option<User>)
    ensures r.Some? ==> exists k :: k in ks && k in users && users[k] == r.value
    ensures r.Some? ==> r.value.code == Some(c)
    ensures r.None? ==> forall k :: k in ks && k in users ==> users[k].code != Some(c)
  {
    if ks == [] then None
    else if ks[0] in users && users[ks[0]].code == Some(c) then
      var k := ks[0];
      assert k in ks && k in users && users[k] == users[ks[0]];
      Some(users[ks[0]])
    else FirstHolder(users, ks[1..], c)
  }

  /**
   * `find` stops at the first match: the record `FirstHolder` returns sits at a position of
   * `ks` before which no listed record holds `c`.
   */
  lemma {:induction false} FirstHolderIsFirst(users: map<int, User>, ks: seq<int>, c: string)
    requires FirstHolder(users, ks, c).Some?
    ensures exists i ::
      && 0 <= i < |ks| && ks[i] in users && users[ks[i]] == FirstHolder(users, ks, c).value
      && forall j :: 0 <= j < i && ks[j] in users ==> users[ks[j]].code != Some(c)
  {
    if ks[0] in users && users[ks[0]].code == Some(c) {
      assert ks[0] in users && users[ks[0]] == FirstHolder(users, ks, c).value;
    } else {
      var tail := ks[1..];
      FirstHolderIsFirst(users, tail, c);
      var i :| 0 <= i < |tail| && tail[i] in users && users[tail[i]] == FirstHolder(users, tail, c).value
        && forall j :: 0 <= j < i && tail[j] in users ==> users[tail[j]].code != Some(c);
      assert ks[i + 1] == tail[i];
      forall j | 0 <= j < i + 1 && ks[j] in users
        ensures users[ks[j]].code != Some(c)
      {
        if j > 0 {
          assert ks[j] == tail[j - 1];
        }
      }
    }
  }

  /** The collision check of `updateUserCode`: the first holder of `c`, if it is another user, is deleted. */
  function Evicted(s: Store, id: int, c: string): (r: Store) {
    match FirstHolder(s.users, s.order, c)
    case Some(h) => if h.id != id then Delete(s, h.id) else s
    case None => s
  }

  /** `updateUserCode(id, code)`: evict the other holder of `code`, then set the code of `id` if it exists. */
  function CodeUpdated(s: Store, id: int, c: string): (r: Store) {
    var t := Evicted(s, id, c);
    if id in t.users then Set(t, id, t.users[id].(code := Some(c))) else t
  }

  /** `removeUser(id)` */
  function Removed(s: Store, id: int): (r: Store) {
    Delete(s, id)
  }

  /** A `Partial<User>`: every field either absent or given. */
  datatype Patch = Patch(id: Option<int>, name: Option<string>, phone: Option<string>,
                         state: Option<State>, code: Option<string>)

  /** `{ ...user, ...patch }` */
  function Merged(u: User, p: Patch): (r: User) {
    User(p.id.GetOr(u.id), p.name.GetOr(u.name), p.phone.GetOr(u.phone), p.state.GetOr(u.state),
         if p.code.Some? then p.code else u.code)
  }

  /** `updateUser(id, patch)`: merge in place, or move the merged record to the patch's new id. */
  function Updated(s: Store, id: int, p: Patch): (r: Store) {
    if id !in s.users then s
    else
      var newId := p.id.GetOr(id);
      if newId != id then Set(Delete(s, id), newId, Merged(s.users[id], p).(id := newId))
      else Set(s, id, Merged(s.users[id], p))
  }

  /** A store without repeated keys has as many keys as entries in its order. */
  lemma {:induction false} DistinctCardinality(xs: seq<int>)
    requires Distinct(xs)
    ensures |(set x | x in xs)| == |xs|
  {
    if xs != [] {
      var tail := xs[1..];
      assert Distinct(tail) by {
        forall i, j | 0 <= i < j < |tail| ensures tail[i] != tail[j] {
          assert tail[i] == xs[i + 1] && tail[j] == xs[j + 1];
        }
      }
      DistinctCardinality(tail);
      assert (set x | x in xs) == (set x | x in tail) + {xs[0]};
      assert xs[0] !in (set x | x in tail);
    }
  }

  /** Under injectivity the first holder of a code is its only holder. */
  lemma FirstHolderUnique(s: Store, c: string)
    requires WellFormed(s) && CodeInjective(s)
    ensures FirstHolder(s.users, s.order, c).Some? <==> exists k :: k in s.users && s.users[k].code == Some(c)
    ensures forall k :: k in s.users && s.users[k].code == Some(c) ==> FirstHolder(s.users, s.order, c) == Some(s.users[k])
  {
  }

  /** After `addUser(u)` the record is found under `u.id`, replacing any earlier one, and nothing else changes. */
  lemma AddedSpec(s: Store, u: User)
    requires WellFormed(s)
    ensures WellFormed(Added(s, u))
    ensures Find(Added(s, u), u.id) == Some(u)
    ensures forall k :: k != u.id ==> Find(Added(s, u), k) == Find(s, k)
  {
    SetWellFormed(s, u.id, u);
  }

  /** `updateUserState` changes nothing for an absent id, and otherwise only that record's state. */
  lemma StateUpdatedSpec(s: Store, id: int, st: State)
    requires WellFormed(s)
    ensures WellFormed(StateUpdated(s, id, st))
    ensures id !in s.users ==> StateUpdated(s, id, st) == s
    ensures id in s.users ==>
      StateUpdated(s, id, st) == Store(s.users[id := s.users[id].(state := st)], s.order)
  {
  }

  /**
   * `updateUserCode(id, c)` on a store where codes are injective: afterwards no record but `id`
   * holds `c`, the record `id` (if it existed) has code `c` and is otherwise unchanged, the only
   * record removed is the previous holder of `c` (also when `id` itself is absent), every other
   * record is untouched, and codes stay injective.
   */
  lemma CodeUpdatedSpec(s: Store, id: int, c: string)
    requires WellFormed(s) && CodeInjective(s)
    ensures WellFormed(CodeUpdated(s, id, c)) && CodeInjective(CodeUpdated(s, id, c))
    ensures forall k :: k in CodeUpdated(s, id, c).users && k != id ==> CodeUpdated(s, id, c).users[k].code != Some(c)
    ensures id in s.users <==> id in CodeUpdated(s, id, c).users
    ensures id in s.users ==> CodeUpdated(s, id, c).users[id] == s.users[id].(code := Some(c))
    ensures forall k :: k in s.users && k != id ==> (k in CodeUpdated(s, id, c).users <==> s.users[k].code != Some(c))
    ensures forall k :: k in CodeUpdated(s, id, c).users && k != id ==> k in s.users && CodeUpdated(s, id, c).users[k] == s.users[k]
  {
    var r := CodeUpdated(s, id, c);
    var t := Evicted(s, id, c);
    FirstHolderUnique(s, c);
    match FirstHolder(s.users, s.order, c)
    case Some(h) =>
      if h.id != id {
        DeleteWellFormed(s, h.id);
      }
    case None =>
    assert WellFormed(t);
    assert forall k :: k in t.users && k != id ==> t.users[k].code != Some(c);
    if id in t.users {
      SetWellFormed(t, id, t.users[id].(code := Some(c)));
    }
  }

  /** `removeUser(id)` deletes key `id` and nothing else. */
  lemma RemovedSpec(s: Store, id: int)
    requires WellFormed(s)
    ensures WellFormed(Removed(s, id))
    ensures Removed(s, id).users == s.users - {id}
    ensures CodeInjective(s) ==> CodeInjective(Removed(s, id))
  {
    DeleteWellFormed(s, id);
  }

  /**
   * `updateUser(id, p)`: a no-op for an absent id; with the same id the patch is merged in place;
   * with a new id the old key is gone and the merged record, carrying the new id, replaces
   * whatever was stored under it. A patch without a code keeps codes injective.
   */
  lemma UpdatedSpec(s: Store, id: int, p: Patch)
    requires WellFormed(s)
    ensures WellFormed(Updated(s, id, p))
    ensures id !in s.users ==> Updated(s, id, p) == s
    ensures id in s.users && p.id.GetOr(id) == id ==>
      Updated(s, id, p).users == s.users[id := Merged(s.users[id], p)]
    ensures id in s.users && p.id.GetOr(id) != id ==>
      Updated(s, id, p).users == (s.users - {id})[p.id.value := Merged(s.users[id], p).(id := p.id.value)]
    ensures p.code.None? && CodeInjective(s) ==> CodeInjective(Updated(s, id, p))
  {
    if id in s.users {
      var newId := p.id.GetOr(id);
      if newId != id {
        DeleteWellFormed(s, id);
        SetWellFormed(Delete(s, id), newId, Merged(s.users[id], p).(id := newId));
      } else {
        SetWellFormed(s, id, Merged(s.users[id], p));
      }
    }
  }

  /** The in-memory store behind `UserRepository`. */
  class UserRepository {
    var users: map<int, User>
    var order: seq<int>

    ghost predicate Valid()
      reads this
    {
      WellFormed(Store(users, order))
    }

    function Value(): (r: Store)
      reads this
    {
      Store(users, order)
    }

    constructor ()
      ensures Valid() && users == map[] && order == []
    {
      users := map[];
      order := [];
    }

    method AddUser(u: User)
      requires Valid()
      modifies this
      ensures Valid()
      ensures Value() == Added(old(Value()), u)
    {
      SetWellFormed(Value(), u.id, u);
      if u.id !in users {
        order := order + [u.id];
      }
      users := users[u.id := u];
    }

    method FindUserById(id: int) returns (r: Option<User>)
      requires Valid()
      ensures r.Some? <==> id in users
      ensures r.Some? ==> r.value == users[id] && r.value.id == id
    {
      if id in users {
        r := Some(users[id]);
      } else {
        r := None;
      }
    }

    /** `Array.from(users.values())`: every stored record once, in insertion order. */
    method GetAllUsers() returns (r: seq<User>)
      requires Valid()
      ensures |r| == |order| == |users|
      ensures forall i :: 0 <= i < |r| ==> r[i] == users[order[i]]
      ensures forall u :: u in r <==> u in users.Values
    {
      r := [];
      for i := 0 to |order|
        invariant |r| == i
        invariant forall j :: 0 <= j < i ==> r[j] == users[order[j]]
      {
        r := r + [users[order[i]]];
      }
      DistinctCardinality(order);
      assert forall x :: x in (set y | y in order) <==> x in users.Keys;
      assert (set y | y in order) == users.Keys;
      forall u | u in users.Values ensures u in r {
        var k :| k in users && users[k] == u;
        var i :| 0 <= i < |order| && order[i] == k;
        assert r[i] == u;
      }
    }

    method UpdateUserState(id: int, st: State)
      requires Valid()
      modifies this
      ensures Valid()
      ensures Value() == StateUpdated(old(Value()), id, st)
    {
      var user := FindUserById(id);
      if user.Some? {
        users := users[id := user.value.(state := st)];
      }
    }

    method UpdateUserCode(id: int, c: string)
      requires Valid()
      modifies this
      ensures Valid()
      ensures Value() == CodeUpdated(old(Value()), id, c)
    {
      var existing: Option<User> := None;
      var i := 0;
      while i < |order| && existing.None?
        invariant 0 <= i <= |order|
        invariant existing.None? ==> FirstHolder(users, order, c) == FirstHolder(users, order[i..], c)
        invariant existing.Some? ==> FirstHolder(users, order, c) == existing
      {
        var u := users[order[i]];
        assert order[i..][1..] == order[i + 1..];
        if u.code == Some(c) {
          existing := Some(u);
        }
        i := i + 1;
      }
      assert existing == FirstHolder(users, order, c);
      if existing.Some? && existing.value.id != id {
        DeleteWellFormed(Value(), existing.value.id);
        order := Without(order, existing.value.id);
        users := users - {existing.value.id};
      }
      var user := FindUserById(id);
      if user.Some? {
        users := users[id := user.value.(code := Some(c))];
      }
    }

    method RemoveUser(id: int)
      requires Valid()
      modifies this
      ensures Valid()
      ensures Value() == Removed(old(Value()), id)
    {
      DeleteWellFormed(Value(), id);
      order := Without(order, id);
      users := users - {id};
    }

    method UpdateUser(id: int, p: Patch)
      requires Valid()
      modifies this
      ensures Valid()
      ensures Value() == Updated(old(Value()), id, p)
    {
      var user := FindUserById(id);
      if user.None? {
        return;
      }
      var newId := p.id.GetOr(id);
      if newId != id {
        UpdatedSpec(Value(), id, p);
        order := Without(order, id);
        users := users - {id};
        var moved := Merged(user.value, p).(id := newId);
        if newId !in users {
          order := order + [newId];
        }
        users := users[newId := moved];
      } else {
        UpdatedSpec(Value(), id, p);
        users := users[id := Merged(user.value, p)];
      }
    }
  }
}
