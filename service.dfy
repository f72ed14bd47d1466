/**
 * The session service: it forwards record operations to the shared user store and keeps
 * two maps of its own, the pending one-time code per user and the failed-attempt counter.
 */
module Service {
  import opened UserModel
  import opened Repository

  /** `maxAttempts` in `incrementFailedAttempts`. */
  const MaxAttempts := 3

  /** `Math.floor(Math.random() * 900000)`: the issued code is `100000 + draw`. */
  type Draw = x: int | 0 <= x < 900000

  /** Everything the service and the store hold, as one value. */
  datatype Sessions = Sessions(store: Store, codes: map<int, string>, failed: map<int, int>)

  // ---------------------------------------------------------------------------
  // Decimal text of a number (`Number.prototype.toString()` on a non-negative integer)

  predicate IsDigit(ch: char) {
    '0' <= ch <= '9'
  }

  function DigitChar(d: int): (ch: char)
    requires 0 <= d < 10
    ensures IsDigit(ch) && ch as int - '0' as int == d
  {
    ('0' as int + d) as char
  }

  function DigitValue(ch: char): (r: int) {
    if IsDigit(ch) then ch as int - '0' as int else 0
  }

  /** The decimal digits of `n`, most significant first, without leading zeros. */
  function DecimalString(n: nat): (r: string)
    decreases n
  {
    if n < 10 then [DigitChar(n)] else DecimalString(n / 10) + [DigitChar(n % 10)]
  }

  /** The number a string of decimal digits denotes. */
  function DecimalValue(s: string): (r: nat) {
    if s == [] then 0 else 10 * DecimalValue(s[..|s| - 1]) + DigitValue(s[|s| - 1])
  }

  function Pow10(k: nat): (r: nat) {
    if k == 0 then 1 else 10 * Pow10(k - 1)
  }

  /** Reading back the decimal text of a number gives the number; the text is all digits. */
  lemma {:induction false} DecimalRoundTrip(n: nat)
    ensures forall i :: 0 <= i < |DecimalString(n)| ==> IsDigit(DecimalString(n)[i])
    ensures DecimalValue(DecimalString(n)) == n
    decreases n
  {
    if n >= 10 {
      DecimalRoundTrip(n / 10);
      var s := DecimalString(n);
      assert s[..|s| - 1] == DecimalString(n / 10);
    }
  }

  /** A number with k digits has a decimal text of length k that does not start with '0'. */
  lemma {:induction false} DecimalLength(n: nat, k: nat)
    requires 1 <= k && Pow10(k - 1) <= n < Pow10(k)
    ensures |DecimalString(n)| == k && DecimalString(n)[0] != '0'
    decreases k
  {
    if k > 1 {
      assert n >= 10 by {
        assert Pow10(k - 1) == 10 * Pow10(k - 2);
        PowPositive(k - 2);
      }
      assert Pow10(k - 2) <= n / 10 < Pow10(k - 1) by {
        assert Pow10(k - 1) == 10 * Pow10(k - 2);
        assert Pow10(k) == 10 * Pow10(k - 1);
      }
      DecimalLength(n / 10, k - 1);
    }
  }

  lemma {:induction false} PowPositive(k: nat)
    ensures Pow10(k) >= 1
  {
    if k > 0 { PowPositive(k - 1); }
  }

  /** The code `generateVerificationCode` issues for a draw: `Math.floor(100000 + draw).toString()`. */
  function CodeFor(draw: Draw): (r: string) {
    DecimalString(100000 + draw)
  }

  /** Every issued code is six decimal digits denoting a number in 100000..999999. */
  lemma IssuedCodeShape(draw: Draw)
    ensures |CodeFor(draw)| == 6 && CodeFor(draw)[0] != '0'
    ensures forall i :: 0 <= i < 6 ==> IsDigit(CodeFor(draw)[i])
    ensures 100000 <= DecimalValue(CodeFor(draw)) <= 999999
  {
    assert Pow10(5) == 100000 && Pow10(6) == 1000000;
    DecimalLength(100000 + draw, 6);
    DecimalRoundTrip(100000 + draw);
  }

  // ---------------------------------------------------------------------------
  // The service operations as functions of the whole state

  /** `addUser(id, name, phone)`: a new record is unauthorized and has no card; an existing one gets only `name` and `phone`. */
  function Registered(w: Sessions, id: int, name: string, phone: string): (r: Sessions) {
    if id in w.store.users then w.(store := Updated(w.store, id, Patch(None, Some(name), Some(phone), None, None)))
    else w.(store := Added(w.store, User(id, name, phone, Unauthorized, None)))
  }

  /** `updateUserState(id, state)` */
  function StateSet(w: Sessions, id: int, st: State): (r: Sessions) {
    w.(store := StateUpdated(w.store, id, st))
  }

  /** `getUserState(id)` */
  function StateOf(w: Sessions, id: int): (r: Option<State>) {
    if id in w.store.users then Some(w.store.users[id].state) else None
  }

  /** `updateUserCode(id, code)` */
  function CodeSet(w: Sessions, id: int, c: string): (r: Sessions) {
    w.(store := CodeUpdated(w.store, id, c))
  }

  /** `generateVerificationCode(id)`: the new code replaces any pending one. */
  function Issued(w: Sessions, id: int, draw: Draw): (r: Sessions) {
    w.(codes := w.codes[id := CodeFor(draw)])
  }

  /** The test of `verifyCode`: a code is pending and equals the candidate exactly. */
  predicate Accepts(w: Sessions, id: int, candidate: string) {
    id in w.codes && w.codes[id] == candidate
  }

  /** The state after `verifyCode(id, candidate)`: a matched code is used up. */
  function Verified(w: Sessions, id: int, candidate: string): (r: Sessions) {
    if Accepts(w, id, candidate) then w.(codes := w.codes - {id}) else w
  }

  /** The counter as `incrementFailedAttempts` reads it: missing and 0 are both "no failures". */
  function FailCount(w: Sessions, id: int): (r: int) {
    if id in w.failed && w.failed[id] != 0 then w.failed[id] else 0
  }

  /** The state after `incrementFailedAttempts(id)`. */
  function FailureRecorded(w: Sessions, id: int): (r: Sessions) {
    w.(failed := w.failed[id := FailCount(w, id) + 1])
  }

  /** What `incrementFailedAttempts(id)` returns when called in state `w`. */
  function AttemptsLeft(w: Sessions, id: int): (r: int) {
    MaxAttempts - (FailCount(w, id) + 1)
  }

  /** `resetFailedAttempts(id)` */
  function AttemptsReset(w: Sessions, id: int): (r: Sessions) {
    w.(failed := w.failed - {id})
  }

  /** `removeUser(id)`: the record, the pending code and the counter of `id`. */
  function Dropped(w: Sessions, id: int): (r: Sessions) {
    Sessions(Removed(w.store, id), w.codes - {id}, w.failed - {id})
  }

  /** `n` consecutive calls of `incrementFailedAttempts(id)`. */
  function Failures(w: Sessions, id: int, n: nat): (r: Sessions) {
    if n == 0 then w else FailureRecorded(Failures(w, id, n - 1), id)
  }

  // ---------------------------------------------------------------------------
  // Properties of the service operations

  /** The store invariant the service keeps: ids are keys and card codes are injective. */
  ghost predicate Inv(w: Sessions) {
    WellFormed(w.store) && CodeInjective(w.store)
  }

  /**
   * `addUser` on an absent id creates `{id, name, phone, state: unauthorized}` without a code;
   * on an existing id only name and phone change. Other records are untouched.
   */
  lemma RegisteredSpec(w: Sessions, id: int, name: string, phone: string)
    requires Inv(w)
    ensures Inv(Registered(w, id, name, phone))
    ensures id !in w.store.users ==>
      Registered(w, id, name, phone).store.users == w.store.users[id := User(id, name, phone, Unauthorized, None)]
    ensures id in w.store.users ==>
      Registered(w, id, name, phone).store.users == w.store.users[id := w.store.users[id].(name := name, phone := phone)]
    ensures Registered(w, id, name, phone).codes == w.codes && Registered(w, id, name, phone).failed == w.failed
  {
    if id in w.store.users {
      UpdatedSpec(w.store, id, Patch(None, Some(name), Some(phone), None, None));
    } else {
      AddedSpec(w.store, User(id, name, phone, Unauthorized, None));
    }
  }

  /** `getUserState` after `updateUserState(id, s)` gives `s` for an existing id and nothing for an absent one. */
  lemma StateSetSpec(w: Sessions, id: int, st: State)
    requires Inv(w)
    ensures Inv(StateSet(w, id, st))
    ensures StateOf(StateSet(w, id, st), id) == if id in w.store.users then Some(st) else None
    ensures StateSet(w, id, st).store.users ==
      if id in w.store.users then w.store.users[id := w.store.users[id].(state := st)] else w.store.users
  {
    StateUpdatedSpec(w.store, id, st);
  }

  lemma CodeSetInv(w: Sessions, id: int, c: string)
    requires Inv(w)
    ensures Inv(CodeSet(w, id, c))
  {
    CodeUpdatedSpec(w.store, id, c);
  }

  /**
   * `generateVerificationCode` makes a six-digit code the only pending code of `id`,
   * replacing an earlier one, and touches no other user's code.
   */
  lemma IssuedSpec(w: Sessions, id: int, draw: Draw)
    ensures id in Issued(w, id, draw).codes
    ensures Issued(w, id, draw).codes[id] == CodeFor(draw) && |CodeFor(draw)| == 6
    ensures 100000 <= DecimalValue(Issued(w, id, draw).codes[id]) <= 999999
    ensures forall k :: k != id ==> (k in Issued(w, id, draw).codes <==> k in w.codes)
    ensures forall k :: k != id && k in w.codes ==> Issued(w, id, draw).codes[k] == w.codes[k]
  {
    IssuedCodeShape(draw);
  }

  /**
   * A code is accepted once: after a successful `verifyCode` the same value is refused.
   */
  lemma VerifySingleUse(w: Sessions, id: int, candidate: string)
    requires Accepts(w, id, candidate)
    ensures !Accepts(Verified(w, id, candidate), id, candidate)
    ensures Verified(w, id, candidate).codes == w.codes - {id}
  {
  }

  /** A refused candidate leaves every pending code as it was, also the one of `id`. */
  lemma VerifyRefusedKeepsCodes(w: Sessions, id: int, candidate: string)
    requires !Accepts(w, id, candidate)
    ensures Verified(w, id, candidate) == w
    ensures forall c :: Accepts(w, id, c) ==> Accepts(Verified(w, id, candidate), id, c)
  {
  }

  /** After a reset, `n` failures leave the counter at `n`; other counters stay as they were. */
  lemma {:induction false} FailuresCount(w: Sessions, id: int, n: nat)
    ensures FailCount(Failures(AttemptsReset(w, id), id, n), id) == n
    ensures forall k :: k != id ==> (k in Failures(AttemptsReset(w, id), id, n).failed <==> k in w.failed)
    ensures forall k :: k != id && k in w.failed ==> Failures(AttemptsReset(w, id), id, n).failed[k] == w.failed[k]
    ensures Failures(AttemptsReset(w, id), id, n).store == w.store
    ensures Failures(AttemptsReset(w, id), id, n).codes == w.codes
  {
    if n > 0 {
      FailuresCount(w, id, n - 1);
    }
  }

  /**
   * Since the last reset, the (n+1)-th call of `incrementFailedAttempts` returns `3 - (n + 1)`:
   * 2, 1, 0, then negative values, without a cap.
   */
  lemma AttemptsLeftAfterReset(w: Sessions, id: int, n: nat)
    ensures AttemptsLeft(Failures(AttemptsReset(w, id), id, n), id) == MaxAttempts - (n + 1)
  {
    FailuresCount(w, id, n);
  }

  /** `removeUser(id)` deletes the record, the pending code and the counter of `id`, and nothing else. */
  lemma DroppedSpec(w: Sessions, id: int)
    requires Inv(w)
    ensures Inv(Dropped(w, id))
    ensures Dropped(w, id).store.users == w.store.users - {id}
    ensures Dropped(w, id).codes == w.codes - {id} && Dropped(w, id).failed == w.failed - {id}
  {
    RemovedSpec(w.store, id);
  }

  /** The session service: the shared store plus the pending codes and the failure counters. */
  class UserService {
    const repo: UserRepository
    var codes: map<int, string>
    var failed: map<int, int>

    ghost predicate Valid()
      reads this, repo
    {
      repo.Valid()
    }

    function Value(): (r: Sessions)
      reads this, repo
    {
      Sessions(repo.Value(), codes, failed)
    }

    /** The source's repository is one module-level instance; here it is passed in. */
    constructor (repo: UserRepository)
      requires repo.Valid()
      ensures this.repo == repo && Valid()
      ensures codes == map[] && failed == map[]
    {
      this.repo := repo;
      codes := map[];
      failed := map[];
    }

    method AddUser(id: int, name: string, phone: string)
      requires Valid()
      modifies repo
      ensures Valid()
      ensures Value() == Registered(old(Value()), id, name, phone)
    {
      var userExists := repo.FindUserById(id);
      if userExists.None? {
        repo.AddUser(User(id, name, phone, Unauthorized, None));
      } else {
        repo.UpdateUser(id, Patch(None, Some(name), Some(phone), None, None));
      }
    }

    method GetUserInfo(id: int) returns (r: Option<User>)
      requires Valid()
      ensures r.Some? <==> id in repo.users
      ensures r.Some? ==> r.value == repo.users[id] && r.value.id == id
    {
      r := repo.FindUserById(id);
    }

    method UpdateUserState(id: int, st: State)
      requires Valid()
      modifies repo
      ensures Valid()
      ensures Value() == StateSet(old(Value()), id, st)
    {
      repo.UpdateUserState(id, st);
    }

    method GetUserState(id: int) returns (r: Option<State>)
      requires Valid()
      ensures r.Some? <==> id in repo.users
      ensures r.Some? ==> r.value == repo.users[id].state
    {
      var user := repo.FindUserById(id);
      r := if user.Some? then Some(user.value.state) else None;
    }

    method UpdateUserCode(id: int, c: string)
      requires Valid()
      modifies repo
      ensures Valid()
      ensures Value() == CodeSet(old(Value()), id, c)
    {
      repo.UpdateUserCode(id, c);
    }

    method GenerateVerificationCode(userId: int, draw: Draw) returns (code: string)
      requires Valid()
      modifies this
      ensures Valid()
      ensures Value() == Issued(old(Value()), userId, draw)
      ensures code == codes[userId] && |code| == 6 && 100000 <= DecimalValue(code) <= 999999
    {
      code := DecimalString(100000 + draw);
      IssuedCodeShape(draw);
      codes := codes[userId := code];
    }

    method VerifyCode(userId: int, code: string) returns (ok: bool)
      requires Valid()
      modifies this
      ensures Valid()
      ensures ok == Accepts(old(Value()), userId, code)
      ensures Value() == Verified(old(Value()), userId, code)
    {
      if userId in codes && codes[userId] == code {
        codes := codes - {userId};
        ok := true;
      } else {
        ok := false;
      }
    }

    method IncrementFailedAttempts(userId: int) returns (left: int)
      requires Valid()
      modifies this
      ensures Valid()
      ensures left == AttemptsLeft(old(Value()), userId)
      ensures Value() == FailureRecorded(old(Value()), userId)
    {
      if userId !in failed || failed[userId] == 0 {
        failed := failed[userId := 0];
      }
      failed := failed[userId := failed[userId] + 1];
      left := MaxAttempts - failed[userId];
    }

    method ResetFailedAttempts(userId: int)
      requires Valid()
      modifies this
      ensures Valid()
      ensures Value() == AttemptsReset(old(Value()), userId)
    {
      failed := failed - {userId};
    }

    method RemoveUser(id: int)
      requires Valid()
      modifies this, repo
      ensures Valid()
      ensures Value() == Dropped(old(Value()), id)
    {
      repo.RemoveUser(id);
      codes := codes - {id};
      failed := failed - {id};
    }
  }
}
