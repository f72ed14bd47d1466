/**
 * What the conversation controller guarantees: the store invariant survives every handler,
 * a handler touches only its own user (apart from evicting the previous holder of a card
 * code), and the transition table of the login and registration flow.
 */
module ControllerProps {
  import opened UserModel
  import opened Repository
  import opened Service
  import opened Controller

  /**
   * From `w` to `w2` nothing of any user but `id` changed, except that the record of another
   * user may have disappeared when it held the card code `id` holds now: the eviction of
   * `updateUserCode`.
   */
  ghost predicate OthersKept(w: Sessions, w2: Sessions, id: int) {
    && (forall k :: k != id && k in w2.store.users ==> k in w.store.users && w2.store.users[k] == w.store.users[k])
    && (forall k :: k != id && k in w.store.users && k !in w2.store.users ==>
          && id in w2.store.users && w.store.users[k].code.Some?
          && w.store.users[k].code == w2.store.users[id].code)
    && (forall k :: k != id ==> (k in w2.codes <==> k in w.codes))
    && (forall k :: k != id && k in w.codes ==> w2.codes[k] == w.codes[k])
    && (forall k :: k != id ==> (k in w2.failed <==> k in w.failed))
    && (forall k :: k != id && k in w.failed ==> w2.failed[k] == w.failed[k])
  }

  // ---------------------------------------------------------------------------
  // The building blocks

  /**
   * An accepted phone in `awaiting_phone`. A found card stores the returned name, the phone
   * and the card code (evicting the card's previous holder); a failed lookup stores the phone,
   * blanks the name and keeps any old card code. Either way one code is issued and the state
   * becomes `awaiting_code`; the counters are untouched.
   */
  lemma PhoneAcceptedSpec(w: Sessions, id: int, phone: string, reg: Registry, draw: Draw)
    requires Inv(w) && id in w.store.users
    ensures Inv(PhoneAccepted(w, id, phone, reg, draw).world)
    ensures OthersKept(w, PhoneAccepted(w, id, phone, reg, draw).world, id)
    ensures reg.cardByPhone(phone).Some? ==>
      var card := reg.cardByPhone(phone).value;
      var users := PhoneAccepted(w, id, phone, reg, draw).world.store.users;
      && id in users
      && users[id] == User(id, card.person, phone, AwaitingCode, Some(card.code))
      && (forall k :: k in users && k != id ==> users[k].code != Some(card.code))
    ensures reg.cardByPhone(phone).None? ==>
      PhoneAccepted(w, id, phone, reg, draw).world.store.users ==
        w.store.users[id := w.store.users[id].(name := "", phone := phone, state := AwaitingCode)]
    ensures PhoneAccepted(w, id, phone, reg, draw).world.codes == w.codes[id := CodeFor(draw)]
    ensures PhoneAccepted(w, id, phone, reg, draw).world.failed == w.failed
  {
    match reg.cardByPhone(phone)
    case Some(card) =>
      var w1 := Registered(w, id, card.person, phone);
      RegisteredSpec(w, id, card.person, phone);
      CodeUpdatedSpec(w1.store, id, card.code);
      StateSetSpec(Issued(CodeSet(w1, id, card.code), id, draw), id, AwaitingCode);
    case None =>
      var w1 := Issued(w, id, draw);
      RegisteredSpec(w1, id, "", phone);
      StateSetSpec(Registered(w1, id, "", phone), id, AwaitingCode);
  }

  /**
   * The code step. A correct code is used up: with a card the user is authorized and the
   * counter is NOT reset; without one the user moves to `awaiting_name` with the counter reset.
   * A wrong code leaves every pending code in place and counts a failure: while attempts are
   * left the state stays `awaiting_code`, otherwise it becomes `awaiting_phone` and the counter
   * is cleared.
   */
  lemma CodeStepSpec(w: Sessions, id: int, msg: string)
    requires Inv(w) && id in w.store.users
    ensures Inv(CodeStep(w, id, w.store.users[id], msg).world)
    ensures OthersKept(w, CodeStep(w, id, w.store.users[id], msg).world, id)
    ensures Accepts(w, id, msg) ==>
      var u := w.store.users[id];
      var w2 := CodeStep(w, id, u, msg).world;
      && w2.codes == w.codes - {id}
      && (HasCard(u) ==>
            w2.store.users == w.store.users[id := u.(state := Authorized)] && w2.failed == w.failed)
      && (!HasCard(u) ==>
            w2.store.users == w.store.users[id := u.(state := AwaitingName)] && w2.failed == w.failed - {id})
    ensures !Accepts(w, id, msg) ==>
      var u := w.store.users[id];
      var step := CodeStep(w, id, u, msg);
      && step.world.codes == w.codes
      && (AttemptsLeft(w, id) > 0 ==>
            step.world.store == w.store && step.world.failed == w.failed[id := FailCount(w, id) + 1]
            && step.reply == WrongCode(AttemptsLeft(w, id)))
      && (AttemptsLeft(w, id) <= 0 ==>
            step.world.store.users == w.store.users[id := u.(state := AwaitingPhone)]
            && step.world.failed == w.failed - {id} && step.reply == LockedOut)
  {
    var u := w.store.users[id];
    if Accepts(w, id, msg) {
      StateSetSpec(Verified(w, id, msg), id, if HasCard(u) then Authorized else AwaitingName);
    } else {
      StateSetSpec(FailureRecorded(w, id), id, AwaitingPhone);
    }
  }

  /**
   * The e-mail step. A created card stores its code (evicting its previous holder) and
   * authorizes; a failed creation sets `unauthorized` with blank name and phone and keeps
   * the old card code.
   */
  lemma MailStepSpec(w: Sessions, id: int, msg: string, reg: Registry)
    requires Inv(w) && id in w.store.users
    ensures Inv(MailStep(w, id, w.store.users[id], msg, reg).world)
    ensures OthersKept(w, MailStep(w, id, w.store.users[id], msg, reg).world, id)
    ensures MailStep(w, id, w.store.users[id], msg, reg).world.codes == w.codes
    ensures MailStep(w, id, w.store.users[id], msg, reg).world.failed == w.failed
    ensures
      var u := w.store.users[id];
      var users := MailStep(w, id, u, msg, reg).world.store.users;
      match reg.addNewCard(u.name, u.phone, msg, id)
      case Some(code) =>
        && id in users && users[id] == u.(state := Authorized, code := Some(code))
        && (forall k :: k in users && k != id ==> users[k].code != Some(code))
      case None =>
        users == w.store.users[id := u.(name := "", phone := "", state := Unauthorized)]
  {
    var u := w.store.users[id];
    match reg.addNewCard(u.name, u.phone, msg, u.id)
    case Some(code) =>
      CodeUpdatedSpec(w.store, id, code);
      StateSetSpec(CodeSet(w, id, code), id, Authorized);
    case None =>
      StateSetSpec(w, id, Unauthorized);
      RegisteredSpec(StateSet(w, id, Unauthorized), id, "", "");
  }

  // ---------------------------------------------------------------------------
  // Invariant and frame of every handler

  /** `handleStart` keeps the invariant and touches only the sender. */
  lemma StartKeeps(w: Sessions, from: Option<int>)
    requires Inv(w)
    ensures Inv(Start(w, from).world)
    ensures NoSender(from) ==> Start(w, from).world == w
    ensures !NoSender(from) ==> OthersKept(w, Start(w, from).world, from.value)
  {
    if !NoSender(from) && from.value !in w.store.users {
      RegisteredSpec(w, from.value, "", "");
      StateSetSpec(Registered(w, from.value, "", ""), from.value, AwaitingPhone);
    }
  }

  /** `handleContact` keeps the invariant and touches only the sender (and an evicted card holder). */
  lemma ContactKeeps(w: Sessions, from: Option<int>, contact: Option<string>, reg: Registry, draw: Draw)
    requires Inv(w)
    ensures Inv(Contact(w, from, contact, reg, draw).world)
    ensures NoSender(from) ==> Contact(w, from, contact, reg, draw).world == w
    ensures !NoSender(from) ==> OthersKept(w, Contact(w, from, contact, reg, draw).world, from.value)
  {
    if !NoSender(from) && contact.Some? && contact.value != "" && from.value in w.store.users {
      PhoneAcceptedSpec(w, from.value, contact.value, reg, draw);
    }
  }

  /** `handleText` keeps the invariant and touches only the sender (and an evicted card holder). */
  lemma TextKeeps(w: Sessions, from: Option<int>, text: Option<string>, reg: Registry, draw: Draw)
    requires Inv(w)
    ensures Inv(Text(w, from, text, reg, draw).world)
    ensures NoSender(from) ==> Text(w, from, text, reg, draw).world == w
    ensures !NoSender(from) ==> OthersKept(w, Text(w, from, text, reg, draw).world, from.value)
  {
    if !NoSender(from) && text.Some? && text.value != "" && from.value in w.store.users {
      TextStepKeeps(w, from.value, text.value, reg, draw);
    }
  }

  /** The state-by-state part of `TextKeeps`, for a known sender and a non-empty text. */
  lemma TextStepKeeps(w: Sessions, id: int, msg: string, reg: Registry, draw: Draw)
    requires Inv(w) && id != 0 && msg != "" && id in w.store.users
    ensures Inv(Text(w, Some(id), Some(msg), reg, draw).world)
    ensures OthersKept(w, Text(w, Some(id), Some(msg), reg, draw).world, id)
  {
    var u := w.store.users[id];
    match u.state
    case Authorized =>
      MenuKeeps(w, id, msg, reg, draw);
    case AwaitingPhone =>
      if IsPhone(msg) {
        TextInAwaitingPhone(w, id, msg, reg, draw);
        PhoneAcceptedSpec(w, id, msg, reg, draw);
      }
    case AwaitingCode =>
      TextInAwaitingCode(w, id, msg, reg, draw);
      CodeStepSpec(w, id, msg);
    case AwaitingName =>
      NameKeeps(w, id, msg, reg, draw);
    case AwaitingMail =>
      TextInAwaitingMail(w, id, msg, reg, draw);
      MailStepSpec(w, id, msg, reg);
    case Unauthorized =>
  }

  /** The menu of an authorized user keeps the invariant and touches only that user. */
  lemma MenuKeeps(w: Sessions, id: int, msg: string, reg: Registry, draw: Draw)
    requires Inv(w) && id != 0 && msg != ""
    requires id in w.store.users && w.store.users[id].state == Authorized
    ensures Inv(Text(w, Some(id), Some(msg), reg, draw).world)
    ensures OthersKept(w, Text(w, Some(id), Some(msg), reg, draw).world, id)
  {
    AuthorizedMenu(w, id, msg, reg, draw);
    StateSetSpec(w, id, AwaitingPhone);
  }

  /** The name step keeps the invariant and touches only the sender. */
  lemma NameKeeps(w: Sessions, id: int, msg: string, reg: Registry, draw: Draw)
    requires Inv(w) && id != 0 && msg != ""
    requires id in w.store.users && w.store.users[id].state == AwaitingName
    ensures Inv(Text(w, Some(id), Some(msg), reg, draw).world)
    ensures OthersKept(w, Text(w, Some(id), Some(msg), reg, draw).world, id)
  {
    var u := w.store.users[id];
    NameTransition(w, id, msg, reg, draw);
    RegisteredSpec(w, id, msg, u.phone);
    StateSetSpec(Registered(w, id, msg, u.phone), id, AwaitingMail);
  }

  /** `handleLogout` keeps the invariant and touches only the sender. */
  lemma LogoutKeeps(w: Sessions, from: Option<int>)
    requires Inv(w)
    ensures Inv(Logout(w, from).world)
    ensures NoSender(from) ==> Logout(w, from).world == w
    ensures !NoSender(from) ==> OthersKept(w, Logout(w, from).world, from.value)
  {
    if !NoSender(from) {
      DroppedSpec(w, from.value);
    }
  }

  // ---------------------------------------------------------------------------
  // The transition table

  /**
   * `/start` from an unknown id creates `{id, "", "", awaiting_phone}` without a code;
   * from a known id it changes nothing.
   */
  lemma StartTransition(w: Sessions, id: int)
    requires Inv(w) && id != 0
    ensures id !in w.store.users ==>
      Start(w, Some(id)).world == w.(store := Start(w, Some(id)).world.store)
      && Start(w, Some(id)).world.store.users == w.store.users[id := User(id, "", "", AwaitingPhone, None)]
    ensures id in w.store.users ==> Start(w, Some(id)).world == w
  {
    if id !in w.store.users {
      RegisteredSpec(w, id, "", "");
      StateSetSpec(Registered(w, id, "", ""), id, AwaitingPhone);
    }
  }

  /**
   * In `awaiting_phone` a text is taken as a phone iff it matches the phone pattern; a text
   * that does not match changes nothing, one that matches always leads to `awaiting_code`.
   */
  lemma PhoneGate(w: Sessions, id: int, msg: string, reg: Registry, draw: Draw)
    requires Inv(w) && id != 0 && msg != ""
    requires id in w.store.users && w.store.users[id].state == AwaitingPhone
    ensures !IsPhone(msg) <==> Text(w, Some(id), Some(msg), reg, draw).reply == InvalidPhone
    ensures !IsPhone(msg) ==> Text(w, Some(id), Some(msg), reg, draw).world == w
    ensures IsPhone(msg) ==>
      var w2 := Text(w, Some(id), Some(msg), reg, draw).world;
      id in w2.store.users && w2.store.users[id].state == AwaitingCode && w2.store.users[id].phone == msg
      && w2.codes == w.codes[id := CodeFor(draw)]
  {
    if IsPhone(msg) {
      PhoneAcceptedSpec(w, id, msg, reg, draw);
    }
  }

  /** A shared contact in `awaiting_phone` is taken as it is, without the phone pattern. */
  lemma ContactTransition(w: Sessions, id: int, phone: string, reg: Registry, draw: Draw)
    requires Inv(w) && id != 0 && phone != ""
    requires id in w.store.users && w.store.users[id].state == AwaitingPhone
    ensures
      var w2 := Contact(w, Some(id), Some(phone), reg, draw).world;
      id in w2.store.users && w2.store.users[id].state == AwaitingCode && w2.store.users[id].phone == phone
      && w2.codes == w.codes[id := CodeFor(draw)] && w2.failed == w.failed
  {
    PhoneAcceptedSpec(w, id, phone, reg, draw);
  }

  /** Any text in `awaiting_name` becomes the name; the phone is kept and the state is `awaiting_mail`. */
  lemma NameTransition(w: Sessions, id: int, msg: string, reg: Registry, draw: Draw)
    requires Inv(w) && id != 0 && msg != ""
    requires id in w.store.users && w.store.users[id].state == AwaitingName
    ensures Text(w, Some(id), Some(msg), reg, draw).world ==
      w.(store := Text(w, Some(id), Some(msg), reg, draw).world.store)
    ensures Text(w, Some(id), Some(msg), reg, draw).world.store.users ==
      w.store.users[id := w.store.users[id].(name := msg, state := AwaitingMail)]
  {
    var u := w.store.users[id];
    RegisteredSpec(w, id, msg, u.phone);
    StateSetSpec(Registered(w, id, msg, u.phone), id, AwaitingMail);
  }

  /**
   * For an authorized user the balance, QR and history buttons and any other text but
   * "Выйти" change nothing; "Выйти" sets `awaiting_phone` and keeps name, phone and code.
   */
  lemma AuthorizedMenu(w: Sessions, id: int, msg: string, reg: Registry, draw: Draw)
    requires Inv(w) && id != 0 && msg != ""
    requires id in w.store.users && w.store.users[id].state == Authorized
    ensures msg != LogoutButton ==> Text(w, Some(id), Some(msg), reg, draw).world == w
    ensures msg == LogoutButton ==>
      Text(w, Some(id), Some(msg), reg, draw).world ==
        w.(store := Store(w.store.users[id := w.store.users[id].(state := AwaitingPhone)], w.store.order))
  {
  }

  /** `/logout` removes the record, the pending code and the counter of an authorized user, and otherwise changes nothing. */
  lemma LogoutTransition(w: Sessions, id: int)
    requires Inv(w) && id != 0
    ensures id in w.store.users && w.store.users[id].state == Authorized ==>
      var w2 := Logout(w, Some(id)).world;
      w2.store.users == w.store.users - {id} && w2.codes == w.codes - {id} && w2.failed == w.failed - {id}
    ensures !(id in w.store.users && w.store.users[id].state == Authorized) ==> Logout(w, Some(id)).world == w
  {
    DroppedSpec(w, id);
  }

  /** No handler takes a user out of `unauthorized`: every event from such a user changes nothing. */
  lemma UnauthorizedIsStuck(w: Sessions, id: int, contact: Option<string>, text: Option<string>, reg: Registry, draw: Draw)
    requires id in w.store.users && w.store.users[id].state == Unauthorized
    ensures Start(w, Some(id)).world == w
    ensures Contact(w, Some(id), contact, reg, draw).world == w
    ensures Text(w, Some(id), text, reg, draw).world == w
    ensures Logout(w, Some(id)).world == w
  {
  }

  /** A text from a known sender in `awaiting_phone` is the phone step when it matches the pattern. */
  lemma TextInAwaitingPhone(w: Sessions, id: int, msg: string, reg: Registry, draw: Draw)
    requires id != 0 && msg != "" && id in w.store.users && w.store.users[id].state == AwaitingPhone
    requires IsPhone(msg)
    ensures Text(w, Some(id), Some(msg), reg, draw) == PhoneAccepted(w, id, msg, reg, draw)
  {
  }

  /** A text from a known sender in `awaiting_code` is the code step. */
  lemma TextInAwaitingCode(w: Sessions, id: int, msg: string, reg: Registry, draw: Draw)
    requires id != 0 && msg != "" && id in w.store.users && w.store.users[id].state == AwaitingCode
    ensures Text(w, Some(id), Some(msg), reg, draw) == CodeStep(w, id, w.store.users[id], msg)
  {
  }

  /** A text from a known sender in `awaiting_mail` is the e-mail step. */
  lemma TextInAwaitingMail(w: Sessions, id: int, msg: string, reg: Registry, draw: Draw)
    requires id != 0 && msg != "" && id in w.store.users && w.store.users[id].state == AwaitingMail
    ensures Text(w, Some(id), Some(msg), reg, draw) == MailStep(w, id, w.store.users[id], msg, reg)
  {
  }

  // ---------------------------------------------------------------------------
  // Bounded retries

  /** Every stored failure counter lies in 1..MaxAttempts-1, so a user has at most three tries. */
  ghost predicate CountersBounded(w: Sessions) {
    forall k :: k in w.failed ==> 1 <= w.failed[k] < MaxAttempts
  }

  /** The code step keeps the counters bounded: a wrong code that would reach the bound clears the counter instead. */
  lemma CodeStepKeepsCounters(w: Sessions, id: int, msg: string)
    requires Inv(w) && CountersBounded(w) && id in w.store.users
    ensures CountersBounded(CodeStep(w, id, w.store.users[id], msg).world)
  {
    CodeStepSpec(w, id, msg);
  }

  /** `handleStart` keeps the counters bounded. */
  lemma StartKeepsCounters(w: Sessions, from: Option<int>)
    requires Inv(w) && CountersBounded(w)
    ensures CountersBounded(Start(w, from).world)
  {
    if !NoSender(from) && from.value !in w.store.users {
      RegisteredSpec(w, from.value, "", "");
    }
  }

  /** `handleContact` keeps the counters bounded. */
  lemma ContactKeepsCounters(w: Sessions, from: Option<int>, contact: Option<string>, reg: Registry, draw: Draw)
    requires Inv(w) && CountersBounded(w)
    ensures CountersBounded(Contact(w, from, contact, reg, draw).world)
  {
    if !NoSender(from) && contact.Some? && contact.value != "" && from.value in w.store.users {
      PhoneAcceptedSpec(w, from.value, contact.value, reg, draw);
    }
  }

  /** `handleText` keeps the counters bounded. */
  lemma TextKeepsCounters(w: Sessions, from: Option<int>, text: Option<string>, reg: Registry, draw: Draw)
    requires Inv(w) && CountersBounded(w)
    ensures CountersBounded(Text(w, from, text, reg, draw).world)
  {
    if !NoSender(from) && text.Some? && text.value != "" && from.value in w.store.users {
      var id, msg := from.value, text.value;
      var u := w.store.users[id];
      match u.state
      case Authorized =>
      case AwaitingPhone =>
        if IsPhone(msg) {
          TextInAwaitingPhone(w, id, msg, reg, draw);
          PhoneAcceptedSpec(w, id, msg, reg, draw);
        }
      case AwaitingCode =>
        TextInAwaitingCode(w, id, msg, reg, draw);
        CodeStepKeepsCounters(w, id, msg);
      case AwaitingName =>
        RegisteredSpec(w, id, msg, u.phone);
      case AwaitingMail =>
        TextInAwaitingMail(w, id, msg, reg, draw);
        MailStepSpec(w, id, msg, reg);
      case Unauthorized =>
    }
  }

  /** `handleLogout` keeps the counters bounded. */
  lemma LogoutKeepsCounters(w: Sessions, from: Option<int>)
    requires Inv(w) && CountersBounded(w)
    ensures CountersBounded(Logout(w, from).world)
  {
  }

  /**
   * A wrong code in `awaiting_code` either locks the user out or counts one failure, leaving
   * the store and the pending codes as they were; it counts only while the new count stays below
   * the bound.
   */
  lemma WrongCodeCounts(w: Sessions, id: int, t: string, reg: Registry, draw: Draw)
    requires Inv(w) && id != 0 && t != "" && id in w.store.users
    requires w.store.users[id].state == AwaitingCode && !Accepts(w, id, t)
    ensures
      var s := Text(w, Some(id), Some(t), reg, draw);
      || s.reply == LockedOut
      || (&& Inv(s.world) && s.world.store == w.store && s.world.codes == w.codes
          && FailCount(s.world, id) == FailCount(w, id) + 1 && FailCount(w, id) + 1 < MaxAttempts)
  {
    TextInAwaitingCode(w, id, t, reg, draw);
    CodeStepSpec(w, id, t);
  }

  // ---------------------------------------------------------------------------
  // Runs of several events

  /**
   * Three wrong codes in a row, starting from a clean counter, answer "2 left", "1 left" and
   * then lock out: the user is back in `awaiting_phone` with the counter cleared, and the
   * pending code is still there.
   */
  lemma LockoutAfterThreeWrongCodes(w: Sessions, id: int, t1: string, t2: string, t3: string, reg: Registry, draw: Draw)
    requires Inv(w) && id != 0 && t1 != "" && t2 != "" && t3 != ""
    requires id in w.store.users && w.store.users[id].state == AwaitingCode && id !in w.failed
    requires !Accepts(w, id, t1) && !Accepts(w, id, t2) && !Accepts(w, id, t3)
    ensures
      var s1 := Text(w, Some(id), Some(t1), reg, draw);
      var s2 := Text(s1.world, Some(id), Some(t2), reg, draw);
      var s3 := Text(s2.world, Some(id), Some(t3), reg, draw);
      && s1.reply == WrongCode(2) && s2.reply == WrongCode(1) && s3.reply == LockedOut
      && id in s3.world.store.users && s3.world.store.users[id].state == AwaitingPhone
      && id !in s3.world.failed
      && s3.world.codes == w.codes
  {
    var s1 := Text(w, Some(id), Some(t1), reg, draw);
    CodeStepSpec(w, id, t1);
    assert FailCount(s1.world, id) == 1;
    var s2 := Text(s1.world, Some(id), Some(t2), reg, draw);
    CodeStepSpec(s1.world, id, t2);
    assert FailCount(s2.world, id) == 2;
    CodeStepSpec(s2.world, id, t3);
  }

  /**
   * Whatever counter the user starts with, as long as counters are bounded: of three
   * consecutive wrong codes in `awaiting_code`, one is answered with the lockout.
   */
  lemma LockoutWithinThreeWrongCodes(w: Sessions, id: int, t1: string, t2: string, t3: string, reg: Registry, draw: Draw)
    requires Inv(w) && CountersBounded(w) && id != 0 && t1 != "" && t2 != "" && t3 != ""
    requires id in w.store.users && w.store.users[id].state == AwaitingCode
    requires !Accepts(w, id, t1) && !Accepts(w, id, t2) && !Accepts(w, id, t3)
    ensures
      var s1 := Text(w, Some(id), Some(t1), reg, draw);
      var s2 := Text(s1.world, Some(id), Some(t2), reg, draw);
      var s3 := Text(s2.world, Some(id), Some(t3), reg, draw);
      s1.reply == LockedOut || s2.reply == LockedOut || s3.reply == LockedOut
  {
    assert FailCount(w, id) >= 0;
    var s1 := Text(w, Some(id), Some(t1), reg, draw);
    WrongCodeCounts(w, id, t1, reg, draw);
    if s1.reply != LockedOut {
      assert !Accepts(s1.world, id, t2);
      var s2 := Text(s1.world, Some(id), Some(t2), reg, draw);
      WrongCodeCounts(s1.world, id, t2, reg, draw);
      if s2.reply != LockedOut {
        assert !Accepts(s2.world, id, t3);
        WrongCodeCounts(s2.world, id, t3, reg, draw);
      }
    }
  }

  /** A wrong attempt does not spoil the pending code: the right one is accepted next. */
  lemma WrongThenRightCode(w: Sessions, id: int, wrong: string, reg: Registry, draw: Draw)
    requires Inv(w) && id != 0 && wrong != ""
    requires id in w.store.users && w.store.users[id].state == AwaitingCode && id !in w.failed
    requires id in w.codes && w.codes[id] != wrong && w.codes[id] != ""
    ensures
      var s1 := Text(w, Some(id), Some(wrong), reg, draw);
      var s2 := Text(s1.world, Some(id), Some(w.codes[id]), reg, draw);
      s1.reply == WrongCode(2) && s2.reply == CodeAccepted(HasCard(w.store.users[id]))
  {
    var s1 := Text(w, Some(id), Some(wrong), reg, draw);
    TextInAwaitingCode(w, id, wrong, reg, draw);
    CodeStepSpec(w, id, wrong);
    assert s1.world.store == w.store && s1.world.codes == w.codes;
    TextInAwaitingCode(s1.world, id, w.codes[id], reg, draw);
    CodeStepSpec(s1.world, id, w.codes[id]);
  }

  /** A card holder with recorded failures who enters the right code and taps "Выйти" keeps those failures. */
  lemma CardHolderLogsOut(w: Sessions, id: int, reg: Registry, draw: Draw)
    requires Inv(w) && id != 0 && id in w.store.users
    requires w.store.users[id].state == AwaitingCode && HasCard(w.store.users[id])
    requires id in w.codes && w.codes[id] != ""
    ensures
      var s1 := Text(w, Some(id), Some(w.codes[id]), reg, draw);
      var s2 := Text(s1.world, Some(id), Some(LogoutButton), reg, draw);
      && s1.reply == CodeAccepted(true) && s2.reply == LoggedOut
      && Inv(s2.world) && id in s2.world.store.users
      && s2.world.store.users[id].state == AwaitingPhone && s2.world.failed == w.failed
  {
    var s1 := Text(w, Some(id), Some(w.codes[id]), reg, draw);
    TextInAwaitingCode(w, id, w.codes[id], reg, draw);
    CodeStepSpec(w, id, w.codes[id]);
    TextKeeps(w, Some(id), Some(w.codes[id]), reg, draw);
    assert s1.world.store.users[id].state == Authorized && s1.world.failed == w.failed;
    AuthorizedMenu(s1.world, id, LogoutButton, reg, draw);
    TextKeeps(s1.world, Some(id), Some(LogoutButton), reg, draw);
  }

  /** A user back at the phone prompt with two recorded failures is locked out by one wrong code. */
  lemma OneWrongCodeLocksOut(w: Sessions, id: int, phone: string, wrong: string, reg: Registry, draw: Draw)
    requires Inv(w) && id != 0 && id in w.store.users
    requires w.store.users[id].state == AwaitingPhone && FailCount(w, id) == 2
    requires IsPhone(phone) && wrong != "" && wrong != CodeFor(draw)
    ensures
      var s3 := Text(w, Some(id), Some(phone), reg, draw);
      var s4 := Text(s3.world, Some(id), Some(wrong), reg, draw);
      && s4.reply == LockedOut
      && id in s4.world.store.users && s4.world.store.users[id].state == AwaitingPhone
  {
    var s3 := Text(w, Some(id), Some(phone), reg, draw);
    TextInAwaitingPhone(w, id, phone, reg, draw);
    PhoneAcceptedSpec(w, id, phone, reg, draw);
    PhoneGate(w, id, phone, reg, draw);
    TextKeeps(w, Some(id), Some(phone), reg, draw);
    assert s3.world.store.users[id].state == AwaitingCode && s3.world.failed == w.failed;
    assert !Accepts(s3.world, id, wrong);
    assert AttemptsLeft(s3.world, id) == 0;
    TextInAwaitingCode(s3.world, id, wrong, reg, draw);
    CodeStepSpec(s3.world, id, wrong);
  }

  /**
   * A card holder's correct code does not clear the failed-attempt counter, and nothing on the
   * way back to `awaiting_code` does either: after two wrong codes, the right one, "Выйти" and
   * the phone again, a single wrong code locks the user out.
   */
  lemma CardHolderCounterCarriesOver(w: Sessions, id: int, phone: string, wrong: string, reg: Registry, draw: Draw)
    requires Inv(w) && id != 0 && id in w.store.users
    requires w.store.users[id].state == AwaitingCode && HasCard(w.store.users[id])
    requires FailCount(w, id) == 2 && id in w.codes && w.codes[id] != ""
    requires IsPhone(phone) && wrong != "" && wrong != CodeFor(draw)
    ensures
      var s1 := Text(w, Some(id), Some(w.codes[id]), reg, draw);
      var s2 := Text(s1.world, Some(id), Some(LogoutButton), reg, draw);
      var s3 := Text(s2.world, Some(id), Some(phone), reg, draw);
      var s4 := Text(s3.world, Some(id), Some(wrong), reg, draw);
      && s1.reply == CodeAccepted(true) && s2.reply == LoggedOut && s4.reply == LockedOut
      && id in s4.world.store.users && s4.world.store.users[id].state == AwaitingPhone
  {
    CardHolderLogsOut(w, id, reg, draw);
    var s1 := Text(w, Some(id), Some(w.codes[id]), reg, draw);
    var s2 := Text(s1.world, Some(id), Some(LogoutButton), reg, draw);
    assert FailCount(s2.world, id) == 2;
    OneWrongCodeLocksOut(s2.world, id, phone, wrong, reg, draw);
  }

  /** The first four events of a new customer: `/start`, an unknown phone, the issued code and a name. */
  lemma NewCustomerUpToMail(w: Sessions, id: int, reg: Registry, draw: Draw)
    requires Inv(w) && id != 0 && id !in w.store.users
    requires reg.cardByPhone("+79991234567").None?
    ensures
      var s0 := Start(w, Some(id));
      var s1 := Text(s0.world, Some(id), Some("+79991234567"), reg, draw);
      var s2 := Text(s1.world, Some(id), Some(CodeFor(draw)), reg, draw);
      var s3 := Text(s2.world, Some(id), Some("Анна"), reg, draw);
      && s1.reply == CodeSent(true) && s2.reply == CodeAccepted(false)
      && Inv(s3.world) && id in s3.world.store.users
      && s3.world.store.users[id] == User(id, "Анна", "+79991234567", AwaitingMail, None)
  {
    var phone := "+79991234567";
    var s0 := Start(w, Some(id));
    StartTransition(w, id);
    StartKeeps(w, Some(id));
    assert s0.world.store.users[id] == User(id, "", "", AwaitingPhone, None);
    assert IsPhone(phone);
    var s1 := Text(s0.world, Some(id), Some(phone), reg, draw);
    TextInAwaitingPhone(s0.world, id, phone, reg, draw);
    PhoneAcceptedSpec(s0.world, id, phone, reg, draw);
    assert s1.world.store.users[id] == User(id, "", phone, AwaitingCode, None);
    assert Accepts(s1.world, id, CodeFor(draw));
    IssuedCodeShape(draw);
    var s2 := Text(s1.world, Some(id), Some(CodeFor(draw)), reg, draw);
    TextInAwaitingCode(s1.world, id, CodeFor(draw), reg, draw);
    CodeStepSpec(s1.world, id, CodeFor(draw));
    assert s2.world.store.users[id] == User(id, "", phone, AwaitingName, None);
    NameTransition(s2.world, id, "Анна", reg, draw);
    TextKeeps(s2.world, Some(id), Some("Анна"), reg, draw);
  }

  /**
   * A new customer: `/start`, a phone the registry does not know, the issued code, a name and
   * an e-mail for which a card is created end authorized with exactly that name, phone and card.
   */
  lemma NewCustomerScenario(w: Sessions, id: int, reg: Registry, draw: Draw)
    requires Inv(w) && id != 0 && id !in w.store.users
    requires reg.cardByPhone("+79991234567").None?
    requires reg.addNewCard("Анна", "+79991234567", "anna@example.com", id) == Some("C100")
    ensures
      var s0 := Start(w, Some(id));
      var s1 := Text(s0.world, Some(id), Some("+79991234567"), reg, draw);
      var s2 := Text(s1.world, Some(id), Some(CodeFor(draw)), reg, draw);
      var s3 := Text(s2.world, Some(id), Some("Анна"), reg, draw);
      var s4 := Text(s3.world, Some(id), Some("anna@example.com"), reg, draw);
      && s4.reply == CardCreated && id in s4.world.store.users
      && s4.world.store.users[id] == User(id, "Анна", "+79991234567", Authorized, Some("C100"))
  {
    NewCustomerUpToMail(w, id, reg, draw);
    var s0 := Start(w, Some(id));
    var s1 := Text(s0.world, Some(id), Some("+79991234567"), reg, draw);
    var s2 := Text(s1.world, Some(id), Some(CodeFor(draw)), reg, draw);
    var s3 := Text(s2.world, Some(id), Some("Анна"), reg, draw);
    TextInAwaitingMail(s3.world, id, "anna@example.com", reg, draw);
    MailStepSpec(s3.world, id, "anna@example.com", reg);
  }

  /**
   * A returning customer whose card the registry finds goes from the code straight to
   * `authorized` with the registry's name and card code, skipping the name and e-mail steps.
   */
  lemma ReturningCustomerScenario(w: Sessions, id: int, reg: Registry, draw: Draw)
    requires Inv(w) && id != 0 && id !in w.store.users
    requires reg.cardByPhone("+79991234567") == Some(Card("C200", "Boris"))
    ensures
      var s0 := Start(w, Some(id));
      var s1 := Text(s0.world, Some(id), Some("+79991234567"), reg, draw);
      var s2 := Text(s1.world, Some(id), Some(CodeFor(draw)), reg, draw);
      && s1.reply == CodeSent(false) && s2.reply == CodeAccepted(true)
      && id in s2.world.store.users
      && s2.world.store.users[id] == User(id, "Boris", "+79991234567", Authorized, Some("C200"))
  {
    var phone := "+79991234567";
    var s0 := Start(w, Some(id));
    StartTransition(w, id);
    StartKeeps(w, Some(id));
    assert s0.world.store.users[id] == User(id, "", "", AwaitingPhone, None);
    assert IsPhone(phone);
    var s1 := Text(s0.world, Some(id), Some(phone), reg, draw);
    TextInAwaitingPhone(s0.world, id, phone, reg, draw);
    PhoneAcceptedSpec(s0.world, id, phone, reg, draw);
    assert s1.world.store.users[id] == User(id, "Boris", phone, AwaitingCode, Some("C200"));
    assert Accepts(s1.world, id, CodeFor(draw));
    IssuedCodeShape(draw);
    var s2 := Text(s1.world, Some(id), Some(CodeFor(draw)), reg, draw);
    TextInAwaitingCode(s1.world, id, CodeFor(draw), reg, draw);
    CodeStepSpec(s1.world, id, CodeFor(draw));
  }

  // ---------------------------------------------------------------------------
  // The pure helpers

  /**
   * The phone pattern accepts exactly an optional `+` followed by 2 to 15 decimal digits
   * of which the first is not `0` (the length limit of ITU-T E.164).
   */
  lemma PhonePatternMeaning(s: string)
    ensures IsPhone(s) <==>
      var d := if |s| > 0 && s[0] == '+' then s[1..] else s;
      2 <= |d| <= 15 && d[0] != '0' && forall i :: 0 <= i < |d| ==> IsDigit(d[i])
  {
  }

  /** Escaping works character by character: the escape of a concatenation is the concatenation of the escapes. */
  lemma {:induction false} EscapeAppend(a: string, b: string)
    ensures EscapeMarkdown(a + b) == EscapeMarkdown(a) + EscapeMarkdown(b)
  {
    if a == [] {
      assert a + b == b;
    } else {
      assert (a + b)[0] == a[0] && (a + b)[1..] == a[1..] + b;
      EscapeAppend(a[1..], b);
    }
  }

  /** Every reserved character of the escaped text has a backslash right before it. */
  lemma {:induction false} EscapedSpecialsArePreceded(s: string)
    ensures forall i :: 0 <= i < |EscapeMarkdown(s)| && IsMarkdownSpecial(EscapeMarkdown(s)[i]) ==>
      i > 0 && EscapeMarkdown(s)[i - 1] == '\\'
  {
    if s != [] {
      EscapedSpecialsArePreceded(s[1..]);
      var head := if IsMarkdownSpecial(s[0]) then ['\\', s[0]] else [s[0]];
      var rest := EscapeMarkdown(s[1..]);
      assert EscapeMarkdown(s) == head + rest;
      forall i | 0 <= i < |head + rest| && IsMarkdownSpecial((head + rest)[i])
        ensures i > 0 && (head + rest)[i - 1] == '\\'
      {
        assert !IsMarkdownSpecial('\\');
        if i >= |head| {
          var j := i - |head|;
          assert rest[j] == (head + rest)[i];
          assert j > 0 && rest[j - 1] == '\\';
          assert (head + rest)[i - 1] == rest[j - 1];
        }
      }
    }
  }

  /** In the escaped form of a text without backslashes, each backslash is followed by a reserved character. */
  lemma {:induction false} EscapeBackslashesAreInserted(s: string)
    requires forall i :: 0 <= i < |s| ==> s[i] != '\\'
    ensures forall i :: 0 <= i < |EscapeMarkdown(s)| && EscapeMarkdown(s)[i] == '\\' ==>
      i + 1 < |EscapeMarkdown(s)| && IsMarkdownSpecial(EscapeMarkdown(s)[i + 1])
  {
    if s != [] {
      assert s[0] != '\\';
      forall i | 0 <= i < |s[1..]|
        ensures s[1..][i] != '\\'
      {
        assert s[1..][i] == s[i + 1];
      }
      EscapeBackslashesAreInserted(s[1..]);
      var head := if IsMarkdownSpecial(s[0]) then ['\\', s[0]] else [s[0]];
      var rest := EscapeMarkdown(s[1..]);
      assert EscapeMarkdown(s) == head + rest;
      forall i | 0 <= i < |head + rest| && (head + rest)[i] == '\\'
        ensures i + 1 < |head + rest| && IsMarkdownSpecial((head + rest)[i + 1])
      {
        if i >= |head| {
          var j := i - |head|;
          assert rest[j] == (head + rest)[i];
          assert j + 1 < |rest| && IsMarkdownSpecial(rest[j + 1]);
          assert (head + rest)[i + 1] == rest[j + 1];
        }
      }
    }
  }

  /** Removing the inserted backslashes gives back a text that had none of its own. */
  lemma {:induction false} EscapeRoundTrip(s: string)
    requires forall i :: 0 <= i < |s| ==> s[i] != '\\'
    ensures Unescape(EscapeMarkdown(s)) == s
  {
    if s != [] {
      EscapeRoundTrip(s[1..]);
      if IsMarkdownSpecial(s[0]) {
        assert EscapeMarkdown(s) == ['\\', s[0]] + EscapeMarkdown(s[1..]);
        assert EscapeMarkdown(s)[2..] == EscapeMarkdown(s[1..]);
      } else {
        assert EscapeMarkdown(s) == [s[0]] + EscapeMarkdown(s[1..]);
        assert EscapeMarkdown(s)[1..] == EscapeMarkdown(s[1..]);
      }
    }
  }
}
