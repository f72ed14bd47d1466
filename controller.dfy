/**
 * The conversation controller: the login and registration state machine driven by
 * the `/start` command, a shared contact, a text message and the `/logout` command.
 * Every handler is one atomic step over the store, the pending codes and the counters;
 * the remote card registry is an oracle and replies are abstract tags.
 */
module Controller {
  import opened UserModel
  import opened Repository
  import opened Service

  /** What `Enterprise.getCardByPhone` yields on success: `[card.code, card.person]`. */
  datatype Card = Card(code: string, person: string)

  /**
   * The remote card registry as seen by the controller: `None` where the call throws.
   * `addNewCard(name, phone, email, telegramId)` yields the new card's code.
   */
  datatype Registry = Registry(
    cardByPhone: string -> Option<Card>,
    addNewCard: (string, string, string, int) -> Option<string>)

  /** The texts of the menu buttons. */
  const BalanceButton := "Баланс"
  const QrCodeButton := "QR-код"
  const HistoryButton := "Последние операции"
  const LogoutButton := "Выйти"

  /** Which reply the handler sends (its text and keyboard are not modelled). */
  datatype Reply =
    | Silent                              // no reply at all
    | AskPhone                            // welcome, share your phone
    | RemindPhone                         // registration not finished, share your phone
    | RemindCode                          // enter the code sent to you
    | Menu                                // you are already authorized, how can I help, with the menu keyboard
    | AlreadyAuthorized                   // the same text as `Menu`, without a keyboard
    | NoPhoneNumber                       // the contact carries no phone number
    | NotAContact                         // a contact was expected
    | NoText                              // the message has no text
    | StartFirst                          // begin with /start
    | CodeSent(newCustomer: bool)         // phone received, code sent (to authorize, or to register)
    | InvalidPhone                        // enter a phone number in international format
    | CodeAccepted(authorized: bool)      // code confirmed: authorized, or enter your name
    | WrongCode(attemptsLeft: int)        // wrong code, attempts left
    | LockedOut                           // too many attempts, start again with the phone
    | AskMail                             // thanks, now enter your e-mail
    | CardCreated                         // registration complete
    | CardFailed                          // registration not complete, try later
    | BalanceRequested                    // balance shown or "could not get balance"
    | QrRequested(hasCard: bool)          // QR photo (or its failure), or "code not found"
    | HistoryRequested(hasCard: bool)     // history (or its failure), or "code not found"
    | LoggedOut                           // logged out
    | NotAuthorized                       // not authorized or already logged out
    | Failure                             // an error occurred, begin with /start

  /** The outcome of one handler: the new state and the reply. */
  datatype Step = Step(world: Sessions, reply: Reply)

  // ---------------------------------------------------------------------------
  // Pure helpers of the controller

  /** `[1-9]\d{1,14}` matching a whole text. */
  predicate NationalNumber(s: string) {
    2 <= |s| <= 15 && '1' <= s[0] <= '9' && forall i :: 1 <= i < |s| ==> IsDigit(s[i])
  }

  /** `/^\+?[1-9]\d{1,14}$/.test(s)`: the optional `+` is tried first, then skipped. */
  predicate IsPhone(s: string) {
    (|s| > 0 && s[0] == '+' && NationalNumber(s[1..])) || NationalNumber(s)
  }

  /** The characters MarkdownV2 reserves, as listed in the character class of `escapeMarkdown`. */
  predicate IsMarkdownSpecial(ch: char) {
    ch in {'_', '*', '[', ']', '(', ')', '~', '`', '>', '#', '+', '-', '=', '|', '{', '}', '.', '!'}
  }

  function SpecialCount(s: string): (r: nat) {
    if s == [] then 0 else (if IsMarkdownSpecial(s[0]) then 1 else 0) + SpecialCount(s[1..])
  }

  /** `text.replace(/[_*[\]()~`>#+\-=|{}.!]/g, "\\$&")`: a backslash before each reserved character. */
  function EscapeMarkdown(s: string): (r: string)
    ensures |r| == |s| + SpecialCount(s)
  {
    if s == [] then []
    else (if IsMarkdownSpecial(s[0]) then ['\\', s[0]] else [s[0]]) + EscapeMarkdown(s[1..])
  }

  /** Drop each backslash and keep the character after it. */
  function Unescape(e: string): (r: string)
    ensures |r| <= |e|
  {
    if e == [] then []
    else if e[0] == '\\' && |e| > 1 then [e[1]] + Unescape(e[2..])
    else [e[0]] + Unescape(e[1..])
  }

  // ---------------------------------------------------------------------------
  // The handlers as functions of the state

  /** `ctx.from?.id` is missing or 0: every handler returns at once. */
  predicate NoSender(from: Option<int>) {
    from.None? || from.value == 0
  }

  /** `handleStart` */
  function Start(w: Sessions, from: Option<int>): (r: Step) {
    if NoSender(from) then Step(w, Silent)
    else
      var id := from.value;
      if id !in w.store.users then
        Step(StateSet(Registered(w, id, "", ""), id, AwaitingPhone), AskPhone)
      else
        Step(w, match w.store.users[id].state
                case AwaitingPhone => RemindPhone
                case AwaitingCode => RemindCode
                case Authorized => Menu
                case _ => Silent)
  }

  /** A phone accepted in `awaiting_phone`, from a contact or typed: look the card up and issue a code. */
  function PhoneAccepted(w: Sessions, id: int, phone: string, reg: Registry, draw: Draw): (r: Step) {
    match reg.cardByPhone(phone)
    case Some(card) =>
      var w1 := CodeSet(Registered(w, id, card.person, phone), id, card.code);
      Step(StateSet(Issued(w1, id, draw), id, AwaitingCode), CodeSent(false))
    case None =>
      Step(StateSet(Registered(Issued(w, id, draw), id, "", phone), id, AwaitingCode), CodeSent(true))
  }

  /** `handleContact`: `contact` is the shared contact's phone number, `None` when the message has no contact. */
  function Contact(w: Sessions, from: Option<int>, contact: Option<string>, reg: Registry, draw: Draw): (r: Step) {
    if NoSender(from) then Step(w, Silent)
    else if contact.None? then Step(w, NotAContact)
    else if contact.value == "" then Step(w, NoPhoneNumber)
    else
      var id := from.value;
      if id in w.store.users && w.store.users[id].state == AwaitingPhone then
        PhoneAccepted(w, id, contact.value, reg, draw)
      else if id in w.store.users && w.store.users[id].state == Authorized then
        Step(w, AlreadyAuthorized)
      else
        Step(w, Silent)
  }

  /** `handleText` for an authorized user: the menu buttons. */
  function MenuStep(w: Sessions, id: int, u: User, msg: string): (r: Step) {
    if msg == BalanceButton then Step(w, BalanceRequested)
    else if msg == QrCodeButton then Step(w, QrRequested(HasCard(u)))
    else if msg == HistoryButton then Step(w, HistoryRequested(HasCard(u)))
    else if msg == LogoutButton then Step(StateSet(w, id, AwaitingPhone), LoggedOut)
    else Step(w, Menu)
  }

  /** `handleText` in `awaiting_code` for the record `u` read at the start. */
  function CodeStep(w: Sessions, id: int, u: User, msg: string): (r: Step) {
    if Accepts(w, id, msg) then
      var w1 := Verified(w, id, msg);
      if HasCard(u) then Step(StateSet(w1, id, Authorized), CodeAccepted(true))
      else Step(AttemptsReset(StateSet(w1, id, AwaitingName), id), CodeAccepted(false))
    else
      var left := AttemptsLeft(w, id);
      var w1 := FailureRecorded(w, id);
      if left > 0 then Step(w1, WrongCode(left))
      else Step(AttemptsReset(StateSet(w1, id, AwaitingPhone), id), LockedOut)
  }

  /** `handleText` in `awaiting_mail`: create the card with the text as e-mail. */
  function MailStep(w: Sessions, id: int, u: User, msg: string, reg: Registry): (r: Step) {
    match reg.addNewCard(u.name, u.phone, msg, u.id)
    case Some(code) => Step(StateSet(CodeSet(w, id, code), id, Authorized), CardCreated)
    case None => Step(Registered(StateSet(w, id, Unauthorized), id, "", ""), CardFailed)
  }

  /** `handleText`: `text` is the message text, `None` when the message has none. */
  function Text(w: Sessions, from: Option<int>, text: Option<string>, reg: Registry, draw: Draw): (r: Step) {
    if NoSender(from) then Step(w, Silent)
    else if text.None? || text.value == "" then Step(w, NoText)
    else if from.value !in w.store.users then Step(w, StartFirst)
    else
      var id := from.value;
      var msg := text.value;
      var u := w.store.users[id];
      match u.state
      case Authorized => MenuStep(w, id, u, msg)
      case AwaitingPhone => if IsPhone(msg) then PhoneAccepted(w, id, msg, reg, draw) else Step(w, InvalidPhone)
      case AwaitingCode => CodeStep(w, id, u, msg)
      case AwaitingName => Step(StateSet(Registered(w, id, msg, u.phone), id, AwaitingMail), AskMail)
      case AwaitingMail => MailStep(w, id, u, msg, reg)
      case Unauthorized => Step(w, Failure)
  }

  /** `handleLogout`: only an authorized user is removed, with its code and counter. */
  function Logout(w: Sessions, from: Option<int>): (r: Step) {
    if NoSender(from) then Step(w, Silent)
    else if from.value !in w.store.users || w.store.users[from.value].state != Authorized then Step(w, NotAuthorized)
    else Step(Dropped(w, from.value), LoggedOut)
  }

  // ---------------------------------------------------------------------------
  // The controller object

  class UserController {
    const service: UserService

    ghost predicate Valid()
      reads this, service, service.repo
    {
      service.Valid()
    }

    constructor (service: UserService)
      requires service.Valid()
      ensures this.service == service && Valid()
    {
      this.service := service;
    }

    method HandleStart(from: Option<int>) returns (reply: Reply)
      requires Valid()
      modifies service.repo
      ensures Valid()
      ensures Step(service.Value(), reply) == Start(old(service.Value()), from)
    {
      if NoSender(from) {
        return Silent;
      }
      var userId := from.value;
      var user := service.GetUserInfo(userId);
      if user.None? {
        service.AddUser(userId, "", "");
        service.UpdateUserState(userId, AwaitingPhone);
        reply := AskPhone;
      } else if user.value.state == AwaitingPhone {
        reply := RemindPhone;
      } else if user.value.state == AwaitingCode {
        reply := RemindCode;
      } else if user.value.state == Authorized {
        reply := Menu;
      } else {
        reply := Silent;
      }
    }

    /** The shared phone step of `handleContact` and `handleText`. */
    method AcceptPhone(userId: int, phone: string, reg: Registry, draw: Draw) returns (reply: Reply)
      requires Valid()
      modifies service, service.repo
      ensures Valid()
      ensures Step(service.Value(), reply) == PhoneAccepted(old(service.Value()), userId, phone, reg, draw)
    {
      var tempUser := reg.cardByPhone(phone);
      if tempUser.Some? {
        service.AddUser(userId, tempUser.value.person, phone);
        service.UpdateUserCode(userId, tempUser.value.code);
        var code := service.GenerateVerificationCode(userId, draw);
        service.UpdateUserState(userId, AwaitingCode);
        reply := CodeSent(false);
      } else {
        var code := service.GenerateVerificationCode(userId, draw);
        service.AddUser(userId, "", phone);
        service.UpdateUserState(userId, AwaitingCode);
        reply := CodeSent(true);
      }
    }

    method HandleContact(from: Option<int>, contact: Option<string>, reg: Registry, draw: Draw) returns (reply: Reply)
      requires Valid()
      modifies service, service.repo
      ensures Valid()
      ensures Step(service.Value(), reply) == Contact(old(service.Value()), from, contact, reg, draw)
    {
      if NoSender(from) {
        return Silent;
      }
      var userId := from.value;
      if contact.None? {
        return NotAContact;
      }
      if contact.value == "" {
        return NoPhoneNumber;
      }
      var user := service.GetUserInfo(userId);
      if user.Some? && user.value.state == AwaitingPhone {
        reply := AcceptPhone(userId, contact.value, reg, draw);
      } else if user.Some? && user.value.state == Authorized {
        reply := AlreadyAuthorized;
      } else {
        reply := Silent;
      }
    }

    method HandleText(from: Option<int>, text: Option<string>, reg: Registry, draw: Draw) returns (reply: Reply)
      requires Valid()
      modifies service, service.repo
      ensures Valid()
      ensures Step(service.Value(), reply) == Text(old(service.Value()), from, text, reg, draw)
    {
      if NoSender(from) {
        return Silent;
      }
      var userId := from.value;
      if text.None? || text.value == "" {
        return NoText;
      }
      var messageText := text.value;
      var found := service.GetUserInfo(userId);
      if found.None? {
        return StartFirst;
      }
      var user := found.value;
      if user.state == Authorized {
        if messageText == BalanceButton {
          reply := BalanceRequested;
        } else if messageText == QrCodeButton {
          reply := QrRequested(HasCard(user));
        } else if messageText == HistoryButton {
          reply := HistoryRequested(HasCard(user));
        } else if messageText == LogoutButton {
          service.UpdateUserState(userId, AwaitingPhone);
          reply := LoggedOut;
        } else {
          reply := Menu;
        }
        return;
      }
      if user.state == AwaitingPhone {
        if IsPhone(messageText) {
          reply := AcceptPhone(userId, messageText, reg, draw);
        } else {
          reply := InvalidPhone;
        }
      } else if user.state == AwaitingCode {
        var isCodeValid := service.VerifyCode(userId, messageText);
        if isCodeValid {
          if HasCard(user) {
            service.UpdateUserState(userId, Authorized);
            reply := CodeAccepted(true);
          } else {
            service.UpdateUserState(userId, AwaitingName);
            service.ResetFailedAttempts(userId);
            reply := CodeAccepted(false);
          }
        } else {
          var attemptsLeft := service.IncrementFailedAttempts(userId);
          if attemptsLeft > 0 {
            reply := WrongCode(attemptsLeft);
          } else {
            service.UpdateUserState(userId, AwaitingPhone);
            service.ResetFailedAttempts(userId);
            reply := LockedOut;
          }
        }
      } else if user.state == AwaitingName {
        service.AddUser(userId, messageText, user.phone);
        service.UpdateUserState(userId, AwaitingMail);
        reply := AskMail;
      } else if user.state == AwaitingMail {
        var regUser := reg.addNewCard(user.name, user.phone, messageText, user.id);
        if regUser.Some? {
          service.UpdateUserCode(userId, regUser.value);
          service.UpdateUserState(userId, Authorized);
          reply := CardCreated;
        } else {
          service.UpdateUserState(userId, Unauthorized);
          service.AddUser(userId, "", "");
          reply := CardFailed;
        }
      } else {
        reply := Failure;
      }
    }

    method HandleLogout(from: Option<int>) returns (reply: Reply)
      requires Valid()
      modifies service, service.repo
      ensures Valid()
      ensures Step(service.Value(), reply) == Logout(old(service.Value()), from)
    {
      if NoSender(from) {
        return Silent;
      }
      var userId := from.value;
      var user := service.GetUserInfo(userId);
      if user.None? || user.value.state != Authorized {
        return NotAuthorized;
      }
      service.RemoveUser(userId);
      reply := LoggedOut;
    }
  }
}
