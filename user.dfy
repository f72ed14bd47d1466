/** The user record shared by the store, the session service and the controller. */
module UserModel {

  datatype Option<T> = None | Some(value: T) {
    function GetOr(default: T): (r: T) {
      match this
      case Some(v) => v
      case None => default
    }
  }

  /** The conversation states the controller writes into a record. */
  datatype State =
    | Unauthorized
    | AwaitingPhone
    | AwaitingCode
    | AwaitingName
    | AwaitingMail
    | Authorized

  /** A chat user: `code` is the loyalty-card code, absent until a card is linked. */
  datatype User = User(id: int, name: string, phone: string, state: State, code: Option<string>)

  /** The truthiness test `if (user.code)`: an absent code and the empty string are both false. */
  predicate HasCard(u: User) {
    u.code.Some? && u.code.value != ""
  }
}
