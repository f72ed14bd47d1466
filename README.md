# Loyalty-card chat bot: user store, sessions and the login flow

This project models the core of a Telegram bot that lets the customers of a shop link their
loyalty card. The bot keeps every chat user in an in-memory store keyed by Telegram id
(`UserRepository`). A session service (`UserService`) adds two maps of its own: the pending
six-digit one-time code of each user and a failed-attempt counter. A conversation controller
(`UserController`) moves each user through the states `unauthorized`, `awaiting_phone`,
`awaiting_code`, `awaiting_name`, `awaiting_mail` and `authorized`:

- `/start` creates the record;
- a phone (shared as a contact or typed) is looked up in the remote card registry, and a code
  is issued;
- the code either authorizes a known card holder or leads a new customer through name and
  e-mail to a newly created card;
- `/logout` forgets an authorized user.

A few local helpers of the registry client (`Enterprise`) are modelled too: random hex text and
GUIDs, the server's home URL and the pivot of a registry table answer.

Files, leaf first:

- `user.dfy` (module `UserModel`): the `User` record, its states, and the truthiness of its
  card code.
- `repository.dfy` (module `Repository`): the store as a value `Store` (the map and the
  insertion order of its keys) with one function per operation and lemmas about them. The
  class `UserRepository` holds the map and the order as fields; each of its methods is proved
  to produce the function's new state.
- `service.dfy` (module `Service`): the same pattern for the session service, over the value
  `Sessions` (store, pending codes, counters), with the class `UserService`.
- `controller.dfy` (module `Controller`): each handler as a function from the old `Sessions` to a
  `Step` (new state and reply tag), and the class `UserController`. Each handler method is proved
  to produce exactly that `Step` by calling the service's methods in the order the source does.
- `controller_props.dfy` (module `ControllerProps`) contains the properties of the flow:
  - every handler keeps the store invariant and touches only its own user, except that storing
    a card code removes the record of the user who held that code before;
  - the transition table;
  - bounded retries: every handler keeps the failure counters below the lockout bound;
  - multi-event runs: the lockout after three wrong codes, and a returning and a new customer.
- `enterprise.dfy` (module `Enterprise`): the card-registry client's local helpers.

The store invariant (`Repository.WellFormed` and `Repository.CodeInjective`, together
`Service.Inv`) says three things:
- every record is stored under its own id;
- the insertion order lists each key once;
- no two records hold the same card code.

A second invariant, `ControllerProps.CountersBounded`, bounds the retries: every stored failure
counter lies between 1 and 2. Every handler keeps it, so in any state the handlers reach from empty counters a user in
`awaiting_code` is locked out by the third wrong code or earlier.

Environment and external inputs are parameters:
- `Math.random` becomes a `Draw` (0..899999) for the one-time code, or a sequence of `Nibble`
  draws (0..15) for hex text;
- `process.env` is a `map<string, string>`;
- the card registry is a `Registry` value whose two functions return `None` where the remote
  call throws.

The code, and so the model, behaves as follows in places a reader might expect otherwise:
- names and e-mail addresses are not validated;
- there is no "resend code" or "change phone" control, and no reminder timer;
- the "Выйти" button only sets `awaiting_phone` and keeps name, phone and card code (only
  `/logout` removes the record);
- a correct code for a user who already has a card does not reset the failed-attempt counter;
- lockout keeps the pending code;
- a failed card lookup keeps an old card code;
- `unauthorized`, entered after a failed card creation, is left by no handler.

## Model

| member | source | states |
|---|---|---|
| Repository.FirstHolder | src/repository/UserRepository.ts:29 | a listed record whose code is `c`; None exactly when no listed record holds `c` |
| Repository.FirstHolderIsFirst | src/repository/UserRepository.ts:29 | the record found sits at a position of the insertion order before which no record holds `c`: `find` stops at the first match |
| Repository.FirstHolderUnique | src/repository/UserRepository.ts:29 | under code injectivity the record `find` returns is the only holder of the code, and it is found iff some record holds it |
| Repository.AddedSpec | src/repository/UserRepository.ts:7-15 | after `addUser(u)`, `findUserById(u.id)` gives `u`, replacing any earlier record; every other lookup is unchanged; ids stay keys |
| Repository.StateUpdatedSpec | src/repository/UserRepository.ts:21-27 | no-op for an absent id; otherwise only that record's state changes; the invariant is kept |
| Repository.CodeUpdatedSpec | src/repository/UserRepository.ts:28-42 | afterwards no record but `id` holds `c`; `id` (if present) has code `c` and is otherwise unchanged; the only record removed is the previous holder of `c`, also when `id` is absent; all other records are untouched; codes stay injective |
| Repository.RemovedSpec | src/repository/UserRepository.ts:44-46 | deletes key `id` and nothing else; keeps the invariant and code injectivity |
| Repository.UpdatedSpec | src/repository/UserRepository.ts:48-60 | no-op for an absent id; same id merges the patch in place; a new id drops the old key and stores the merged record, carrying the new id, under the new key, replacing what was there; a patch without a code keeps injectivity |
| Repository.DistinctCardinality | src/repository/UserRepository.ts:4 | a key order without repeats has as many distinct keys as entries (the Map holds each key once) |
| Repository.UserRepository.AddUser | src/repository/UserRepository.ts:7-10 | the new state is `Added` of the old one; invariant kept |
| Repository.UserRepository.FindUserById | src/repository/UserRepository.ts:12-15 | returns a record iff the id is a key, and then the stored record, whose id is the key |
| Repository.UserRepository.GetAllUsers | src/repository/UserRepository.ts:17-19 | one value per key, in insertion order, exactly the stored values |
| Repository.UserRepository.UpdateUserState | src/repository/UserRepository.ts:21-27 | the new state is `StateUpdated` of the old one; invariant kept |
| Repository.UserRepository.UpdateUserCode | src/repository/UserRepository.ts:28-42 | the scan finds the first holder in insertion order; the new state is `CodeUpdated` of the old one |
| Repository.UserRepository.RemoveUser | src/repository/UserRepository.ts:44-46 | the new state is `Removed` of the old one |
| Repository.UserRepository.UpdateUser | src/repository/UserRepository.ts:48-60 | the new state is `Updated` of the old one, re-keying included |
| Service.IssuedCodeShape | src/service/UserService.ts:35 | every issued code is six decimal digits, the first not `0`, denoting a number in 100000..999999 |
| Service.DecimalRoundTrip | src/service/UserService.ts:35 | the decimal text of a number is all digits and reads back as the number |
| Service.RegisteredSpec | src/service/UserService.ts:9-16 | an absent id gets `{id, name, phone, unauthorized}` without a code; an existing one changes only name and phone; codes and counters untouched; invariant kept |
| Service.StateSetSpec | src/service/UserService.ts:22-29 | `getUserState` after `updateUserState(id, s)` gives `s` for an existing id and nothing for an absent one; only that record changes |
| Service.CodeSetInv | src/service/UserService.ts:30-32 | `updateUserCode` keeps ids as keys and codes injective |
| Service.IssuedSpec | src/service/UserService.ts:34-38 | the issued six-digit code is the only pending code of the user, replacing an earlier one; other users' codes unchanged |
| Service.VerifySingleUse | src/service/UserService.ts:41-46 | a matched code is deleted, so the same value is refused next time |
| Service.VerifyRefusedKeepsCodes | src/service/UserService.ts:41-48 | a refused candidate changes nothing and every pending code is still accepted |
| Service.FailuresCount | src/service/UserService.ts:49-59 | after a reset, `n` failures leave the counter at `n`; other counters, the store and the codes are unchanged |
| Service.AttemptsLeftAfterReset | src/service/UserService.ts:51-63 | the (n+1)-th increment after a reset returns `3 - (n + 1)`: 2, 1, 0, then negative, uncapped |
| Service.DroppedSpec | src/service/UserService.ts:64-73 | removes the record, the pending code and the counter of `id`, nothing else; invariant kept |
| Service.UserService.AddUser | src/service/UserService.ts:9-16 | the new state is `Registered` of the old one |
| Service.UserService.GetUserInfo | src/service/UserService.ts:18-20 | returns the stored record iff the id is a key |
| Service.UserService.UpdateUserState | src/service/UserService.ts:22-24 | the new state is `StateSet` of the old one |
| Service.UserService.GetUserState | src/service/UserService.ts:26-29 | returns the stored state iff the id is a key, `undefined` (None) otherwise |
| Service.UserService.UpdateUserCode | src/service/UserService.ts:30-32 | the new state is `CodeSet` of the old one |
| Service.UserService.GenerateVerificationCode | src/service/UserService.ts:34-38 | returns the code it stores as pending, six characters in 100000..999999; the new state is `Issued` |
| Service.UserService.VerifyCode | src/service/UserService.ts:41-48 | returns true iff a pending code equals the candidate; the new state is `Verified` |
| Service.UserService.IncrementFailedAttempts | src/service/UserService.ts:49-59 | returns `3 - (count + 1)`, with a missing or zero counter read as 0; the new state is `FailureRecorded` |
| Service.UserService.ResetFailedAttempts | src/service/UserService.ts:61-63 | deletes the user's counter and nothing else |
| Service.UserService.RemoveUser | src/service/UserService.ts:64-73 | the new state is `Dropped` of the old one |
| Controller.EscapeMarkdown | src/controller/userController.ts:193-195 | output length is input length plus the number of MarkdownV2 reserved characters |
| Controller.UserController.HandleStart | src/controller/userController.ts:57-82 | the new state and reply are those of `Start` |
| Controller.UserController.AcceptPhone | src/controller/userController.ts:97-124 | the card lookup and code issue the source runs for a contact and for a typed phone, in its order; result is `PhoneAccepted` |
| Controller.UserController.HandleContact | src/controller/userController.ts:84-134 | the new state and reply are those of `Contact` |
| Controller.UserController.HandleText | src/controller/userController.ts:136-340 | the new state and reply are those of `Text` |
| Controller.UserController.HandleLogout | src/controller/userController.ts:342-360 | the new state and reply are those of `Logout` |
| ControllerProps.PhoneAcceptedSpec | src/controller/userController.ts:95-124 | a found card stores the registry's name, the phone and the card code, with no other holder of that code; a failed lookup stores the phone, blanks the name and keeps an old code; both issue one code and move to `awaiting_code`; counters untouched; no other user changes, except that the previous holder of a found card code is removed |
| ControllerProps.CodeStepSpec | src/controller/userController.ts:265-302 | a correct code is used up: with a card the user is authorized and the counter kept, without one `awaiting_name` with the counter reset; a wrong code keeps every pending code, counts a failure and stays in `awaiting_code` while attempts are left, else `awaiting_phone` with the counter cleared |
| ControllerProps.MailStepSpec | src/controller/userController.ts:309-325 | a created card stores its code (no other holder left) and authorizes; a failed creation sets `unauthorized`, blank name and phone, old code kept |
| ControllerProps.StartKeeps | src/controller/userController.ts:57-82 | `handleStart` keeps the invariant, does nothing without a sender, and touches only the sender |
| ControllerProps.ContactKeeps | src/controller/userController.ts:84-134 | `handleContact` keeps the invariant and touches only the sender, apart from evicting the old holder of a card code |
| ControllerProps.TextKeeps | src/controller/userController.ts:136-340 | `handleText` keeps the invariant and touches only the sender, apart from evicting the old holder of a card code |
| ControllerProps.TextStepKeeps | src/controller/userController.ts:155-339 | for a known sender and a non-empty text, each state's branch keeps the invariant and touches only the sender, apart from evicting the old holder of a card code |
| ControllerProps.MenuKeeps | src/controller/userController.ts:155-227 | the authorized menu keeps the invariant and touches only the sender |
| ControllerProps.NameKeeps | src/controller/userController.ts:303-308 | the name step keeps the invariant and touches only the sender |
| ControllerProps.LogoutKeeps | src/controller/userController.ts:342-360 | `handleLogout` keeps the invariant and touches only the sender |
| ControllerProps.StartTransition | src/controller/userController.ts:62-81 | an unknown id gets `{id, "", "", awaiting_phone}` without a code, nothing else changes; a known id changes nothing |
| ControllerProps.PhoneGate | src/controller/userController.ts:230-264 | in `awaiting_phone` a text is refused iff it fails the phone pattern, and a refused text changes nothing; an accepted one stores the phone, issues a code and moves to `awaiting_code` |
| ControllerProps.ContactTransition | src/controller/userController.ts:95-124 | a shared contact in `awaiting_phone` is taken without the pattern and moves to `awaiting_code` with a new code |
| ControllerProps.NameTransition | src/controller/userController.ts:303-308 | any text in `awaiting_name` becomes the name, phone kept, state `awaiting_mail`, nothing else changes |
| ControllerProps.AuthorizedMenu | src/controller/userController.ts:155-227 | for an authorized user every text but "Выйти" changes nothing; "Выйти" sets `awaiting_phone` and keeps name, phone and code |
| ControllerProps.LogoutTransition | src/controller/userController.ts:342-360 | `/logout` of an authorized user removes record, code and counter; otherwise nothing changes |
| ControllerProps.UnauthorizedIsStuck | src/controller/userController.ts:57-360 | no handler changes anything for a user in `unauthorized` |
| ControllerProps.CodeStepKeepsCounters | src/controller/userController.ts:265-302 | the code step keeps every failure counter in 1..2: a count that reaches 3 clears the counter and locks out instead |
| ControllerProps.StartKeepsCounters | src/controller/userController.ts:57-82 | `handleStart` keeps every failure counter in 1..2 |
| ControllerProps.ContactKeepsCounters | src/controller/userController.ts:84-134 | `handleContact` keeps every failure counter in 1..2 |
| ControllerProps.TextKeepsCounters | src/controller/userController.ts:136-340 | `handleText` keeps every failure counter in 1..2 |
| ControllerProps.LogoutKeepsCounters | src/controller/userController.ts:342-360 | `handleLogout` keeps every failure counter in 1..2 |
| ControllerProps.WrongCodeCounts | src/controller/userController.ts:285-301 | a wrong code in `awaiting_code` locks out, or counts one failure with store and pending codes unchanged, and only while the new count is below 3 |
| ControllerProps.LockoutWithinThreeWrongCodes | src/controller/userController.ts:265-302 | with bounded counters, whatever the current count, one of three consecutive wrong codes is answered with the lockout |
| ControllerProps.LockoutAfterThreeWrongCodes | src/controller/userController.ts:285-301 | three wrong codes from a clean counter answer 2 left, 1 left, then lock out to `awaiting_phone` with the counter cleared and the pending code still there |
| ControllerProps.WrongThenRightCode | src/controller/userController.ts:266-301 | a wrong attempt does not spoil the pending code: the right one is accepted next |
| ControllerProps.CardHolderLogsOut | src/controller/userController.ts:268-273 | a card holder's correct code authorizes them and "Выйти" sends them back to the phone prompt, with the failure counts exactly as before |
| ControllerProps.OneWrongCodeLocksOut | src/controller/userController.ts:285-301 | a user at the phone prompt with two recorded failures who sends a valid phone and then a wrong code is locked out and back at the phone prompt |
| ControllerProps.CardHolderCounterCarriesOver | src/controller/userController.ts:268-301 | a card holder's correct code leaves the counter as it was: after two wrong codes, the right one, "Выйти" and the phone again, one wrong code locks the user out |
| ControllerProps.NewCustomerUpToMail | src/controller/userController.ts:62-308 | `/start`, an unknown phone, the issued code and a name lead to `awaiting_mail` with that name and phone and no card |
| ControllerProps.NewCustomerScenario | src/controller/userController.ts:62-325 | the same run, then an e-mail for which a card is created, ends authorized with exactly that name, phone and card code |
| ControllerProps.ReturningCustomerScenario | src/controller/userController.ts:62-284 | a phone the registry knows leads from the code straight to `authorized` with the registry's name and card code |
| ControllerProps.PhonePatternMeaning | src/controller/userController.ts:232 | the pattern accepts exactly an optional `+` and 2 to 15 digits, the first not `0` (the ITU-T E.164 limit) |
| ControllerProps.EscapeAppend | src/controller/userController.ts:193-195 | the global replace works character by character: escaping a concatenation concatenates the escapes |
| ControllerProps.EscapedSpecialsArePreceded | src/controller/userController.ts:193-195 | every MarkdownV2 reserved character of the output has a backslash immediately before it |
| ControllerProps.EscapeBackslashesAreInserted | src/controller/userController.ts:193-195 | for text without backslashes, every backslash of the output is followed by a reserved character |
| ControllerProps.EscapeRoundTrip | src/controller/userController.ts:193-195 | dropping the inserted backslashes gives back any text that had no backslash of its own |
| Enterprise.HexDigit | src/class/1cServer.ts:29 | the digit's character is in `0-9a-f` and reads back as the digit |
| Enterprise.RandomHex | src/class/1cServer.ts:27-31 | exactly `length` characters, each in `0-9a-f`, the i-th denoting the i-th draw |
| Enterprise.RemoveHyphens | src/class/1cServer.ts:24 | the result has no `-` and is no longer than the input; hyphen-free text is unchanged |
| Enterprise.RemoveHyphensAppend | src/class/1cServer.ts:24 | removing hyphens distributes over concatenation |
| Enterprise.GuidShape | src/class/1cServer.ts:21-25 | the default GUID is 36 characters, `-` at 8, 13, 18 and 23, hex everywhere else |
| Enterprise.GuidCompact | src/class/1cServer.ts:21-25 | `generateGUID(true)` is the default GUID without hyphens and equals the 32 draws as hex text, from which the draws read back |
| Enterprise.BlocksAreRandomHex | src/class/1cServer.ts:22 | the eight `randomHex(4)` calls side by side are the hex text of all 32 draws |
| Enterprise.Host | src/class/1cServer.ts:40 | `HOST` when set and non-empty, `localhost` otherwise |
| Enterprise.HomeURLSpec | src/class/1cServer.ts:38-42 | `https://` iff `HTTPS` is `"true"`, `http://` otherwise; the host follows; a trailing `/` when `useSlash`; without it the URL ends in `/` only when the host does |
| Enterprise.Prop | src/class/1cServer.ts:115-119 | reading a row property: its own `number` and `key`, else the value of that other property, `undefined` (None) when absent |
| Enterprise.Parse | src/class/1cServer.ts:101-129 | the two loops compute `ParseOf`; fails (the source throws) iff some data row names a key no key row declared; `hierarchical` and `total` are copied |
| Enterprise.ColumnsOfDomain | src/class/1cServer.ts:105-112 | a column exists exactly for each key some key row names |
| Enterprise.ColumnsOfEntry | src/class/1cServer.ts:105-112 | a column holds the last key row with its key: a repeated key keeps the last row |
| Enterprise.TableFails | src/class/1cServer.ts:114-121 | the pivot fails iff some data row's key is not a column |
| Enterprise.FilledSpec | src/class/1cServer.ts:117-120 | filling one cell adds exactly that cell and keeps every other cell of the row and of the table |
| Enterprise.TableOfDomain | src/class/1cServer.ts:114-121 | row `n` has a cell `f` iff some data row carries number `n` and key `f` |
| Enterprise.TableOfCell | src/class/1cServer.ts:114-121 | that cell holds the property named by `f`'s column type, read from the last row with number `n` and key `f` |

## Left out

- Network I/O. The SOAP client and every remote registry call (`init`, `ping`, `getCardByPhone`,
  `getBalanceByPhone`, `getHistory`, `addNewCard`, `updateCardDetailsByPhone`) are outside the
  model. The controller sees `getCardByPhone` and `addNewCard` only as the `Registry` oracle.
  For the balance button, a successful `getBalanceByPhone` and a failed one give the same tag.
- `updateCardDetailsByPhone` after a card holder's correct code is awaited, but its result is
  unused and its errors are swallowed; it changes no store, so it is not modelled.
- Console logging. The one-time code is written only to the server console
  (src/controller/userController.ts:104, 117, 242, 254); the bot never sends it to the user, although
  the reply says it was sent. Logging is output only and is not modelled; the issued code is
  the value `Sessions.codes` holds.
- A registry that resolves with a falsy value. `Registry` results are `Some` (success) or `None`
  (the call throws or returns nothing). A successful `addNewCard` that returns `undefined`, and
  a card with an undefined name or code, are not modelled.
- The Telegram transport. Reply texts, keyboards, photos, Markdown messages and date
  formatting are not modelled; a reply is an abstract `Reply` tag.
- A reply that throws. A `ctx.reply` that throws inside a `try` would send the phone and e-mail
  steps into their `catch` branches after part of the state change; each handler is one atomic
  step instead.
- Async interleaving: two handlers of the same user interleaving at an `await` is not modelled.
- The `getQRCard` file cache (base64 file, `fs` calls, the 120-second deletion timer), the
  Express routes, `src/main.ts` and `src/example/example.controller.ts` are not part of this
  model.
- `Math.random` is floating point. The one-time code is `100000 + draw` for an integer draw
  0..899999; a hex digit is a draw 0..15.
- JavaScript object aliasing. Records are values: `updateUserState` and `updateUserCode`
  mutating the stored object in place is modelled as storing the changed record under the
  same key, which leaves the Map's insertion order as the in-place update does.
- A patch field given explicitly as `undefined`: `Patch` fields are `None` when not given and
  then keep the old value.
- Prototype properties and property order of the `columns`, `table` and row objects in
  `parse` are not modelled. Keys, types and property values are strings, and a cell read from
  an absent property is `None`.
- Controller.EscapeMarkdown: a backslash in the input is not escaped (the source's character
  class has none), so `ControllerProps.EscapeRoundTrip` is stated for backslash-free text only.
- The `authorized` branch at src/controller/userController.ts:326-336 is unreachable, because
  the `authorized` switch at lines 155-227 returns first. The model has no such branch.
- `Number.toString()` is modelled as `Service.DecimalString` on non-negative integers only,
  which is all the code issues.
