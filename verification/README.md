# Patterns and frameworks in web: a verified model

This project models, in Dafny, the core logic of the JavaScript exercises in
the repository `patterns-and-frameworks-in-web`. The main part is the
role-gated user directory of `2/1/index.js`:

- users with a private password, a warning counter and a mute deadline;
- the four role classes `User`, `Admin`, `Moderator` and `SuperAdmin`;
- the storage codec (`serialize`, `hydrateFromSerialized`, `deserialize`);
- the capability checks `canModerate` / `canAdmin` and the button rules of
  `updateActionAvailability`;
- the `UserDataBase` store: upsert by id, search by criteria, soft delete;
- the duration formatter `fmtMs`.

The smaller exercises are modelled beside it:

- `3/index.js`: the user factory, the singleton logger and the user manager;
- `5/3/index.js`: chat rooms as observer sets behind a chat mediator;
- `5/2/index.js`: the team mediator with targeted send and broadcast;
- `5/1/index.js`: the weather station, an observer list with duplicates;
- `2/2/refactoring.js`: `Money`, the item factory and the order total;
- `4/3/index.js`: the currency-rate normaliser;
- `4/1/index.js`: the "lat,lng" parser;
- `4/2/index.js`: the notifier decorator chain and its log;
- `generate-codepen.js`: picking the one file with an extension,
  extracting the HTML body, and escaping the form payload.

Objects whose fields the source changes in place are Dafny classes. Each
method's `ensures` ties the new state to a pure function, and lemmas prove
what the source promises about that function. Values that never change after
construction (3/index.js users, `Money`, items, rates, positions) are
datatypes.

Time (`Date.now()`), fresh ids (`crypto.randomUUID()`), log timestamps and
`path.join` are parameters. JavaScript's `Number(...)` and `String(...)` are
function-typed parameters (`JsValues.ToNumber`, `JsValues.ToStr`), so the
proofs hold for any conversion.

A SuperAdmin is a subclass of Admin (`class SuperAdmin extends Admin`,
2/1/index.js:148), but the page's `canModerate` (2/1/index.js:297) accepts
only a Moderator. So a SuperAdmin can reset passwords and delete users but
cannot warn or mute (`Panel.AuthorizationMatrix`,
`Roles.CapabilitiesDisjoint`).

Also modelled as written: `DeleteUser("")` becomes the criteria `{id: ""}`. An
empty id is falsy, so no id filter applies and every record is soft-deleted
(`Directory.DeleteByEmptyIdSelectsAll`).

Files: `wrappers.dfy` (Option, Result), `text.dfy` (string built-ins),
`seqs.dfy` (indexOf / splice), `jsvalues.dfy`; for 2/1: `roles.dfy`,
`accounts.dfy`, `codec.dfy`, `user_entity.dfy`, `directory.dfy`, `panel.dfy`;
then `factory.dfy` (3), `chat.dfy` (5/3), `mediator.dfy` (5/2),
`weather.dfy` (5/1), `money.dfy` (2/2), `currency.dfy` (4/3), `geo.dfy`
(4/1), `notifier.dfy` (4/2) and `codepen.dfy`.

## Model

| member | source | states |
|---|---|---|
| Text.Lower | 3/index.js:65 | `toLowerCase` keeps the length and lower-cases each ASCII letter, leaving every other character alone |
| Text.Trim | 4/3/index.js:4 | the result of `trim()` neither starts nor ends with white space |
| Text.TrimSpec | 4/3/index.js:4 | `trim()` yields an infix of the input with nothing but white space cut before and after it |
| Text.SplitSpec | 4/3/index.js:5 | `split(sep)` gives one more piece than there are separators; no piece holds the separator; joining the pieces gives the input back |
| Text.SplitWs | 4/3/index.js:11 | `split(/\s+/)` yields at least one piece |
| Text.SplitWsSpec | 4/3/index.js:11 | `split(/\s+/)` cuts at the maximal runs of white space: one more piece than runs, every run non-empty white space, no piece holds white space, pieces and runs interleaved give the input back, only the first and last piece can be empty, and each is empty exactly when the input starts or ends with white space |
| Text.SplitWsTwo | 4/3/index.js:11 | two words around one run of white space split into exactly those two words |
| Roles.RoleOfTag | 2/1/index.js:95-104 | the class `deserialize` builds is the role whose tag was stored, or plain User |
| Roles.TagRoundTrip | 2/1/index.js:1-6 | decoding a role's own tag gives that role back, so the four tags are distinct |
| Roles.UnknownTagIsUser | 2/1/index.js:101-104 | a missing tag or any tag other than the four names falls back to User |
| Roles.CapabilitiesDisjoint | 2/1/index.js:297-298 | no actor can both moderate and administer; a plain User or a missing actor can do neither; a SuperAdmin administers but cannot moderate |
| Accounts.ClampDuration | 2/1/index.js:56 | `Math.max(0, d)`: never below `d` or 0, equal to `d` when `d` is non-negative |
| Accounts.SetPasswordAsSpec | 2/1/index.js:41-48 | the password changes and `true` is returned exactly for an Admin or SuperAdmin requester; any other or missing requester gets `false` and changes nothing |
| Accounts.ResetThenCheck | 2/1/index.js:33-48 | after a successful reset only the new password checks, after a refused one only the old one |
| Accounts.AddWarningsCount | 2/1/index.js:50-53 | `n` calls of `addWarning` raise the count by exactly `n` and change nothing else |
| Accounts.FreshUserWarnings | 2/1/index.js:18-27 | a freshly built user warned `n` times has exactly `n` warnings |
| Accounts.MuteSpec | 2/1/index.js:55-72 | the deadline is `now + max(0, d)`, never before `now`; a positive duration mutes at once; the remaining time is the clamped duration; the user is unmuted from the deadline on; only the deadline changes |
| Accounts.MutedIffRemaining | 2/1/index.js:65-72 | `isMuted` holds exactly when time remains, and then `now` plus the remaining time is the deadline |
| Accounts.SoftDeleteIdempotent | 2/1/index.js:122-126 | delete always leaves the flag set and reports `true` only for a live target; a second delete changes nothing and reports `false` |
| UserEntity.User.constructor | 2/1/index.js:18-27 | a new user of any role is live, with no warnings, no mute and the given fields |
| UserEntity.User.CheckPassword | 2/1/index.js:33-35 | exact equality with the stored password |
| UserEntity.User.SetPasswordAs | 2/1/index.js:41-48 | the new state and result are those of `Accounts.SetPasswordAs` on the requester's role |
| UserEntity.User.AddWarning | 2/1/index.js:50-53 | one more warning, returned; nothing else changes |
| UserEntity.User.Mute | 2/1/index.js:55-59 | the deadline becomes `now + max(0, d)` and is returned, never before `now` |
| UserEntity.User.IsMuted | 2/1/index.js:65-67 | muted exactly when `now` is before the deadline |
| UserEntity.User.GetMuteRemainingMs | 2/1/index.js:69-72 | `max(0, deadline - now)`, positive exactly while muted |
| UserEntity.User.HydrateFromSerialized | 2/1/index.js:87-93 | the new state is `Codec.Hydrate` of the old one: the id is kept unless the record has a non-empty one; flag, password, warnings and deadline are replaced |
| UserEntity.User.Deserialize | 2/1/index.js:95-113 | a fresh object whose state is `Codec.Deserialize` of the record |
| UserEntity.User.DeleteUser | 2/1/index.js:122-126 | an admin's delete is `Accounts.SoftDelete` on the target |
| UserEntity.User.ResetPassword | 2/1/index.js:128-130 | an admin's reset always succeeds and changes only the target's password |
| UserEntity.User.WarnUser | 2/1/index.js:139-141 | a moderator's warning adds one to the target's count and returns it |
| UserEntity.User.MuteUser | 2/1/index.js:143-145 | a moderator's mute sets the target's deadline as `mute` does and returns it |
| UserEntity.User.CreateAdmin | 2/1/index.js:154-156 | a SuperAdmin builds a fresh, live Admin with the given fields |
| Codec.OrElse | 2/1/index.js:97-99 | `v \|\| fallback` on a string is the fallback or the non-empty stored value |
| Codec.RoundTrip | 2/1/index.js:74-113 | deserializing a serialized user restores every field, for every role, whatever fresh id is drawn |
| Codec.DeserializeRole | 2/1/index.js:95-104 | the deserialized role is the one the tag names, and User for a missing or unknown tag |
| Codec.DeserializeId | 2/1/index.js:88 | the stored id wins when it is non-empty; otherwise the fresh id stays |
| Codec.DeserializeNormalises | 2/1/index.js:74-113 | serializing a deserialized record and deserializing again changes nothing |
| Panel.AuthorizationMatrix | 2/1/index.js:362-373 | on a live target: warn and mute are enabled exactly for a Moderator, delete exactly for an Admin or SuperAdmin, reset also needs a new password |
| Panel.NothingOnDeletedOrMissing | 2/1/index.js:365-366 | with no actor, no target or a deleted target, none of warn, mute, reset and delete is enabled |
| Panel.CheckAvailability | 2/1/index.js:367-372 | password check is enabled exactly for a target and a non-empty input, when the actor is the target or is an admin and the target is live |
| Panel.CeilDivSpec | 2/1/index.js:307-308 | `Math.ceil(n / d)` is the least count of `d`s that covers `n` |
| Panel.FmtMs | 2/1/index.js:306-310 | minutes (rounded up) from one minute, seconds (rounded up) from one second, else the milliseconds as they are |
| Panel.FmtMsBounds | 2/1/index.js:306-310 | at least one minute is shown in minutes; one to sixty seconds are shown in seconds |
| Panel.Duration.Text | 2/1/index.js:307-309 | the printed amount comes first, followed by a space |
| Panel.FmtMsText | 2/1/index.js:306-310 | the text is `Math.ceil(ms / 60000)` followed by " хв", `Math.ceil(ms / 1000)` followed by " с", or `ms` followed by " мс" |
| Panel.TextInjective | 2/1/index.js:307-309 | two durations with the same text are the same duration: the amount and the unit can be read back from the text |
| Text.IntToString | 2/1/index.js:307-309 | `${i}` is non-empty, ends in a digit and starts with `-` exactly for a negative number |
| Text.NatToStringRoundTrip | 2/1/index.js:307-309 | the printed digits of a natural number are all digits and read back as that number |
| Text.IntToStringRoundTrip | 2/1/index.js:307-309 | `${i}` parses back to `i` and holds no space |
| Text.IntToStringInjective | 2/1/index.js:307-309 | different integers print differently |
| Directory.Filter | 2/1/index.js:255-263 | keeps exactly the users matching every present criterion; all users are kept exactly when all match |
| Directory.FilterIsSubsequence | 2/1/index.js:255-263 | the filtered list keeps the original order |
| Directory.NoCriteriaMatchesAll | 2/1/index.js:248 | the criteria `{}` match every user |
| Directory.SearchSpec | 2/1/index.js:247-263 | the search result is an order-preserving sublist holding exactly the selected users; no criteria or `{}` return every user |
| Directory.ActiveAdminSearch | 2/1/index.js:260-261 | `{role: 'Admin', isDeleted: false}` selects exactly the live Admins, not a SuperAdmin |
| Directory.RecordsInOrder | 2/1/index.js:242 | `getAll()` yields one record per key |
| Directory.DeserializeStored | 2/1/index.js:105-111 | a record stored under its id deserializes the same whatever fresh id is drawn |
| Directory.AllAccounts | 2/1/index.js:242-247 | the deserialized store holds exactly one user per key, the one stored under it |
| Directory.SelectedIds | 2/1/index.js:218-234 | the ids of a search result are exactly the keys whose user is selected, and marking them is the per-key soft delete |
| Directory.DeleteByEmptyIdSelectsAll | 2/1/index.js:219 | `DeleteUser("")` and `DeleteUser()` select every user |
| Directory.DeleteByIdSelectsOne | 2/1/index.js:219 | a non-empty id string selects exactly the user with that id |
| Directory.UserDataBase.All | 2/1/index.js:242 | the records in key order, one per key |
| Directory.UserDataBase.constructor | 2/1/index.js:179-183 | an empty, well-formed store |
| Directory.UserDataBase.Put | 2/1/index.js:204-208 | upsert: the record is stored under its id, the key list stays sorted, and an existing key keeps its place |
| Directory.UserDataBase.CreateUser | 2/1/index.js:210-212 | stores the user's serialization under its id and returns `true` |
| Directory.UserDataBase.SaveUser | 2/1/index.js:214-216 | the same upsert as `CreateUser` |
| Directory.UserDataBase.SearchUser | 2/1/index.js:236-264 | the result is `SearchAccounts` of the stored records: exactly the stored users that are selected |
| Directory.UserDataBase.SoftDeleteMatches | 2/1/index.js:220-224 | every selected record is rewritten with the flag set, the others are untouched, no key is added or removed, and the count is the number matched |
| Directory.UserDataBase.WriteBackDeleted | 2/1/index.js:220-223 | the loop writes back each listed user with the flag set, and nothing else |
| Directory.UserDataBase.DeleteUser | 2/1/index.js:218-225 | a string is the criteria `{id}`; every match is soft-deleted and the count returned |
| Directory.UserDataBase.DeleteAllUsers | 2/1/index.js:227-234 | missing criteria mean `{}`; every match is soft-deleted and the count returned |
| Factory.ConstructorSetsType | 3/index.js:8-47 | each constructor sets `type` to its own role, and the four types are distinct |
| Factory.CreateUser | 3/index.js:64-72 | succeeds exactly for the four lower-case keys after lower-casing, builds a user of that type with the given fields, and otherwise fails with the unknown-type message |
| Factory.CreateUserByTypeName | 3/index.js:57-62 | every class is built from its own type name, in any letter case |
| Factory.CreateUserCaseInsensitive | 3/index.js:65 | a type and its lower-case form build the same user |
| Factory.Logger.constructor | 3/index.js:78-84 | a new logger has no entries |
| Factory.Logger.LogAction | 3/index.js:93-98 | exactly one entry is appended at the end, built from the timestamp, the user's name and the action |
| Factory.Logger.LogDeleteUser | 3/index.js:23-25 | an admin's delete logs one entry naming the deleted user |
| Factory.Logger.LogWarnUser | 3/index.js:34-36 | a moderator's warning logs one entry naming the user |
| Factory.Logger.LogBlockUser | 3/index.js:38-40 | a moderator's block logs one entry naming the user |
| Factory.Logger.SuperAdminCreateUser | 3/index.js:49-53 | the factory result is returned; one entry is logged on success and none when the type is unknown |
| Factory.LoggerSlot.constructor | 3/index.js:76 | the slot starts empty |
| Factory.LoggerSlot.GetInstance | 3/index.js:86-91 | the first call creates an empty logger; every later call returns that same object |
| Factory.FirstIndex | 3/index.js:136 | `findIndex`: the first index satisfying the test, or none when no element does |
| Factory.UserManager.constructor | 3/index.js:122-124 | the list starts empty |
| Factory.UserManager.AddUser | 3/index.js:126-129 | appends at the end, duplicates allowed |
| Factory.UserManager.IndexWhere | 3/index.js:136 | the loop finds the same index as `FirstIndex` |
| Factory.UserManager.GetUserByEmail | 3/index.js:131-133 | the first user with exactly that email; none exactly when no user has it |
| Factory.UserManager.RemoveUser | 3/index.js:135-143 | returns `true` exactly when some user has the email; removes only the first such user, keeping the rest in order; otherwise the list is unchanged |
| Factory.UserManager.FindAdmin | 3/index.js:145-147 | the first user that is an Admin or a SuperAdmin |
| Factory.UserManager.FindModerator | 3/index.js:149-151 | the first Moderator |
| Factory.RemoveFirstKeepsRest | 3/index.js:135-143 | removal drops exactly one occurrence of the found user and keeps every other user |
| Factory.FindAdminFindsSuperAdmin | 3/index.js:145-147 | a SuperAdmin ahead of any Admin is what `findAdmin` returns |
| Seqs.IndexOf | 5/3/index.js:13 | `indexOf`: the first index holding the element, or none when absent |
| Seqs.RemoveFirstSpec | 5/3/index.js:12-17 | `splice(indexOf(x), 1)` removes exactly one copy when present, and changes nothing when absent |
| Seqs.RemoveFirstOrder | 5/3/index.js:12-17 | the elements before and after the removed one keep their order |
| Seqs.RemoveFirstNoDups | 5/3/index.js:12-17 | removal from a list without duplicates leaves none and removes the element entirely |
| Seqs.AppendNoDups | 5/3/index.js:6-10 | appending an absent element keeps the list free of duplicates |
| ChatRooms.ChatUser.constructor | 5/3/index.js:85-88 | a user starts with its name and no mediator |
| ChatRooms.ChatUser.SetMediator | 5/3/index.js:90-92 | the mediator is set |
| ChatRooms.ChatUser.Update | 5/3/index.js:107-111 | a message is shown exactly when this user did not send it |
| ChatRooms.ChatUser.JoinRoom | 5/3/index.js:94-96 | delegates to the mediator's join with this user |
| ChatRooms.ChatUser.LeaveRoom | 5/3/index.js:98-100 | delegates to the mediator's leave with this user |
| ChatRooms.ChatUser.SendMessage | 5/3/index.js:102-105 | delegates to the mediator with this user's name as sender |
| ChatRooms.Deliveries | 5/3/index.js:19-21 | `notify` shows at most one message per observer |
| ChatRooms.DeliveriesSpec | 5/3/index.js:107-111 | exactly the observers not named as the sender see the message, with the message itself |
| ChatRooms.DeliveriesOnce | 5/3/index.js:6-21 | in a room without duplicates nobody sees a message twice |
| ChatRooms.Room.constructor | 5/3/index.js:78-81 | a room starts with its name and no observers |
| ChatRooms.Room.Attach | 5/3/index.js:6-10 | appended only when absent, so the list never holds duplicates |
| ChatRooms.Room.Detach | 5/3/index.js:12-17 | removes the first occurrence, keeps the rest in order, and leaves the observer absent |
| ChatRooms.Room.Notify | 5/3/index.js:19-21 | the loop produces `Deliveries`: each observer once, in attachment order |
| ChatRooms.ChatMediator.constructor | 5/3/index.js:25-28 | no rooms and no users |
| ChatRooms.ChatMediator.RegisterUser | 5/3/index.js:30-33 | the name maps to this user, replacing an earlier one, rooms untouched, and the user's mediator is set |
| ChatRooms.ChatMediator.CreateRoom | 5/3/index.js:35-43 | idempotent: an existing room is returned and kept; a new name gets a fresh empty room |
| ChatRooms.ChatMediator.GetRoom | 5/3/index.js:45-47 | the room filed under the name, if any |
| ChatRooms.ChatMediator.JoinRoom | 5/3/index.js:49-57 | attaches to an existing room; a missing room changes nothing |
| ChatRooms.ChatMediator.LeaveRoom | 5/3/index.js:59-65 | detaches from an existing room; a missing room changes nothing |
| ChatRooms.ChatMediator.SendMessage | 5/3/index.js:67-74 | a missing room delivers nothing; otherwise every member whose name is not the sender's receives it |
| TeamMediator.Colleague.constructor | 5/2/index.js:30-33 | a colleague starts with its name and no mediator |
| TeamMediator.Colleague.SetMediator | 5/2/index.js:35-37 | the mediator is set |
| TeamMediator.Colleague.Send | 5/2/index.js:39-42 | delegates to the mediator with itself as sender |
| TeamMediator.Colleague.Broadcast | 5/2/index.js:44-47 | delegates to the mediator; it never receives its own broadcast, and every receipt carries its name |
| TeamMediator.Broadcasted | 5/2/index.js:20-26 | at most one receipt per member |
| TeamMediator.BroadcastedSpec | 5/2/index.js:20-26 | exactly the members other than the sender (by reference) receive the message, tagged with the sender's name |
| TeamMediator.BroadcastedCount | 5/2/index.js:20-26 | without duplicates, the number of receipts is the number of members, less one when the sender is a member |
| TeamMediator.Mediator.Members | 5/2/index.js:21 | the colleagues in map insertion order, one per name |
| TeamMediator.Mediator.MembersDistinct | 5/2/index.js:3 | each registered colleague appears once in the iteration |
| TeamMediator.Mediator.MembersAreColleagues | 5/2/index.js:21 | the iteration visits exactly the registered colleagues |
| TeamMediator.Mediator.constructor | 5/2/index.js:2-4 | no colleagues |
| TeamMediator.Mediator.Register | 5/2/index.js:6-9 | the name maps to this colleague, replacing an earlier one but keeping its place in the order, and the colleague's mediator is set |
| TeamMediator.Mediator.Send | 5/2/index.js:11-18 | exactly one receipt for a registered receiver, tagged with the sender's name; none for an unknown name |
| TeamMediator.Mediator.Broadcast | 5/2/index.js:20-26 | the loop produces `Broadcasted` over the members in order; one receipt per colleague other than the sender |
| Weather.Display.constructor | 5/1/index.js:37-39 | a display keeps its name |
| Weather.Notices | 5/1/index.js:17-19 | one notice per attached entry |
| Weather.NoticesAt | 5/1/index.js:17-19 | the `k`-th notice goes to the `k`-th entry with the given reading |
| Weather.NoticesCount | 5/1/index.js:17-19 | a display attached `n` times is notified `n` times |
| Weather.WeatherStation.constructor | 5/1/index.js:23-27 | temperature 0, humidity 0, no observers |
| Weather.WeatherStation.Attach | 5/1/index.js:6-8 | always appends, duplicates included; readings untouched |
| Weather.WeatherStation.Detach | 5/1/index.js:10-15 | removes the first occurrence only; nothing when absent; readings untouched |
| Weather.WeatherStation.Notify | 5/1/index.js:17-19 | the loop notifies each entry once, in attachment order |
| Weather.WeatherStation.SetMeasurements | 5/1/index.js:29-33 | stores both readings, keeps the observers, and notifies every entry with exactly those readings |
| Pricing.NewMoney | 2/2/refactoring.js:2-8 | succeeds exactly for a non-negative amount, keeping amount and currency; a negative amount fails with its message |
| Pricing.Zero | 2/2/refactoring.js:10-12 | amount 0 in the given currency |
| Pricing.Add | 2/2/refactoring.js:22-28 | different currencies fail with the currency message; otherwise the sum in the same currency, refused only when it is negative |
| Pricing.Multiply | 2/2/refactoring.js:30-32 | the scaled amount in the same currency, refused when negative |
| Pricing.Equals | 2/2/refactoring.js:38-40 | holds exactly when amount and currency both match |
| Pricing.ZeroNeutral | 2/2/refactoring.js:22-28 | adding zero of the same currency, on either side, gives the amount back |
| Pricing.AddCommutes | 2/2/refactoring.js:22-28 | `a.add(b)` and `b.add(a)` agree, failures included |
| Pricing.KindOf | 2/2/refactoring.js:88-96 | 'food' and 'electronics' pick their classes; anything else is a regular item |
| Pricing.CreateItem | 2/2/refactoring.js:93-98 | succeeds exactly for a non-negative price, in UAH, with the class the type selects |
| Pricing.FinalPrice | 2/2/refactoring.js:65-85 | same currency, non-negative; a regular item's final price is its base price |
| Pricing.FinalPriceByMultiply | 2/2/refactoring.js:65-79 | food and electronics prices are `multiply` by 0.9 and 1.2, which cannot fail on a valid price |
| Pricing.FoldAddSpec | 2/2/refactoring.js:115-119 | the fold succeeds exactly when every item is in the starting currency, and then yields the sum of the final prices; otherwise it fails with the currency message |
| Pricing.CalculateTotal | 2/2/refactoring.js:115-119 | an empty order totals 0 UAH |
| Pricing.TotalSpec | 2/2/refactoring.js:115-119 | the total succeeds exactly when every item is in UAH, and is then the sum of the final prices |
| Pricing.FactoryItemsTotal | 2/2/refactoring.js:93-119 | an order of items the factory built always has a total |
| CurrencyAdapter.FiniteRate | 4/3/index.js:9 | a pair exactly when the rate converts to a finite number |
| CurrencyAdapter.Normalize | 4/3/index.js:2-37 | non-string, non-array, non-object inputs give null; arrays need length 2; objects prefer `currency`/`rate` over `code`/`value`, and otherwise give null (the string branch is stated by the rule lemmas below) |
| CurrencyAdapter.ColonRule | 4/3/index.js:3-10 | a trimmed string with one colon gives the trimmed first part and the converted trimmed second part |
| CurrencyAdapter.SpaceRule | 4/3/index.js:11-16 | with any number of colons but one, two words around a run of white space give that pair, colons inside the words included |
| CurrencyAdapter.NotTwoWordsIsNull | 4/3/index.js:6-17 | when neither one colon nor exactly two white-space-separated words are present, the string gives null |
| CurrencyAdapter.ThreeWordsIsNull | 4/3/index.js:11-17 | three words (as in `USD 1 2`) without a single colon give null |
| CurrencyAdapter.SplitWsThree | 4/3/index.js:11 | three words split into exactly three pieces |
| CurrencyAdapter.OneWordIsNull | 4/3/index.js:11-17 | one word without a colon gives null |
| CurrencyAdapter.ManyColonsNoSpaceIsNull | 4/3/index.js:5-17 | several colons and no white space give null |
| CurrencyAdapter.NonFiniteIsNull | 4/3/index.js:2-37 | when no value converts to a finite number, every branch gives null |
| CurrencyAdapter.RateComesFromInput | 4/3/index.js:2-37 | a returned rate is always the conversion of some value |
| GeoAdapter.Checked | 4/1/index.js:12-13 | a coordinate is kept exactly when it is finite and within the inclusive bound |
| GeoAdapter.Parse | 4/1/index.js:2-18 | a non-string, or not exactly one comma, makes both fields invalid; a kept latitude is within ±90 and a kept longitude within ±180 |
| GeoAdapter.ParsePair | 4/1/index.js:6-17 | "a,b" judges the trimmed `a` as latitude and the trimmed `b` as longitude |
| GeoAdapter.CoordinatesIndependent | 4/1/index.js:14-17 | the latitude does not depend on the second part, nor the longitude on the first |
| GeoAdapter.BoundsInclusive | 4/1/index.js:12-13 | -90 and 180 are accepted |
| Notifiers.Lines | 4/2/index.js:1-45 | the base notifier emits one Email line; a decorator emits its own line first; a decorator without `next` emits at most its own line |
| Notifiers.LogView.constructor | 4/2/index.js:47 | the log starts empty |
| Notifiers.LogView.Clear | 4/2/index.js:59 | the log becomes empty |
| Notifiers.LogView.Append | 4/2/index.js:54-56 | `appendLog` adds the line and a newline |
| Notifiers.Notify | 4/2/index.js:19-23 | the recursive chain appends exactly the rendered lines of `Lines` |
| Notifiers.ChainLines | 4/2/index.js:61-65 | the enabled channels come out as Push, WhatsApp, Telegram, then Email |
| Notifiers.EmailLastOnce | 4/2/index.js:61-65 | Email appears exactly once, last |
| Notifiers.Send | 4/2/index.js:58-66 | the log is cleared, then holds exactly the chain's lines for the message or the default message when the input is empty |
| CodePen.Matching | generate-codepen.js:40-41 | exactly the regular files whose lower-cased name ends with one of the extensions |
| CodePen.FindSingleFile | generate-codepen.js:38-49 | succeeds exactly when one file matches, joining it to the folder; zero and several matches fail with their messages |
| CodePen.FoundFileIsUnique | generate-codepen.js:42-48 | on success every matching file is the returned one |
| CodePen.DirectoriesIgnored | generate-codepen.js:40 | a directory never matches, whatever its name |
| CodePen.FindFrom | generate-codepen.js:52 | the first case-insensitive occurrence at or after a position, or none |
| CodePen.BodySpan | generate-codepen.js:52 | a span found is a match of the body pattern |
| CodePen.BodySpanLeftmost | generate-codepen.js:52 | the span found is the leftmost match, and none is found exactly when there is no match |
| CodePen.BodyMatchUnique | generate-codepen.js:52 | at a given start the lazy match is unique |
| CodePen.Body | generate-codepen.js:52-53 | the text between the first body tags, or the whole input when there is no match |
| CodePen.MatchAt | generate-codepen.js:54-55 | a script match has a positive length within the text |
| CodePen.MatchAtSpec | generate-codepen.js:54-55 | the anchored match found is exactly the one the regular expression describes: `<script` not followed by a word character, up to the first `>`, then either the first `</script>` after it (case-insensitive) or, for the self-closing pattern, a `/` just before that `>` |
| CodePen.FindFromIs | generate-codepen.js:52-55 | a search returns the first position at or after its start where the pattern occurs |
| CodePen.Strip | generate-codepen.js:54-55 | the global replace never lengthens the text |
| CodePen.StripSpec | generate-codepen.js:54-55 | the global replace cuts the text into kept stretches and matches, scanning left to right: no match starts inside a kept stretch, each match is the one found at its position, and the result is the kept stretches joined, so only matches are removed |
| CodePen.StripCuts | generate-codepen.js:54-55 | the global replace is a list of cuts of that one pattern, each removing a match found where it is applied |
| CodePen.CutAllShift | generate-codepen.js:54-55 | cuts made after an untouched prefix keep that prefix |
| CodePen.CutAllAppend | generate-codepen.js:54-55 | applying two lists of cuts in turn is applying their concatenation |
| CodePen.StripNothing | generate-codepen.js:54-55 | text with no match passes unchanged |
| CodePen.ExtractHtmlBody | generate-codepen.js:51-56 | the result is no longer than the body |
| CodePen.ExtractHtmlBodySpec | generate-codepen.js:51-56 | the block pass removes only blocks from the body, the self-closing pass removes only self-closing tags from what is left, and the result is what both passes keep |
| CodePen.StripBlockBetween | generate-codepen.js:51-56 | one script block between two stretches without `<` is removed and the stretches joined: `x + block + y` becomes `x + y`, also in the repeated removal and in the whole extraction when the input is its own body |
| CodePen.ScriptFreeBodyKept | generate-codepen.js:51-56 | a body without scripts comes out unchanged |
| CodePen.OnePassLeavesScript | generate-codepen.js:54-55 | one pass can leave a script block: see Findings |
| CodePen.RemoveScripts | generate-codepen.js:54-55 | repeated passes leave no script block and no self-closing script tag |
| CodePen.RemoveScriptsCuts | generate-codepen.js:54-55 | the repeated passes only ever cut out matches: the result is the input with a list of matches removed |
| CodePen.ExtractHtmlBodyFixed | generate-codepen.js:51-56 | the corrected extraction leaves no script, and returns a script-free body unchanged |
| CodePen.ExtractHtmlBodyFixedCuts | generate-codepen.js:51-56 | the corrected extraction is the body with matches cut out, and no script is left |
| CodePen.EscapeChar | generate-codepen.js:60-63 | no entity holds a raw `<`, `>` or `"` |
| CodePen.EscapeEach | generate-codepen.js:60-63 | escaping each character once leaves no raw `<`, `>` or `"` |
| CodePen.EscapeAttrIsEscapeEach | generate-codepen.js:59-63 | because `&` goes first, the replace chain escapes every character exactly once, so no entity is escaped twice |
| CodePen.EscapeRoundTrip | generate-codepen.js:59-63 | decoding the four entities gives the payload back |

## Left out

- IndexedDB plumbing (`openUserDb`, `#withStore`, transactions, promises) and the `UserDataBase` singleton: the store is an in-memory map plus its sorted key list.
- The DOM: rendering, event handlers, `setInterval` polling, `alert`, `renderLogs`, `renderUsers`, and the button handlers of 4/1, 4/2 and 4/3, including `JSON.parse` in 4/3.
- Clocks, randomness and locales: `Date.now()`, `crypto.randomUUID()`, `toLocaleString` and `toLocaleTimeString` are parameters.
- `Number(...)` and `String(...)` are abstract parameters; the model does not reproduce JavaScript's conversion rules.
- `toLowerCase` lower-cases ASCII letters only; Unicode case mapping is not modelled.
- IndexedDB compares keys by UTF-16 code units; the model compares Dafny characters.
- Console output in 5/1, 5/2 and 5/3 becomes returned sequences of deliveries, receipts and notices; the printed text and the per-display formats of 5/1 are not modelled.
- `Pricing.FinalPrice`: amounts are exact reals, so the 0.9 and 1.2 products are exact; IEEE double rounding is not modelled. The same holds for `Money`'s addition and equality and for order totals: 0.1 + 0.2 equals 0.3 in the model but not in JavaScript.
- `Panel.FmtMs`: integer milliseconds only, so a fractional `ms` below one second, which `${ms}` would print with its decimals, is not modelled.
- `Accounts.Mute`, `Accounts.ClampDuration`, `Accounts.AddWarning` and the `warnings` and `mutedUntil` fields: times, durations and counts are integers. The page passes `minutes * 60 * 1000` with a possibly fractional `minutes` (2/1/index.js:455-456), and a NaN duration gives a NaN deadline for which `isMuted()` is false; fractional milliseconds and NaN are not modelled, so `Accounts.MuteSpec`'s "never before now" holds only for numbers.
- `Order.items` returning a copy is not modelled as a member, because orders are values here and no caller can change one.
- `Item`'s `instanceof Money` check is not modelled: the types already guarantee it.
- The `ReceiptPrinter` of 2/2/refactoring.js is output formatting and is not part of this model.
- `Directory.UserDataBase.SearchUser`: criteria fields are strings or a boolean; other JavaScript values (numbers, objects), and truthiness beyond the empty string, are not modelled.
- `CurrencyAdapter.Normalize`: `'currency' in x` looks at the prototype chain in JavaScript; the model looks at the object's own fields.
- `Notifiers.Notify`: a `next` that has no `notify` function is treated as a missing `next`.
- `UserEntity.User`: the four role classes are one class with a constant `role`; the check `requester?.getRole?.()` is the requester's role.
- In 3/index.js, users are values, so `getUserByEmail` returns a value rather than a reference.
- The filesystem, readline prompts, temporary files, `spawn`, `JSON.stringify` of the payload, and `main` in generate-codepen.js; `path.join` is a parameter.

## Findings

| source | as written | input that shows it | evidently intended | confidence | as-written member | corrected member |
|---|---|---|---|---|---|---|
| generate-codepen.js:54-55 | one global `replace` pass removes each script block it finds, but does not rescan the text the removal joins together | `<scr<script></script>ipt></script>` comes out as `<script></script>`, a script block | no script block or self-closing script tag is left in the extracted body | medium, not executed | CodePen.OnePassLeavesScript | CodePen.ExtractHtmlBodyFixed |
