/** The state of one directory user (2/1/index.js, class `User` and its
    subclasses) as a value, with the operations that change it. Time
    (`Date.now()`) is the parameter `now`; fresh ids (`crypto.randomUUID()`) are
    the parameter `freshId`. */
module Accounts {
  import opened Wrappers
  import opened Roles

  /** All fields of a user object, including the private `#password`,
      `#warnings` and `#mutedUntil` (a millisecond timestamp, 0 = never muted). */
  datatype Account = Account(
    id: string,
    name: string,
    email: string,
    role: Role,
    isDeleted: bool,
    password: string,
    warnings: int,
    mutedUntil: int)

  /** The state the constructor of the class for `role` leaves behind. */
  function NewAccount(freshId: string, name: string, email: string, password: string, role: Role): Account
  {
    Account(freshId, name, email, role, false, password, 0, 0)
  }

  /** `checkPassword(input)`: exact equality with the stored password. */
  predicate CheckPassword(a: Account, input: string)
  {
    a.password == input
  }

  /** `setPasswordAs(requester, newPassword)`: the password is overwritten, and
      `true` returned, exactly when a requester is present and its role is Admin
      or SuperAdmin. */
  function SetPasswordAs(a: Account, requester: Option<Role>, newPassword: string): (r: (Account, bool))
  {
    if requester == Some(Admin) || requester == Some(SuperAdmin) then (a.(password := newPassword), true)
    else (a, false)
  }

  /** `addWarning()`: one more warning. */
  function AddWarning(a: Account): Account
  {
    a.(warnings := a.warnings + 1)
  }

  /** `max(0, d)`, the clamp `mute` applies to its duration. */
  function ClampDuration(d: int): (r: nat)
    ensures r >= d && (d >= 0 ==> r == d) && (d < 0 ==> r == 0)
  {
    if d > 0 then d else 0
  }

  /** `mute(durationMs)` at time `now`: the mute deadline becomes
      `now + max(0, durationMs)`. */
  function Mute(a: Account, durationMs: int, now: int): Account
  {
    a.(mutedUntil := now + ClampDuration(durationMs))
  }

  /** `isMuted()` at time `now`. */
  predicate IsMuted(a: Account, now: int)
  {
    now < a.mutedUntil
  }

  /** `getMuteRemainingMs()` at time `now`. */
  function MuteRemainingMs(a: Account, now: int): (r: nat)
  {
    var remaining := a.mutedUntil - now;
    if remaining > 0 then remaining else 0
  }

  /** `Admin.deleteUser(user)`: the flag ends up set; the result tells whether
      it was clear before. */
  function SoftDelete(a: Account): (r: (Account, bool))
  {
    (a.(isDeleted := true), !a.isDeleted)
  }

  /** `setPasswordAs` changes only the password, succeeds exactly for an Admin
      or SuperAdmin requester, and on failure changes nothing. */
  lemma SetPasswordAsSpec(a: Account, requester: Option<Role>, newPassword: string)
    ensures SetPasswordAs(a, requester, newPassword).1 <==> CanAdmin(requester)
    ensures CanAdmin(requester) ==> SetPasswordAs(a, requester, newPassword).0 == a.(password := newPassword)
    ensures !CanAdmin(requester) ==> SetPasswordAs(a, requester, newPassword).0 == a
  {
  }

  /** After a successful reset only the new password is accepted; after a
      refused one only the old password is. */
  lemma ResetThenCheck(a: Account, requester: Option<Role>, newPassword: string, input: string)
    ensures var (b, ok) := SetPasswordAs(a, requester, newPassword);
      CheckPassword(b, input) <==> (if ok then input == newPassword else input == a.password)
  {
  }

  /** `n` consecutive `addWarning` calls. */
  function AddWarnings(a: Account, n: nat): Account
    decreases n
  {
    if n == 0 then a else AddWarning(AddWarnings(a, n - 1))
  }

  /** Warnings only go up, one per call, and nothing else changes: a fresh
      user warned `n` times has exactly `n` warnings. */
  lemma {:induction false} AddWarningsCount(a: Account, n: nat)
    ensures AddWarnings(a, n) == a.(warnings := a.warnings + n)
    decreases n
  {
    if n > 0 {
      AddWarningsCount(a, n - 1);
    }
  }

  lemma FreshUserWarnings(freshId: string, name: string, email: string, password: string, role: Role, n: nat)
    ensures AddWarnings(NewAccount(freshId, name, email, password, role), n).warnings == n
  {
    AddWarningsCount(NewAccount(freshId, name, email, password, role), n);
  }

  /** A mute never produces a deadline before `now`; a positive duration mutes
      immediately, the deadline lies exactly `max(0, d)` ahead, and the user is
      unmuted from the deadline on. */
  lemma MuteSpec(a: Account, d: int, now: int, later: int)
    ensures Mute(a, d, now).mutedUntil >= now
    ensures Mute(a, d, now).mutedUntil - now == ClampDuration(d)
    ensures d > 0 ==> IsMuted(Mute(a, d, now), now)
    ensures MuteRemainingMs(Mute(a, d, now), now) == ClampDuration(d)
    ensures later >= Mute(a, d, now).mutedUntil ==> !IsMuted(Mute(a, d, now), later)
    ensures Mute(a, d, now) == a.(mutedUntil := Mute(a, d, now).mutedUntil)
  {
  }

  /** The derived mute state agrees with the remaining time: muted exactly when
      time remains, and then the remaining time reaches the deadline. */
  lemma MutedIffRemaining(a: Account, now: int)
    ensures IsMuted(a, now) <==> MuteRemainingMs(a, now) > 0
    ensures IsMuted(a, now) ==> now + MuteRemainingMs(a, now) == a.mutedUntil
  {
  }

  /** Soft delete leaves the flag set; a second delete reports no transition. */
  lemma SoftDeleteIdempotent(a: Account)
    ensures SoftDelete(a).0.isDeleted
    ensures SoftDelete(a).1 <==> !a.isDeleted
    ensures SoftDelete(SoftDelete(a).0).0 == SoftDelete(a).0
    ensures !SoftDelete(SoftDelete(a).0).1
  {
  }
}
