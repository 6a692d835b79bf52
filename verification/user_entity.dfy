/** The user objects of 2/1/index.js: `User`, `Admin`, `Moderator` and
    `SuperAdmin` as one class whose `role` records which constructor built it.
    Each method updates the fields in place; its contract ties the new state to
    the pure operation of the same name in module Accounts. */
module UserEntity {
  import opened Wrappers
  import opened Roles
  import opened Accounts
  import Codec

  class User {
    var id: string
    var name: string
    var email: string
    /** Set once by the constructor of the role's class. */
    const role: Role
    var isDeleted: bool
    var password: string
    var warnings: int
    var mutedUntil: int

    /** Ids come from `crypto.randomUUID()` and are never empty. */
    ghost predicate Valid()
      reads this
    {
      id != ""
    }

    /** The abstract state of the object. */
    function State(): Account
      reads this
    {
      Account(id, name, email, role, isDeleted, password, warnings, mutedUntil)
    }

    /** `new User(...)`, `new Admin(...)`, `new Moderator(...)` or
        `new SuperAdmin(...)`, with the fresh UUID passed in. */
    constructor (freshId: string, name: string, email: string, password: string, role: Role)
      requires freshId != ""
      ensures Valid() && State() == NewAccount(freshId, name, email, password, role)
    {
      this.id := freshId;
      this.name := name;
      this.email := email;
      this.role := role;
      this.isDeleted := false;
      this.password := password;
      this.warnings := 0;
      this.mutedUntil := 0;
    }

    method CheckPassword(input: string) returns (ok: bool)
      ensures ok <==> Accounts.CheckPassword(State(), input)
    {
      ok := password == input;
    }

    method SetPasswordAs(requester: User?, newPassword: string) returns (ok: bool)
      modifies this
      ensures (State(), ok) == Accounts.SetPasswordAs(old(State()), RoleOf(requester), newPassword)
      ensures Valid() == old(Valid())
    {
      var requesterRole := RoleOf(requester);
      if requesterRole == Some(Admin) || requesterRole == Some(SuperAdmin) {
        password := newPassword;
        return true;
      }
      return false;
    }

    method AddWarning() returns (count: int)
      modifies this
      ensures State() == Accounts.AddWarning(old(State()))
      ensures count == warnings == old(warnings) + 1
      ensures Valid() == old(Valid())
    {
      warnings := warnings + 1;
      count := warnings;
    }

    method Mute(durationMs: int, now: int) returns (until: int)
      modifies this
      ensures State() == Accounts.Mute(old(State()), durationMs, now)
      ensures until == mutedUntil >= now
      ensures Valid() == old(Valid())
    {
      until := now + ClampDuration(durationMs);
      mutedUntil := until;
    }

    method IsMuted(now: int) returns (muted: bool)
      ensures muted <==> Accounts.IsMuted(State(), now)
    {
      muted := now < mutedUntil;
    }

    method GetMuteRemainingMs(now: int) returns (remaining: int)
      ensures remaining == Accounts.MuteRemainingMs(State(), now)
      ensures remaining > 0 <==> Accounts.IsMuted(State(), now)
    {
      remaining := mutedUntil - now;
      if remaining <= 0 {
        remaining := 0;
      }
    }

    /** `serialize()`. */
    function Serialize(): Codec.StoredData
      reads this
    {
      Codec.Serialize(State())
    }

    method HydrateFromSerialized(data: Codec.StoredData)
      modifies this
      ensures State() == Codec.Hydrate(old(State()), data)
      ensures old(Valid()) ==> Valid()
    {
      id := Codec.OrElse(data.id, id);
      isDeleted := data.isDeleted == Some(true);
      password := Codec.OrElse(data.password, "");
      warnings := Codec.OrZero(data.warnings);
      mutedUntil := Codec.OrZero(data.mutedUntil);
    }

    /** `static deserialize(data)`: the class is chosen by the role tag. */
    static method Deserialize(data: Codec.StoredData, freshId: string) returns (u: User)
      requires freshId != ""
      ensures fresh(u) && u.Valid()
      ensures u.State() == Codec.Deserialize(data, freshId)
    {
      var name := Codec.OrElse(data.name, "");
      var email := Codec.OrElse(data.email, "");
      var password := Codec.OrElse(data.password, "");
      u := new User(freshId, name, email, password, RoleOfTag(data.role));
      u.HydrateFromSerialized(data.(password := Some(password)));
    }

    /** `Admin.deleteUser(user)`, inherited by SuperAdmin. */
    method DeleteUser(target: User) returns (ok: bool)
      requires IsAdminClass(role)
      modifies target
      ensures (target.State(), ok) == SoftDelete(old(target.State()))
      ensures target.Valid() == old(target.Valid())
    {
      var wasDeleted := target.isDeleted;
      target.isDeleted := true;
      ok := !wasDeleted && target.isDeleted;
    }

    /** `Admin.resetPassword(user, newPassword)`: asks the target to change its
        password on behalf of this admin, which always succeeds. */
    method ResetPassword(target: User, newPassword: string) returns (ok: bool)
      requires IsAdminClass(role)
      modifies target
      ensures ok
      ensures target.State() == old(target.State()).(password := newPassword)
      ensures target.Valid() == old(target.Valid())
    {
      ok := target.SetPasswordAs(this, newPassword);
    }

    /** `Moderator.warnUser(user)`. */
    method WarnUser(target: User) returns (count: int)
      requires role == Moderator
      modifies target
      ensures target.State() == Accounts.AddWarning(old(target.State()))
      ensures count == target.warnings
      ensures target.Valid() == old(target.Valid())
    {
      count := target.AddWarning();
    }

    /** `Moderator.muteUser(user, durationMs)` at time `now`. */
    method MuteUser(target: User, durationMs: int, now: int) returns (until: int)
      requires role == Moderator
      modifies target
      ensures target.State() == Accounts.Mute(old(target.State()), durationMs, now)
      ensures until == target.mutedUntil
      ensures target.Valid() == old(target.Valid())
    {
      until := target.Mute(durationMs, now);
    }

    /** `SuperAdmin.createAdmin(name, email, password)`. */
    method CreateAdmin(freshId: string, name: string, email: string, password: string) returns (admin: User)
      requires role == SuperAdmin
      requires freshId != ""
      ensures fresh(admin) && admin.Valid()
      ensures admin.State() == NewAccount(freshId, name, email, password, Admin)
    {
      admin := new User(freshId, name, email, password, Admin);
    }
  }

  /** `requester?.getRole?.() || null`. */
  function RoleOf(requester: User?): Option<Role>
  {
    if requester == null then None else Some(requester.role)
  }
}
