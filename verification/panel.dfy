/** The decision logic of the directory page (2/1/index.js): which action
    buttons `updateActionAvailability` enables and how `fmtMs` prints a
    remaining mute time. Rendering and event wiring are not modelled. */
module Panel {
  import opened Wrappers
  import opened Text
  import opened Roles
  import opened Accounts

  /** Which buttons are enabled (the negation of each `disabled` flag). */
  datatype Buttons = Buttons(warn: bool, mute: bool, reset: bool, delete: bool, check: bool)

  function RoleOfAccount(a: Option<Account>): Option<Role>
  {
    if a.Some? then Some(a.value.role) else None
  }

  /** `updateActionAvailability()` for the active user `actor`, the selected
      `target`, and the current contents of the new-password and
      check-password inputs. */
  function Availability(actor: Option<Account>, target: Option<Account>, newPass: string, checkPass: string): Buttons
  {
    var canWarnMute := actor.Some? && CanModerate(RoleOfAccount(actor)) && target.Some? && !target.value.isDeleted;
    var canResDel := actor.Some? && CanAdmin(RoleOfAccount(actor)) && target.Some? && !target.value.isDeleted;
    var canSelf := actor.Some? && target.Some? && actor.value.id == target.value.id;
    Buttons(
      warn := canWarnMute,
      mute := canWarnMute,
      reset := canResDel && newPass != "",
      delete := canResDel,
      check := target.Some? && checkPass != "" && (canResDel || canSelf))
  }

  /** The authorization matrix for an actor acting on a live target: warn and
      mute only for a Moderator, delete only for an Admin or SuperAdmin, reset
      also needs a non-empty new password. A SuperAdmin therefore cannot warn
      or mute. */
  lemma AuthorizationMatrix(actor: Account, target: Account, newPass: string, checkPass: string)
    requires !target.isDeleted
    ensures var b := Availability(Some(actor), Some(target), newPass, checkPass);
      && (b.warn <==> actor.role == Moderator)
      && (b.mute <==> actor.role == Moderator)
      && (b.delete <==> actor.role == Admin || actor.role == SuperAdmin)
      && (b.reset <==> (actor.role == Admin || actor.role == SuperAdmin) && newPass != "")
  {
  }

  /** A deleted target, or a missing actor or target, enables none of the four
      moderation and admin actions. */
  lemma NothingOnDeletedOrMissing(actor: Option<Account>, target: Option<Account>, newPass: string, checkPass: string)
    requires actor.None? || target.None? || target.value.isDeleted
    ensures var b := Availability(actor, target, newPass, checkPass);
      !b.warn && !b.mute && !b.reset && !b.delete
  {
  }

  /** Password check: a target, a non-empty input, and either the actor checking
      their own password or an admin checking a live target. */
  lemma CheckAvailability(actor: Option<Account>, target: Option<Account>, newPass: string, checkPass: string)
    ensures Availability(actor, target, newPass, checkPass).check <==>
      && target.Some? && checkPass != ""
      && actor.Some?
      && (actor.value.id == target.value.id || (IsAdminClass(actor.value.role) && !target.value.isDeleted))
  {
  }

  datatype TimeUnit = Minutes | Seconds | Millis

  /** `fmtMs(ms)` before rendering: an amount and its unit. */
  datatype Duration = Duration(amount: int, unit: TimeUnit)
  {
    /** The text `fmtMs` returns: the amount, a space and the Ukrainian unit. */
    function Text(): (r: string)
      ensures |r| > |IntToString(amount)| && r[|IntToString(amount)|] == ' '
      ensures r[..|IntToString(amount)|] == IntToString(amount)
    {
      IntToString(amount) + " " + UnitWord(unit)
    }
  }

  /** The word `fmtMs` writes after the amount. */
  function UnitWord(u: TimeUnit): string
  {
    match u
    case Minutes => "хв"
    case Seconds => "с"
    case Millis => "мс"
  }

  /** `fmtMs`'s text: rounded-up minutes with "хв", rounded-up seconds with
      "с", and otherwise the milliseconds themselves with "мс". */
  lemma FmtMsText(ms: int)
    ensures ms >= 60000 ==> FmtMs(ms).Text() == IntToString(CeilDiv(ms, 60000)) + " хв"
    ensures 1000 <= ms < 60000 ==> FmtMs(ms).Text() == IntToString(CeilDiv(ms, 1000)) + " с"
    ensures ms < 1000 ==> FmtMs(ms).Text() == IntToString(ms) + " мс"
  {
  }

  /** Two texts joined at a space they do not contain split back apart. */
  lemma SplitAtSpace(x: string, u: string, y: string, v: string)
    requires ' ' !in x && ' ' !in y && x + " " + u == y + " " + v
    ensures x == y && u == v
  {
    var t := x + " " + u;
    FirstSpace(x, u);
    FirstSpace(y, v);
    assert |x| == |y|;
    assert x == t[..|x|] && y == t[..|y|];
    assert u == t[|x| + 1..] && v == t[|y| + 1..];
  }

  /** The first space of `x + " " + u` is the one after `x`. */
  lemma FirstSpace(x: string, u: string)
    requires ' ' !in x
    ensures (x + " " + u)[|x|] == ' '
    ensures forall k :: 0 <= k < |x| ==> (x + " " + u)[k] != ' '
  {
    forall k | 0 <= k < |x| ensures (x + " " + u)[k] != ' ' {
      assert (x + " " + u)[k] == x[k];
    }
  }

  /** The text determines the duration: no two durations print alike. */
  lemma TextInjective(d1: Duration, d2: Duration)
    requires d1.Text() == d2.Text()
    ensures d1 == d2
  {
    IntToStringRoundTrip(d1.amount);
    IntToStringRoundTrip(d2.amount);
    SplitAtSpace(IntToString(d1.amount), UnitWord(d1.unit), IntToString(d2.amount), UnitWord(d2.unit));
    IntToStringInjective(d1.amount, d2.amount);
  }

  /** `Math.ceil(n / d)` for a positive divisor. */
  function CeilDiv(n: int, d: int): int
    requires d > 0
  {
    (n + d - 1) / d
  }

  /** Ceiling division is the least multiple count covering `n`. */
  lemma CeilDivSpec(n: int, d: int)
    requires d > 0
    ensures (CeilDiv(n, d) - 1) * d < n <= CeilDiv(n, d) * d
  {
    var q := CeilDiv(n, d);
    var r := (n + d - 1) % d;
    assert n + d - 1 == q * d + r && 0 <= r < d;
  }

  /** `fmtMs(ms)`: whole minutes from one minute up, whole seconds from one
      second up, else milliseconds; minutes and seconds are rounded up. */
  function FmtMs(ms: int): (r: Duration)
    ensures ms >= 60000 ==> r.unit == Minutes && (r.amount - 1) * 60000 < ms <= r.amount * 60000
    ensures 1000 <= ms < 60000 ==> r.unit == Seconds && (r.amount - 1) * 1000 < ms <= r.amount * 1000
    ensures ms < 1000 ==> r == Duration(ms, Millis)
  {
    if ms >= 60000 then CeilDivSpec(ms, 60000); Duration(CeilDiv(ms, 60000), Minutes)
    else if ms >= 1000 then CeilDivSpec(ms, 1000); Duration(CeilDiv(ms, 1000), Seconds)
    else Duration(ms, Millis)
  }

  /** The printed amount stays in range: at least one minute, and between one
      and sixty seconds. */
  lemma FmtMsBounds(ms: int)
    ensures ms >= 60000 ==> FmtMs(ms).amount >= 1
    ensures 1000 <= ms < 60000 ==> 1 <= FmtMs(ms).amount <= 60
  {
  }
}
