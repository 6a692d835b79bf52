/** The factory, singleton logger and user manager of 3/index.js. Users there
    never change after construction, so they are values; the manager's list and
    the logger's entries are fields that the methods update in place. The
    timestamp of a log entry (`toLocaleString('uk-UA')`) is a parameter. */
module Factory {
  import opened Wrappers
  import opened Text

  /** The four classes: `User`, `Admin extends User`, `Moderator extends User`
      and `SuperAdmin extends Admin`. */
  datatype UserClass = User | Admin | Moderator | SuperAdmin

  /** `ROLES[...]`, the value each constructor stores in `type`. */
  function TypeName(c: UserClass): string
  {
    match c
    case User => "User"
    case Admin => "Admin"
    case Moderator => "Moderator"
    case SuperAdmin => "SuperAdmin"
  }

  /** A constructed user: its fields and the class that built it. */
  datatype Person = Person(name: string, email: string, password: string, cls: UserClass)
  {
    /** The `type` field the constructor chain leaves behind. */
    function Type(): string
    {
      TypeName(cls)
    }
  }

  /** `new C(name, email, password)` for class `c`. */
  function Construct(c: UserClass, name: string, email: string, password: string): Person
  {
    Person(name, email, password, c)
  }

  /** `u instanceof Admin`: true for Admin and for its subclass SuperAdmin. */
  predicate IsAdmin(u: Person)
  {
    u.cls == Admin || u.cls == SuperAdmin
  }

  /** `u instanceof Moderator`. */
  predicate IsModerator(u: Person)
  {
    u.cls == Moderator
  }

  /** Each constructor sets `type` to its own role, and the four are distinct. */
  lemma ConstructorSetsType(c: UserClass, name: string, email: string, password: string)
    ensures Construct(c, name, email, password).Type() == TypeName(c)
    ensures forall d: UserClass :: TypeName(d) == TypeName(c) ==> d == c
  {
  }

  /** The keys of `UserFactory.userTypes`. */
  function ClassOfKey(key: string): Option<UserClass>
  {
    if key == "user" then Some(User)
    else if key == "admin" then Some(Admin)
    else if key == "moderator" then Some(Moderator)
    else if key == "superadmin" then Some(SuperAdmin)
    else None
  }

  /** `UserFactory.createUser(type, name, email, password)`: the class is looked
      up by the lower-cased type; an unknown type throws. */
  function CreateUser(typ: string, name: string, email: string, password: string): (r: Result<Person, string>)
    ensures r.Success? <==> ClassOfKey(Lower(typ)).Some?
    ensures r.Success? ==> Lower(r.value.Type()) == Lower(typ)
    ensures r.Success? ==> r.value.name == name && r.value.email == email && r.value.password == password
    ensures r.Failure? ==> r.error == "Невідомий тип користувача: " + typ
  {
    match ClassOfKey(Lower(typ))
    case Some(c) => Success(Construct(c, name, email, password))
    case None => Failure("Невідомий тип користувача: " + typ)
  }

  /** Every class can be built from its own type name, in any letter case. */
  lemma CreateUserByTypeName(c: UserClass, name: string, email: string, password: string)
    ensures CreateUser(TypeName(c), name, email, password) == Success(Construct(c, name, email, password))
  {
    var n := TypeName(c);
    match c
    case User => assert Lower(n) == "user";
    case Admin => assert Lower(n) == "admin";
    case Moderator => assert Lower(n) == "moderator";
    case SuperAdmin => assert Lower(n) == "superadmin";
  }

  /** The lookup is case-insensitive: a type and its lower-case form build the
      same user. */
  lemma CreateUserCaseInsensitive(typ: string, name: string, email: string, password: string)
    ensures CreateUser(typ, name, email, password).Success? == CreateUser(Lower(typ), name, email, password).Success?
    ensures CreateUser(typ, name, email, password).Success? ==>
      CreateUser(typ, name, email, password) == CreateUser(Lower(typ), name, email, password)
  {
    LowerIdempotent(typ);
  }

  /** The text `logAction` appends. */
  function LogEntry(timestamp: string, userName: string, action: string): string
  {
    "[" + timestamp + "] [" + userName + "] виконав дію: " + action
  }

  class Logger {
    var logs: seq<string>

    constructor ()
      ensures logs == []
    {
      logs := [];
    }

    /** `logAction(action, user)`: exactly one entry appended at the end. */
    method LogAction(action: string, user: Person, timestamp: string)
      modifies this
      ensures logs == old(logs) + [LogEntry(timestamp, user.name, action)]
    {
      logs := logs + [LogEntry(timestamp, user.name, action)];
    }

    /** `Admin.deleteUser(user)`, performed by `actor`. */
    method LogDeleteUser(actor: Person, user: Person, timestamp: string)
      requires IsAdmin(actor)
      modifies this
      ensures logs == old(logs) + [LogEntry(timestamp, actor.name, "видалив користувача " + user.name)]
    {
      LogAction("видалив користувача " + user.name, actor, timestamp);
    }

    /** `Moderator.warnUser(user)`, performed by `actor`. */
    method LogWarnUser(actor: Person, user: Person, timestamp: string)
      requires IsModerator(actor)
      modifies this
      ensures logs == old(logs) + [LogEntry(timestamp, actor.name, "видав попередження користувачу " + user.name)]
    {
      LogAction("видав попередження користувачу " + user.name, actor, timestamp);
    }

    /** `Moderator.blockUser(user)`, performed by `actor`. */
    method LogBlockUser(actor: Person, user: Person, timestamp: string)
      requires IsModerator(actor)
      modifies this
      ensures logs == old(logs) + [LogEntry(timestamp, actor.name, "заблокував користувача " + user.name)]
    {
      LogAction("заблокував користувача " + user.name, actor, timestamp);
    }

    /** `SuperAdmin.createUser(type, ...)`: the factory runs first, so an
        unknown type throws before anything is logged. */
    method SuperAdminCreateUser(actor: Person, typ: string, name: string, email: string, password: string, timestamp: string)
      returns (r: Result<Person, string>)
      requires actor.cls == SuperAdmin
      modifies this
      ensures r == CreateUser(typ, name, email, password)
      ensures r.Success? ==> logs == old(logs) + [LogEntry(timestamp, actor.name, "створив користувача " + name + " типу " + typ)]
      ensures r.Failure? ==> logs == old(logs)
    {
      r := CreateUser(typ, name, email, password);
      if r.Success? {
        LogAction("створив користувача " + name + " типу " + typ, actor, timestamp);
      }
    }
  }

  /** The static slot `Logger.instance`. */
  class LoggerSlot {
    var instance: Logger?

    constructor ()
      ensures instance == null
    {
      instance := null;
    }

    /** `Logger.getInstance()`: creates the logger on first use and from then on
        always returns that same object. */
    method GetInstance() returns (logger: Logger)
      modifies this
      ensures instance == logger
      ensures old(instance) != null ==> logger == old(instance)
      ensures old(instance) == null ==> fresh(logger) && logger.logs == []
    {
      if instance == null {
        instance := new Logger();
      }
      logger := instance;
    }
  }

  /** Index of the first user satisfying `p`, if any (`findIndex`/`find`). */
  function FirstIndex(users: seq<Person>, p: Person -> bool): (r: Option<nat>)
    ensures r.Some? ==> r.value < |users| && p(users[r.value]) && forall j :: 0 <= j < r.value ==> !p(users[j])
    ensures r.None? ==> forall j :: 0 <= j < |users| ==> !p(users[j])
    decreases |users|
  {
    if |users| == 0 then None
    else if p(users[0]) then Some(0)
    else match FirstIndex(users[1..], p)
      case Some(i) => Some(i + 1)
      case None => None
  }

  /** The first user satisfying `p`, if any. */
  function Find(users: seq<Person>, p: Person -> bool): Option<Person>
  {
    match FirstIndex(users, p)
    case Some(i) => Some(users[i])
    case None => None
  }

  class UserManager {
    var users: seq<Person>

    constructor ()
      ensures users == []
    {
      users := [];
    }

    /** `addUser(user)`: appended at the end, duplicates allowed. */
    method AddUser(user: Person)
      modifies this
      ensures users == old(users) + [user]
    {
      users := users + [user];
    }

    /** The scan shared by `find` and `findIndex`. */
    method IndexWhere(p: Person -> bool) returns (index: Option<nat>)
      ensures index == FirstIndex(users, p)
    {
      var i := 0;
      while i < |users|
        invariant 0 <= i <= |users|
        invariant forall j :: 0 <= j < i ==> !p(users[j])
      {
        if p(users[i]) {
          FirstIndexIsFirst(users, p, i);
          return Some(i);
        }
        i := i + 1;
      }
      FirstIndexNone(users, p);
      return None;
    }

    /** `getUserByEmail(email)`: the first user with exactly that email. */
    method GetUserByEmail(email: string) returns (u: Option<Person>)
      ensures u == Find(users, (x: Person) => x.email == email)
      ensures u.Some? ==> u.value in users && u.value.email == email
      ensures u.None? <==> forall x :: x in users ==> x.email != email
    {
      var i := IndexWhere((x: Person) => x.email == email);
      u := if i.Some? then Some(users[i.value]) else None;
    }

    /** `removeUser(email)`: removes only the first user with that email. */
    method RemoveUser(email: string) returns (removed: bool)
      modifies this
      ensures removed <==> exists x :: x in old(users) && x.email == email
      ensures match FirstIndex(old(users), (x: Person) => x.email == email)
        case Some(i) => users == old(users)[..i] + old(users)[i + 1..]
        case None => users == old(users)
    {
      var i := IndexWhere((x: Person) => x.email == email);
      if i.Some? {
        users := users[..i.value] + users[i.value + 1..];
        return true;
      }
      return false;
    }

    /** `findAdmin()`: the first `instanceof Admin`, which includes a SuperAdmin. */
    method FindAdmin() returns (u: Option<Person>)
      ensures u == Find(users, IsAdmin)
    {
      var i := IndexWhere(IsAdmin);
      u := if i.Some? then Some(users[i.value]) else None;
    }

    /** `findModerator()`: the first `instanceof Moderator`. */
    method FindModerator() returns (u: Option<Person>)
      ensures u == Find(users, IsModerator)
    {
      var i := IndexWhere(IsModerator);
      u := if i.Some? then Some(users[i.value]) else None;
    }
  }

  lemma {:induction false} FirstIndexIsFirst(users: seq<Person>, p: Person -> bool, i: nat)
    requires i < |users| && p(users[i]) && forall j :: 0 <= j < i ==> !p(users[j])
    ensures FirstIndex(users, p) == Some(i)
    decreases i
  {
    if i > 0 {
      FirstIndexIsFirst(users[1..], p, i - 1);
    }
  }

  lemma {:induction false} FirstIndexNone(users: seq<Person>, p: Person -> bool)
    requires forall j :: 0 <= j < |users| ==> !p(users[j])
    ensures FirstIndex(users, p) == None
    decreases |users|
  {
    if |users| > 0 {
      FirstIndexNone(users[1..], p);
    }
  }

  /** `removeUser` keeps every other user in order: removing the first match
      drops exactly one occurrence of it. */
  lemma RemoveFirstKeepsRest(users: seq<Person>, email: string, i: nat)
    requires FirstIndex(users, (x: Person) => x.email == email) == Some(i)
    ensures var rest := users[..i] + users[i + 1..];
      |rest| == |users| - 1 && multiset(rest) + multiset{users[i]} == multiset(users)
  {
    assert users == users[..i] + [users[i]] + users[i + 1..];
  }

  /** A SuperAdmin counts as an admin: with a SuperAdmin first and an Admin
      later, `findAdmin` returns the SuperAdmin. */
  lemma FindAdminFindsSuperAdmin(s: Person, rest: seq<Person>)
    requires s.cls == SuperAdmin
    ensures Find([s] + rest, IsAdmin) == Some(s)
  {
  }
}
