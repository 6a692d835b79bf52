/** The directory store of 2/1/index.js (`UserDataBase`). The IndexedDB object
    store `users` (key path `id`) is an in-memory map from id to stored record,
    together with the list of its keys in ascending key order, which is the
    order in which `getAll()` returns records. */
module Directory {
  import opened Wrappers
  import opened Text
  import opened Roles
  import opened Accounts
  import opened Codec
  import UserEntity

  /** A `SearchUser` criteria object. A string field that is missing, empty or
      otherwise falsy is `""`; `isDeleted` is `None` unless it is a boolean. */
  datatype Criteria = Criteria(
    q: string,
    id: string,
    name: string,
    email: string,
    role: string,
    isDeleted: Option<bool>)

  /** The criteria object `{}`. */
  const NoCriteria: Criteria := Criteria("", "", "", "", "", None)

  /** The filter callback of `SearchUser`: every present criterion must hold. */
  predicate Matches(u: Account, c: Criteria)
  {
    var q := Lower(c.q);
    && (c.id == "" || u.id == c.id)
    && (q == "" || Contains(Lower(u.name), q) || Contains(Lower(u.email), q))
    && (c.name == "" || Contains(Lower(u.name), Lower(c.name)))
    && (c.email == "" || Contains(Lower(u.email), Lower(c.email)))
    && (c.role == "" || Tag(u.role) == c.role)
    && (c.isDeleted.None? || u.isDeleted == c.isDeleted.value)
  }

  /** `users.filter(...)`: the accounts that match, in their original order. */
  function Filter(users: seq<Account>, c: Criteria): (r: seq<Account>)
    ensures forall x :: x in r <==> x in users && Matches(x, c)
    ensures |r| <= |users|
    ensures |r| == |users| <==> forall x :: x in users ==> Matches(x, c)
    decreases |users|
  {
    if |users| == 0 then []
    else
      var rest := Filter(users[1..], c);
      assert forall x :: x in users <==> x == users[0] || x in users[1..];
      if Matches(users[0], c) then [users[0]] + rest else rest
  }

  /** `r` is `s` with some elements left out, the rest in their order. */
  predicate IsSubsequence<T(==)>(r: seq<T>, s: seq<T>)
    decreases |s|
  {
    if |r| == 0 then true
    else if |s| == 0 then false
    else if r[0] == s[0] then IsSubsequence(r[1..], s[1..])
    else IsSubsequence(r, s[1..])
  }

  lemma {:induction false} FilterIsSubsequence(users: seq<Account>, c: Criteria)
    ensures IsSubsequence(Filter(users, c), users)
    decreases |users|
  {
    if |users| > 0 {
      FilterIsSubsequence(users[1..], c);
      var rest := Filter(users[1..], c);
      if Matches(users[0], c) {
        assert ([users[0]] + rest)[1..] == rest;
      } else if |rest| > 0 {
        SubsequenceSkip(rest, users);
      }
    }
  }

  lemma SubsequenceSkip<T>(r: seq<T>, s: seq<T>)
    requires |s| > 0 && IsSubsequence(r, s[1..])
    ensures IsSubsequence(r, s)
    decreases |s|, 0
  {
    if |r| > 0 && r[0] == s[0] {
      SubsequenceTail(r, s[1..]);
    }
  }

  lemma SubsequenceTail<T>(r: seq<T>, s: seq<T>)
    requires |r| > 0 && IsSubsequence(r, s)
    ensures IsSubsequence(r[1..], s)
    decreases |s|, 1
  {
    if |s| > 0 && r[0] != s[0] {
      SubsequenceTail(r, s[1..]);
      SubsequenceSkip(r[1..], s);
    }
  }

  /** `all.map(d => User.deserialize(d))`, one fresh UUID per record. */
  function DeserializeAll(all: seq<StoredData>, freshIds: seq<string>): (r: seq<Account>)
    requires |freshIds| == |all|
  {
    seq(|all|, i requires 0 <= i < |all| => Deserialize(all[i], freshIds[i]))
  }

  /** `SearchUser(criteria)` over the records `getAll()` returned: no criteria
      or `{}` gives every deserialized user, otherwise the filter applies. */
  function SearchAccounts(all: seq<StoredData>, criteria: Option<Criteria>, freshIds: seq<string>): seq<Account>
    requires |freshIds| == |all|
  {
    var users := DeserializeAll(all, freshIds);
    if criteria.None? || criteria.value == NoCriteria then users
    else Filter(users, criteria.value)
  }

  /** Whether `SearchUser(criteria)` keeps an account. */
  predicate Selected(criteria: Option<Criteria>, u: Account)
  {
    criteria.None? || Matches(u, criteria.value)
  }

  /** Empty criteria match every account. */
  lemma NoCriteriaMatchesAll(u: Account)
    ensures Matches(u, NoCriteria)
  {
  }

  /** The search result is an order-preserving sublist of the deserialized
      records holding exactly those that satisfy every present criterion; with
      no criteria or `{}` it is the whole list. */
  lemma SearchSpec(all: seq<StoredData>, criteria: Option<Criteria>, freshIds: seq<string>)
    requires |freshIds| == |all|
    ensures var r := SearchAccounts(all, criteria, freshIds);
      && IsSubsequence(r, DeserializeAll(all, freshIds))
      && (forall x :: x in r <==> x in DeserializeAll(all, freshIds) && Selected(criteria, x))
      && (criteria.None? || criteria == Some(NoCriteria) ==> r == DeserializeAll(all, freshIds))
  {
    var users := DeserializeAll(all, freshIds);
    if criteria.None? || criteria.value == NoCriteria {
      SubsequenceRefl(users);
      forall x | x in users ensures Selected(criteria, x) {
        NoCriteriaMatchesAll(x);
      }
    } else {
      FilterIsSubsequence(users, criteria.value);
    }
  }

  /** `{ role: 'Admin', isDeleted: false }` keeps exactly the active admins:
      a deleted admin is left out, and so is a super admin, whose role tag
      differs. */
  lemma ActiveAdminSearch(users: seq<Account>)
    ensures var c := Criteria("", "", "", "", "Admin", Some(false));
      forall x :: x in Filter(users, c) <==> x in users && x.role == Admin && !x.isDeleted
  {
    var c := Criteria("", "", "", "", "Admin", Some(false));
    assert Lower("") == "";
    forall x: Account ensures Matches(x, c) <==> x.role == Admin && !x.isDeleted {
      assert Tag(x.role) == "Admin" <==> x.role == Admin;
    }
  }

  lemma {:induction false} SubsequenceRefl<T>(s: seq<T>)
    ensures IsSubsequence(s, s)
    decreases |s|
  {
    if |s| > 0 {
      SubsequenceRefl(s[1..]);
    }
  }

  /** Ordering of IndexedDB string keys: lexicographic on characters. */
  predicate StrLt(a: string, b: string)
    decreases |a|
  {
    if |a| == 0 then |b| > 0
    else if |b| == 0 then false
    else if a[0] != b[0] then a[0] < b[0]
    else StrLt(a[1..], b[1..])
  }

  lemma {:induction false} StrLtIrreflexive(a: string)
    ensures !StrLt(a, a)
    decreases |a|
  {
    if |a| > 0 {
      StrLtIrreflexive(a[1..]);
    }
  }

  lemma {:induction false} StrLtTrans(a: string, b: string, c: string)
    requires StrLt(a, b) && StrLt(b, c)
    ensures StrLt(a, c)
    decreases |a|
  {
    if |a| > 0 && |b| > 0 && |c| > 0 && a[0] == b[0] && b[0] == c[0] {
      StrLtTrans(a[1..], b[1..], c[1..]);
    }
  }

  lemma {:induction false} StrLtTotal(a: string, b: string)
    requires a != b
    ensures StrLt(a, b) || StrLt(b, a)
    decreases |a|
  {
    if |a| > 0 && |b| > 0 && a[0] == b[0] {
      assert a == [a[0]] + a[1..] && b == [b[0]] + b[1..];
      StrLtTotal(a[1..], b[1..]);
    }
  }

  /** Keys in strictly ascending order (so also without duplicates). */
  predicate Sorted(keys: seq<string>)
  {
    forall i, j :: 0 <= i < j < |keys| ==> StrLt(keys[i], keys[j])
  }

  /** The records in the order of `keys`. */
  function RecordsInOrder(keys: seq<string>, records: map<string, StoredData>): (r: seq<StoredData>)
    requires forall k :: k in keys ==> k in records
    ensures |r| == |keys|
  {
    seq(|keys|, i requires 0 <= i < |keys| => records[keys[i]])
  }

  /** Every record is stored under its own non-empty id. */
  predicate KeyedById(records: map<string, StoredData>)
  {
    forall k | k in records :: k != "" && records[k].id == Some(k)
  }

  /** A record stored under its id deserializes to the same account whatever
      fresh id the constructor drew. */
  lemma DeserializeStored(d: StoredData, k: string, freshId: string)
    requires k != "" && d.id == Some(k)
    ensures Deserialize(d, freshId) == Deserialize(d, k)
    ensures Deserialize(d, k).id == k
  {
  }

  /** The deserialized store holds exactly one account per key, the one stored
      under it. */
  lemma AllAccounts(keys: seq<string>, records: map<string, StoredData>, freshIds: seq<string>)
    requires forall k :: k in records <==> k in keys
    requires KeyedById(records)
    requires |freshIds| == |keys|
    ensures forall x :: (x in DeserializeAll(RecordsInOrder(keys, records), freshIds)
      <==> x.id in records && x == Deserialize(records[x.id], x.id))
  {
    var users := DeserializeAll(RecordsInOrder(keys, records), freshIds);
    forall x | x in users ensures x.id in records && x == Deserialize(records[x.id], x.id) {
      var j :| 0 <= j < |users| && users[j] == x;
      DeserializeStored(records[keys[j]], keys[j], freshIds[j]);
    }
    forall x: Account | x.id in records && x == Deserialize(records[x.id], x.id) ensures x in users {
      var j :| 0 <= j < |keys| && keys[j] == x.id;
      DeserializeStored(records[keys[j]], keys[j], freshIds[j]);
      assert users[j] == x;
    }
  }

  /** Ids of a list of accounts. */
  function IdsOf(list: seq<Account>): set<string>
  {
    set x | x in list :: x.id
  }

  /** What a deletion by `criteria` leaves under key `k`: the record of a
      matching account rewritten with the flag set, any other record as it was. */
  function AfterSoftDelete(records: map<string, StoredData>, criteria: Option<Criteria>, k: string): StoredData
    requires k in records
  {
    var u := Deserialize(records[k], k);
    if Selected(criteria, u) then Serialize(u.(isDeleted := true)) else records[k]
  }

  lemma IdsOfSnoc(list: seq<Account>, i: nat)
    requires i < |list|
    ensures IdsOf(list[..i + 1]) == IdsOf(list[..i]) + {list[i].id}
  {
    assert list[..i + 1] == list[..i] + [list[i]];
  }

  /** The store after the records under `ids` were rewritten with the flag set. */
  function Marked(records: map<string, StoredData>, ids: set<string>): map<string, StoredData>
  {
    map k | k in records :: if k in ids then Serialize(Deserialize(records[k], k).(isDeleted := true)) else records[k]
  }

  /** Writing back one more deleted account extends the set of marked ids. */
  lemma MarkOne(records: map<string, StoredData>, ids: set<string>, id: string)
    requires id in records
    ensures Marked(records, ids)[id := Serialize(Deserialize(records[id], id).(isDeleted := true))]
      == Marked(records, ids + {id})
  {
  }

  /** The ids of a search result are exactly the keys whose account is selected. */
  lemma SelectedIds(records: map<string, StoredData>, criteria: Option<Criteria>, list: seq<Account>)
    requires KeyedById(records)
    requires forall x :: x in list <==> x.id in records && x == Deserialize(records[x.id], x.id) && Selected(criteria, x)
    ensures forall k | k in records :: k in IdsOf(list) <==> Selected(criteria, Deserialize(records[k], k))
    ensures forall k | k in records :: Marked(records, IdsOf(list))[k] == AfterSoftDelete(records, criteria, k)
  {
    forall k | k in records ensures k in IdsOf(list) <==> Selected(criteria, Deserialize(records[k], k)) {
      DeserializeStored(records[k], k, k);
      if Selected(criteria, Deserialize(records[k], k)) {
        assert Deserialize(records[k], k) in list;
      }
    }
  }

  /** `DeleteUser(criteria)`: a string is the criteria `{id: criteria}`; any other
      argument is passed to `SearchUser` as it is. */
  datatype DeleteArgument = IdString(id: string) | CriteriaObject(criteria: Option<Criteria>)

  function DeleteCriteria(arg: DeleteArgument): Option<Criteria>
  {
    match arg
    case IdString(id) => Some(NoCriteria.(id := id))
    case CriteriaObject(c) => c
  }

  /** An empty id string is falsy, so `DeleteUser("")` filters on nothing and
      selects every record, as does `DeleteUser()` without an argument. */
  lemma DeleteByEmptyIdSelectsAll(u: Account)
    ensures Selected(DeleteCriteria(IdString("")), u)
    ensures Selected(DeleteCriteria(CriteriaObject(None)), u)
  {
  }

  /** A non-empty id string selects exactly the account with that id. */
  lemma DeleteByIdSelectsOne(id: string, u: Account)
    requires id != ""
    ensures Selected(DeleteCriteria(IdString(id)), u) <==> u.id == id
  {
  }

  class UserDataBase {
    var records: map<string, StoredData>
    var keys: seq<string>

    ghost predicate Valid()
      reads this
    {
      && (forall k :: k in records <==> k in keys)
      && Sorted(keys)
      && KeyedById(records)
    }

    /** The records in the order `getAll()` returns them. */
    function All(): (r: seq<StoredData>)
      reads this
      requires Valid()
      ensures |r| == |keys|
    {
      RecordsInOrder(keys, records)
    }

    constructor ()
      ensures Valid() && records == map[] && keys == []
    {
      records := map[];
      keys := [];
    }

    /** `#put(user)` of a payload: insert or overwrite under its id. */
    method Put(payload: StoredData)
      requires Valid()
      requires payload.id.Some? && payload.id.value != ""
      modifies this
      ensures Valid()
      ensures records == old(records)[payload.id.value := payload]
      ensures payload.id.value in old(records) ==> keys == old(keys)
    {
      var k := payload.id.value;
      if k !in records {
        var i := 0;
        while i < |keys| && StrLt(keys[i], k)
          invariant 0 <= i <= |keys|
          invariant forall j :: 0 <= j < i ==> StrLt(keys[j], k)
        {
          i := i + 1;
        }
        forall j | i <= j < |keys| ensures StrLt(k, keys[j]) {
          assert k != keys[i];
          StrLtTotal(k, keys[i]);
          if j > i {
            StrLtTrans(k, keys[i], keys[j]);
          }
        }
        var newKeys := keys[..i] + [k] + keys[i..];
        assert forall a, b :: 0 <= a < b < |newKeys| ==> StrLt(newKeys[a], newKeys[b]) by {
          forall a, b | 0 <= a < b < |newKeys| ensures StrLt(newKeys[a], newKeys[b]) {
            if b < i {
              assert newKeys[a] == keys[a] && newKeys[b] == keys[b];
            } else if b == i {
              assert newKeys[b] == k && newKeys[a] == keys[a];
            } else if a < i {
              assert newKeys[a] == keys[a] && newKeys[b] == keys[b - 1];
              StrLtTrans(keys[a], k, keys[b - 1]);
            } else if a == i {
              assert newKeys[a] == k && newKeys[b] == keys[b - 1];
            } else {
              assert newKeys[a] == keys[a - 1] && newKeys[b] == keys[b - 1];
            }
          }
        }
        assert forall x :: x in newKeys <==> x == k || x in keys by {
          assert keys == keys[..i] + keys[i..];
        }
        keys := newKeys;
      }
      records := records[k := payload];
    }

    /** `CreateUser(user)`: an upsert of `user.serialize()`, like `saveUser`. */
    method CreateUser(user: UserEntity.User) returns (ok: bool)
      requires Valid() && user.Valid()
      modifies this
      ensures Valid() && ok
      ensures records == old(records)[user.id := user.Serialize()]
    {
      Put(user.Serialize());
      ok := true;
    }

    /** `saveUser(user)`: the same upsert as `CreateUser`. */
    method SaveUser(user: UserEntity.User) returns (ok: bool)
      requires Valid() && user.Valid()
      modifies this
      ensures Valid() && ok
      ensures records == old(records)[user.id := user.Serialize()]
    {
      ok := CreateUser(user);
    }

    /** `SearchUser(criteria)`: read every record, deserialize, filter. */
    method SearchUser(criteria: Option<Criteria>, freshIds: seq<string>) returns (users: seq<Account>)
      requires Valid() && |freshIds| == |keys|
      ensures users == SearchAccounts(All(), criteria, freshIds)
      ensures forall x :: x in users <==> x.id in records && x == Deserialize(records[x.id], x.id) && Selected(criteria, x)
    {
      users := SearchAccounts(All(), criteria, freshIds);
      SearchSpec(All(), criteria, freshIds);
      AllAccounts(keys, records, freshIds);
    }

    /** The loop shared by `DeleteUser` and `DeleteAllUsers`: search, then set
        the flag on every match and write it back. */
    method SoftDeleteMatches(criteria: Option<Criteria>, freshIds: seq<string>) returns (count: nat)
      requires Valid() && |freshIds| == |keys|
      modifies this
      ensures Valid() && keys == old(keys)
      ensures count == |SearchAccounts(old(All()), criteria, freshIds)|
      ensures records.Keys == old(records).Keys
      ensures forall k | k in records :: records[k] == AfterSoftDelete(old(records), criteria, k)
    {
      var list := SearchUser(criteria, freshIds);
      SelectedIds(records, criteria, list);
      WriteBackDeleted(list);
      count := |list|;
    }

    /** `for (const u of list) { u.isDeleted = true; await this.#put(u); }` for
        accounts read from this store. */
    method WriteBackDeleted(list: seq<Account>)
      requires Valid()
      requires forall j | 0 <= j < |list| :: list[j].id in records && list[j] == Deserialize(records[list[j].id], list[j].id)
      modifies this
      ensures Valid() && keys == old(keys)
      ensures records == Marked(old(records), IdsOf(list))
    {
      ghost var before := records;
      var i := 0;
      while i < |list|
        invariant 0 <= i <= |list|
        invariant Valid() && keys == old(keys)
        invariant records == Marked(before, IdsOf(list[..i]))
      {
        var u := list[i].(isDeleted := true);
        IdsOfSnoc(list, i);
        MarkOne(before, IdsOf(list[..i]), list[i].id);
        Put(Serialize(u));
        i := i + 1;
      }
      assert list[..i] == list;
    }

    /** `DeleteUser(criteria)`: soft-delete every match; the number matched. */
    method DeleteUser(arg: DeleteArgument, freshIds: seq<string>) returns (count: nat)
      requires Valid() && |freshIds| == |keys|
      modifies this
      ensures Valid() && keys == old(keys)
      ensures count == |SearchAccounts(old(All()), DeleteCriteria(arg), freshIds)|
      ensures records.Keys == old(records).Keys
      ensures forall k | k in records :: records[k] == AfterSoftDelete(old(records), DeleteCriteria(arg), k)
    {
      count := SoftDeleteMatches(DeleteCriteria(arg), freshIds);
    }

    /** `DeleteAllUsers(criteria)`: missing criteria become `{}`, i.e. all. */
    method DeleteAllUsers(criteria: Option<Criteria>, freshIds: seq<string>) returns (count: nat)
      requires Valid() && |freshIds| == |keys|
      modifies this
      ensures Valid() && keys == old(keys)
      ensures count == |SearchAccounts(old(All()), Some(criteria.GetOr(NoCriteria)), freshIds)|
      ensures records.Keys == old(records).Keys
      ensures forall k | k in records :: records[k] == AfterSoftDelete(old(records), Some(criteria.GetOr(NoCriteria)), k)
    {
      count := SoftDeleteMatches(Some(if criteria.Some? then criteria.value else NoCriteria), freshIds);
    }
  }
}
