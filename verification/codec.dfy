/** The storage codec of the user directory (2/1/index.js, `serialize`,
    `hydrateFromSerialized` and `static deserialize`). A stored record is a
    plain object whose fields may be missing, hence the `Option` fields. */
module Codec {
  import opened Wrappers
  import opened Roles
  import opened Accounts

  /** The plain object kept in the `users` store. `None` is a missing field. */
  datatype StoredData = StoredData(
    id: Option<string>,
    name: Option<string>,
    email: Option<string>,
    role: Option<string>,
    isDeleted: Option<bool>,
    password: Option<string>,
    warnings: Option<int>,
    mutedUntil: Option<int>)

  /** JavaScript's `v || fallback` on a string field: a missing or empty string
      gives the fallback. */
  function OrElse(v: Option<string>, fallback: string): (r: string)
    ensures r == fallback || (v == Some(r) && r != "")
  {
    if v.Some? && v.value != "" then v.value else fallback
  }

  /** `Number(v || 0)` on a numeric field. */
  function OrZero(v: Option<int>): int
  {
    if v.Some? then v.value else 0
  }

  /** `serialize()`: every field, the private ones included, under its name. */
  function Serialize(a: Account): StoredData
  {
    StoredData(Some(a.id), Some(a.name), Some(a.email), Some(Tag(a.role)), Some(a.isDeleted),
               Some(a.password), Some(a.warnings), Some(a.mutedUntil))
  }

  /** `hydrateFromSerialized(data)`: the id is replaced only by a non-empty one;
      the flag, password, warnings and deadline are always replaced. Name,
      email and role are left alone. */
  function Hydrate(a: Account, data: StoredData): Account
  {
    a.(id := OrElse(data.id, a.id),
       isDeleted := data.isDeleted == Some(true),
       password := OrElse(data.password, ""),
       warnings := OrZero(data.warnings),
       mutedUntil := OrZero(data.mutedUntil))
  }

  /** `User.deserialize(data)`: build the class named by the `role` tag (plain
      User when it is missing or unknown) with a fresh id, then hydrate it. */
  function Deserialize(data: StoredData, freshId: string): Account
  {
    var role := RoleOfTag(data.role);
    var name := OrElse(data.name, "");
    var email := OrElse(data.email, "");
    var password := OrElse(data.password, "");
    var instance := NewAccount(freshId, name, email, password, role);
    Hydrate(instance, data.(password := Some(password)))
  }

  /** Round trip: deserializing a serialized account restores every field for
      every role, zero and deleted values included. Only the id needs care: an
      empty id is falsy and would be replaced by the fresh one. */
  lemma RoundTrip(a: Account, freshId: string)
    requires a.id != ""
    ensures Deserialize(Serialize(a), freshId) == a
  {
    TagRoundTrip(a.role);
  }

  /** The role of a deserialized record is the one its tag names, and plain
      User when the tag is missing or unknown. */
  lemma DeserializeRole(data: StoredData, freshId: string)
    ensures Deserialize(data, freshId).role == RoleOfTag(data.role)
    ensures (forall r: Role :: data.role != Some(Tag(r))) ==> Deserialize(data, freshId).role == User
  {
    if forall r: Role :: data.role != Some(Tag(r)) {
      UnknownTagIsUser(data.role);
    }
  }

  /** The fresh id survives only when the record has no usable id of its own. */
  lemma DeserializeId(data: StoredData, freshId: string)
    ensures data.id.Some? && data.id.value != "" ==> Deserialize(data, freshId).id == data.id.value
    ensures !(data.id.Some? && data.id.value != "") ==> Deserialize(data, freshId).id == freshId
  {
  }

  /** Deserializing normalises a record once and for all: serializing the
      result and deserializing again changes nothing. */
  lemma DeserializeNormalises(data: StoredData, freshId: string, otherId: string)
    requires freshId != ""
    ensures Deserialize(Serialize(Deserialize(data, freshId)), otherId) == Deserialize(data, freshId)
  {
    RoundTrip(Deserialize(data, freshId), otherId);
  }
}
