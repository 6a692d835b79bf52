/** The four roles of the user directory (2/1/index.js), their storage tags and
    the two capability predicates every gated action consults. */
module Roles {
  import opened Wrappers

  /** `User`, `Admin`, `Moderator` and `SuperAdmin`. In the source SuperAdmin
      is a subclass of Admin; Moderator and Admin are unrelated. */
  datatype Role = User | Admin | Moderator | SuperAdmin

  /** The string stored in the `role` field for each role. */
  function Tag(r: Role): string
  {
    match r
    case User => "User"
    case Admin => "Admin"
    case Moderator => "Moderator"
    case SuperAdmin => "SuperAdmin"
  }

  /** The class `deserialize` instantiates for a stored `role` tag: a missing
      or unknown tag falls back to the plain User class. */
  function RoleOfTag(tag: Option<string>): (r: Role)
    ensures tag == Some(Tag(r)) || r == User
  {
    if tag == Some("Admin") then Admin
    else if tag == Some("Moderator") then Moderator
    else if tag == Some("SuperAdmin") then SuperAdmin
    else User
  }

  /** Decoding a role's own tag gives the role back, so the tag is injective. */
  lemma TagRoundTrip(r: Role)
    ensures RoleOfTag(Some(Tag(r))) == r
  {
  }

  /** Any tag that is not one of the four names decodes to User. */
  lemma UnknownTagIsUser(tag: Option<string>)
    requires forall r: Role :: tag != Some(Tag(r))
    ensures RoleOfTag(tag) == User
  {
    assert tag != Some(Tag(Admin)) && tag != Some(Tag(Moderator)) && tag != Some(Tag(SuperAdmin));
  }

  /** Classes that inherit Admin's `deleteUser` and `resetPassword`. */
  predicate IsAdminClass(r: Role)
  {
    r == Admin || r == SuperAdmin
  }

  /** `canModerate(actor)`: a present actor whose role is Moderator. A
      SuperAdmin does not qualify. */
  predicate CanModerate(actor: Option<Role>)
  {
    actor.Some? && actor.value == Moderator
  }

  /** `canAdmin(actor)`: a present actor whose role is Admin or SuperAdmin. */
  predicate CanAdmin(actor: Option<Role>)
  {
    actor.Some? && IsAdminClass(actor.value)
  }

  /** The two capabilities are disjoint and a plain User holds neither. */
  lemma CapabilitiesDisjoint(actor: Option<Role>)
    ensures !(CanModerate(actor) && CanAdmin(actor))
    ensures actor == Some(User) || actor == None ==> !CanModerate(actor) && !CanAdmin(actor)
    ensures CanAdmin(Some(SuperAdmin)) && !CanModerate(Some(SuperAdmin))
  {
  }
}
