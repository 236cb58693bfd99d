/** The user profile record (app/src/types/user.ts), the `Partial<UserProfile>`
    merge the auth slice applies to it, and its JSON form as it is written to
    and read back from storage. */
module Users {
  import opened Wrappers
  import opened Json

  datatype UserRole = Admin | Editor | Viewer | Guest

  /** `ID = string | number`. */
  datatype Id = IdText(text: string) | IdNumber(number: int)

  /** An ISO-8601 text. */
  type Timestamp = string

  /** Optional properties (`fullName?` and friends) are `Option`s. */
  datatype UserProfile = UserProfile(
    id: Id,
    email: string,
    fullName: Option<string>,
    displayName: Option<string>,
    avatarUrl: Option<string>,
    roles: seq<UserRole>,
    isEmailVerified: bool,
    createdAt: Timestamp,
    lastUpdatedAt: Timestamp,
    preferences: Option<Json>,
    isActive: bool)

  /** `Partial<UserProfile>`: `None` is a property the update does not have;
      an optional property can be present with the value `undefined`
      (`Some(None)`), which the spread copies like any other value. */
  datatype ProfileUpdate = ProfileUpdate(
    id: Option<Id>,
    email: Option<string>,
    fullName: Option<Option<string>>,
    displayName: Option<Option<string>>,
    avatarUrl: Option<Option<string>>,
    roles: Option<seq<UserRole>>,
    isEmailVerified: Option<bool>,
    createdAt: Option<Timestamp>,
    lastUpdatedAt: Option<Timestamp>,
    preferences: Option<Option<Json>>,
    isActive: Option<bool>)

  /** The empty update `{}`. */
  const NoChanges: ProfileUpdate :=
    ProfileUpdate(None, None, None, None, None, None, None, None, None, None, None)

  /** `{ ...user, ...updates }`: every property the update carries replaces
      the user's, and every other property keeps its value. */
  function Merge(u: UserProfile, p: ProfileUpdate): UserProfile {
    UserProfile(
      p.id.GetOr(u.id),
      p.email.GetOr(u.email),
      p.fullName.GetOr(u.fullName),
      p.displayName.GetOr(u.displayName),
      p.avatarUrl.GetOr(u.avatarUrl),
      p.roles.GetOr(u.roles),
      p.isEmailVerified.GetOr(u.isEmailVerified),
      p.createdAt.GetOr(u.createdAt),
      p.lastUpdatedAt.GetOr(u.lastUpdatedAt),
      p.preferences.GetOr(u.preferences),
      p.isActive.GetOr(u.isActive))
  }

  /** The update `{ ...p, ...q }`: `q`'s properties win. */
  function Then(p: ProfileUpdate, q: ProfileUpdate): ProfileUpdate {
    ProfileUpdate(
      if q.id.Some? then q.id else p.id,
      if q.email.Some? then q.email else p.email,
      if q.fullName.Some? then q.fullName else p.fullName,
      if q.displayName.Some? then q.displayName else p.displayName,
      if q.avatarUrl.Some? then q.avatarUrl else p.avatarUrl,
      if q.roles.Some? then q.roles else p.roles,
      if q.isEmailVerified.Some? then q.isEmailVerified else p.isEmailVerified,
      if q.createdAt.Some? then q.createdAt else p.createdAt,
      if q.lastUpdatedAt.Some? then q.lastUpdatedAt else p.lastUpdatedAt,
      if q.preferences.Some? then q.preferences else p.preferences,
      if q.isActive.Some? then q.isActive else p.isActive)
  }

  /** The properties an update carries replace the user's, and only those:
      each field of the result is the update's value where it has one and
      the user's value everywhere else. */
  lemma MergeFields(u: UserProfile, p: ProfileUpdate)
    ensures var r := Merge(u, p);
      && (r.id == if p.id.Some? then p.id.value else u.id)
      && (r.email == if p.email.Some? then p.email.value else u.email)
      && (r.fullName == if p.fullName.Some? then p.fullName.value else u.fullName)
      && (r.displayName == if p.displayName.Some? then p.displayName.value else u.displayName)
      && (r.avatarUrl == if p.avatarUrl.Some? then p.avatarUrl.value else u.avatarUrl)
      && (r.roles == if p.roles.Some? then p.roles.value else u.roles)
      && (r.isEmailVerified == if p.isEmailVerified.Some? then p.isEmailVerified.value else u.isEmailVerified)
      && (r.createdAt == if p.createdAt.Some? then p.createdAt.value else u.createdAt)
      && (r.lastUpdatedAt == if p.lastUpdatedAt.Some? then p.lastUpdatedAt.value else u.lastUpdatedAt)
      && (r.preferences == if p.preferences.Some? then p.preferences.value else u.preferences)
      && (r.isActive == if p.isActive.Some? then p.isActive.value else u.isActive)
  {
  }

  /** Merging the empty update changes nothing. */
  lemma MergeNoChanges(u: UserProfile)
    ensures Merge(u, NoChanges) == u
  {
  }

  /** Two merges in a row are one merge of the combined update; in
      particular merging the same update twice is merging it once. */
  lemma MergeThen(u: UserProfile, p: ProfileUpdate, q: ProfileUpdate)
    ensures Merge(Merge(u, p), q) == Merge(u, Then(p, q))
    ensures Merge(Merge(u, p), p) == Merge(u, p)
  {
  }

  // ---------------------------------------------------------------------------
  // JSON form

  function RoleName(r: UserRole): string {
    match r
    case Admin => "admin"
    case Editor => "editor"
    case Viewer => "viewer"
    case Guest => "guest"
  }

  function RoleFromName(s: string): (r: Option<UserRole>)
    ensures r.Some? ==> RoleName(r.value) == s
  {
    if s == "admin" then Some(Admin)
    else if s == "editor" then Some(Editor)
    else if s == "viewer" then Some(Viewer)
    else if s == "guest" then Some(Guest)
    else None
  }

  lemma RoleNameRoundTrip(r: UserRole)
    ensures RoleFromName(RoleName(r)) == Some(r)
  {
  }

  function RolesToJson(rs: seq<UserRole>): (js: seq<Json>)
    ensures |js| == |rs|
    ensures forall i :: 0 <= i < |rs| ==> js[i] == JStr(RoleName(rs[i]))
  {
    seq(|rs|, i requires 0 <= i < |rs| => JStr(RoleName(rs[i])))
  }

  function RolesFromJson(js: seq<Json>): Option<seq<UserRole>> {
    if |js| == 0 then Some([])
    else if !js[0].JStr? then None
    else
      match RoleFromName(js[0].s)
      case None => None
      case Some(r) =>
        match RolesFromJson(js[1..])
        case None => None
        case Some(rs) => Some([r] + rs)
  }

  lemma {:induction false} RolesRoundTrip(rs: seq<UserRole>)
    ensures RolesFromJson(RolesToJson(rs)) == Some(rs)
    decreases |rs|
  {
    if |rs| > 0 {
      var js := RolesToJson(rs);
      assert js[1..] == RolesToJson(rs[1..]);
      RolesRoundTrip(rs[1..]);
      RoleNameRoundTrip(rs[0]);
      assert [rs[0]] + rs[1..] == rs;
    }
  }

  function IdToJson(id: Id): Json {
    match id
    case IdText(t) => JStr(t)
    case IdNumber(n) => JNum(n)
  }

  function IdFromJson(j: Json): Option<Id> {
    match j
    case JStr(t) => Some(IdText(t))
    case JNum(n) => Some(IdNumber(n))
    case _ => None
  }

  function OptionalText(o: Option<string>): Option<Json> {
    if o.Some? then Some(JStr(o.value)) else None
  }

  /** The properties `JSON.stringify` sees for a profile, in declaration
      order; `undefined` optional ones are `None`. */
  function UserFields(u: UserProfile): seq<(string, Option<Json>)> {
    [("id", Some(IdToJson(u.id))),
     ("email", Some(JStr(u.email))),
     ("fullName", OptionalText(u.fullName)),
     ("displayName", OptionalText(u.displayName)),
     ("avatarUrl", OptionalText(u.avatarUrl)),
     ("roles", Some(JArr(RolesToJson(u.roles)))),
     ("isEmailVerified", Some(JBool(u.isEmailVerified))),
     ("createdAt", Some(JStr(u.createdAt))),
     ("lastUpdatedAt", Some(JStr(u.lastUpdatedAt))),
     ("preferences", u.preferences),
     ("isActive", Some(JBool(u.isActive)))]
  }

  function UserToJson(u: UserProfile): Json {
    JObj(Present(UserFields(u)))
  }

  function DecodeId(o: Option<Json>): Option<Id> {
    if o.Some? then IdFromJson(o.value) else None
  }

  function DecodeText(o: Option<Json>): Option<string> {
    match o
    case Some(JStr(t)) => Some(t)
    case _ => None
  }

  function DecodeBool(o: Option<Json>): Option<bool> {
    match o
    case Some(JBool(b)) => Some(b)
    case _ => None
  }

  function DecodeRoles(o: Option<Json>): Option<seq<UserRole>> {
    match o
    case Some(JArr(js)) => RolesFromJson(js)
    case _ => None
  }

  /** An optional text property: absent is fine (`Some(None)`), a text is
      taken, anything else is rejected (`None`). */
  function DecodeOptionalText(o: Option<Json>): Option<Option<string>> {
    match o
    case None => Some(None)
    case Some(JStr(t)) => Some(Some(t))
    case _ => None
  }

  /** Reads a stored profile back; `None` when a required property is
      missing or of the wrong kind, or an optional one is of the wrong kind. */
  function UserFromJson(j: Json): Option<UserProfile> {
    if !j.JObj? then None
    else
      var ms := j.members;
      FromProperties(Lookup(ms, "id"), Lookup(ms, "email"), Lookup(ms, "fullName"),
        Lookup(ms, "displayName"), Lookup(ms, "avatarUrl"), Lookup(ms, "roles"),
        Lookup(ms, "isEmailVerified"), Lookup(ms, "createdAt"), Lookup(ms, "lastUpdatedAt"),
        Lookup(ms, "preferences"), Lookup(ms, "isActive"))
  }

  /** The profile from its eleven looked-up properties, in declaration order. */
  function FromProperties(id: Option<Json>, email: Option<Json>, fullName: Option<Json>,
                          displayName: Option<Json>, avatarUrl: Option<Json>, roles: Option<Json>,
                          verified: Option<Json>, created: Option<Json>, updated: Option<Json>,
                          preferences: Option<Json>, active: Option<Json>): Option<UserProfile>
  {
    var id := DecodeId(id);
    var email := DecodeText(email);
    var fullName := DecodeOptionalText(fullName);
    var displayName := DecodeOptionalText(displayName);
    var avatarUrl := DecodeOptionalText(avatarUrl);
    var roles := DecodeRoles(roles);
    var verified := DecodeBool(verified);
    var created := DecodeText(created);
    var updated := DecodeText(updated);
    var active := DecodeBool(active);
    if id.None? || email.None? || fullName.None? || displayName.None? || avatarUrl.None?
       || roles.None? || verified.None? || created.None? || updated.None? || active.None?
    then None
    else
      Some(UserProfile(id.value, email.value, fullName.value, displayName.value, avatarUrl.value,
        roles.value, verified.value, created.value, updated.value, preferences, active.value))
  }

  /** Each property of a stored profile is found under its own name. */
  lemma UserLookups(u: UserProfile)
    ensures forall i :: 0 <= i < |UserFields(u)| ==>
      Lookup(UserToJson(u).members, UserFields(u)[i].0) == UserFields(u)[i].1
  {
    var fs := UserFields(u);
    assert DistinctKeys(fs);
    forall i | 0 <= i < |fs|
      ensures Lookup(UserToJson(u).members, fs[i].0) == fs[i].1
    {
      LookupPresent(fs, i);
    }
  }

  /** The properties of `u` decode to `u`. */
  lemma FromUserFields(u: UserProfile)
    ensures var fs := UserFields(u);
      FromProperties(fs[0].1, fs[1].1, fs[2].1, fs[3].1, fs[4].1, fs[5].1,
                     fs[6].1, fs[7].1, fs[8].1, fs[9].1, fs[10].1) == Some(u)
  {
    RolesRoundTrip(u.roles);
    assert DecodeId(Some(IdToJson(u.id))) == Some(u.id) by {
      match u.id
      case IdText(_) =>
      case IdNumber(_) =>
    }
  }

  /** A stored profile reads back as the same profile. */
  lemma UserJsonRoundTrip(u: UserProfile)
    ensures UserFromJson(UserToJson(u)) == Some(u)
  {
    var fs := UserFields(u);
    var ms := UserToJson(u).members;
    UserLookups(u);
    assert Lookup(ms, fs[0].0) == fs[0].1;
    assert Lookup(ms, fs[1].0) == fs[1].1;
    assert Lookup(ms, fs[2].0) == fs[2].1;
    assert Lookup(ms, fs[3].0) == fs[3].1;
    assert Lookup(ms, fs[4].0) == fs[4].1;
    assert Lookup(ms, fs[5].0) == fs[5].1;
    assert Lookup(ms, fs[6].0) == fs[6].1;
    assert Lookup(ms, fs[7].0) == fs[7].1;
    assert Lookup(ms, fs[8].0) == fs[8].1;
    assert Lookup(ms, fs[9].0) == fs[9].1;
    assert Lookup(ms, fs[10].0) == fs[10].1;
    FromUserFields(u);
  }
}
