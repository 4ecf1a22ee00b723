/**
 * The admin side of the plugin (class Rt_Members_Admin): the single-access
 * allowlist and flag writers, the role-change guards, the role-settings map
 * removal, and saving a term's restricted roles and error message.
 */
module RtMembersAdmin {
  import opened PhpText
  import opened MetaStore
  import opened MetaKeys
  import opened SingleAccess

  /* ================= single access ================= */

  /**
   * `save_single_access_settings`: when the flag was posted, the post meta
   * `_rt_single_access` becomes its `(int)` cast.
   */
  method SaveSingleAccessSettings(posts: MetaTable, postId: nat, posted: Option<string>)
    requires posts.Valid()
    modifies posts
    ensures posts.Valid()
    ensures posted.None? ==> posts.rows == old(posts.rows)
    ensures posted.Some? ==>
      posts.rows == UpdateRows(old(posts.rows), postId, AdminSingleAccessKey, IntText(IntCast(posted.value)))
  {
    if posted.Some? {
      posts.Update(postId, AdminSingleAccessKey, IntText(IntCast(posted.value)));
    }
  }

  /**
   * The integer `save_single_access_settings` stores reads back, cast again,
   * as the same integer, and the stored flag is truthy exactly when it is
   * not 0.
   */
  lemma SavedFlagReadsBack(posts: Table, postId: nat, flag: int)
    ensures IntCast(Single(UpdateRows(posts, postId, AdminSingleAccessKey, IntText(flag)), postId, AdminSingleAccessKey)) == flag
    ensures Truthy(Single(UpdateRows(posts, postId, AdminSingleAccessKey, IntText(flag)), postId, AdminSingleAccessKey)) <==> flag != 0
  {
    UpdateThenSingle(posts, postId, AdminSingleAccessKey, IntText(flag));
    IntCastIntText(flag);
  }

  /**
   * `user_single_access_add`: read the row, explode it, append the id unless
   * it is listed, implode, write back; a falsy row is replaced by the id.
   */
  method UserSingleAccessAdd(users: MetaTable, userId: nat, postId: nat)
    requires users.Valid()
    modifies users
    ensures users.Valid()
    ensures users.rows == UpdateRows(old(users.rows), userId, AdminSingleAccessKey,
                                     AllowlistAdd(Single(old(users.rows), userId, AdminSingleAccessKey), postId))
    ensures Decimal(postId) in Explode(Single(users.rows, userId, AdminSingleAccessKey))
  {
    var postIds := Single(users.rows, userId, AdminSingleAccessKey);
    var stored: string;
    if Truthy(postIds) {
      var ids := Explode(postIds);
      if Decimal(postId) !in ids {
        ids := ids + [Decimal(postId)];
      }
      stored := Implode(ids);
    } else {
      stored := Decimal(postId);
    }
    users.Update(userId, AdminSingleAccessKey, stored);

    UpdateThenSingle(old(users.rows), userId, AdminSingleAccessKey, stored);
  }

  /**
   * `user_single_access_remove`: unset the first listed entry equal to the
   * id and write back; a falsy row is written back as it is.
   */
  method UserSingleAccessRemove(users: MetaTable, userId: nat, postId: nat)
    requires users.Valid()
    modifies users
    ensures users.Valid()
    ensures users.rows == UpdateRows(old(users.rows), userId, AdminSingleAccessKey,
                                     AllowlistRemove(Single(old(users.rows), userId, AdminSingleAccessKey), postId))
  {
    var postIds := Single(users.rows, userId, AdminSingleAccessKey);
    if Truthy(postIds) {
      var ids := Explode(postIds);
      if Decimal(postId) in ids {
        var key := IndexOf(ids, Decimal(postId));
        ids := ids[..key] + ids[key + 1..];
      }
      postIds := Implode(ids);
    }
    users.Update(userId, AdminSingleAccessKey, postIds);
  }

  /** `get_user_single_access` of the admin side: reads `_rt_single_access`. */
  function GetUserSingleAccess(users: Table, userId: nat): (r: Lookup)
    ensures r.IsEmpty() <==> !Truthy(Single(users, userId, AdminSingleAccessKey))
    ensures r.Listed? <==> Truthy(Single(users, userId, AdminSingleAccessKey))
    ensures !r.Listed? ==> r == Raw(Single(users, userId, AdminSingleAccessKey))
    ensures r.Listed? ==> |r.ids| >= 1 && CommaFree(r.ids) && Implode(r.ids) == Single(users, userId, AdminSingleAccessKey)
  {
    ParseAllowlist(Single(users, userId, AdminSingleAccessKey))
  }

  /** After adding a non-zero post id, the admin getter lists it. */
  lemma AdminListsAddedPost(users: Table, userId: nat, postId: nat)
    requires postId != 0
    ensures var after := UpdateRows(users, userId, AdminSingleAccessKey,
                                    AllowlistAdd(Single(users, userId, AdminSingleAccessKey), postId));
      var r := GetUserSingleAccess(after, userId);
      r.Listed? && Decimal(postId) in r.ids
  {
    var raw := Single(users, userId, AdminSingleAccessKey);
    var stored := AllowlistAdd(raw, postId);
    var d := Decimal(postId);
    UpdateThenSingle(users, userId, AdminSingleAccessKey, stored);

    if Truthy(raw) && !Truthy(stored) {
      var ids := Explode(raw);
      AppendCommaFree(ids, postId);
      FalsyImplode(if d in ids then ids else ids + [d], d);
    }
  }

  /* ================= role guards ================= */

  /** The outcome of `user_role_add` / `user_role_remove`: the returned bool and the user's roles after. */
  datatype RoleChange = RoleChange(applied: bool, roles: set<string>)

  /** `user_role_add`: refused (false) for user 0 or a falsy role, otherwise the role is added. */
  function UserRoleAdd(userId: nat, role: string, roles: set<string>): (r: RoleChange)
    ensures r.applied <==> userId != 0 && Truthy(role)
    ensures r.applied ==> role in r.roles && r.roles - {role} == roles - {role}
    ensures !r.applied ==> r.roles == roles
  {
    if userId == 0 || !Truthy(role) then RoleChange(false, roles) else RoleChange(true, roles + {role})
  }

  /** `user_role_remove`: same guard, otherwise the role is removed. */
  function UserRoleRemove(userId: nat, role: string, roles: set<string>): (r: RoleChange)
    ensures r.applied <==> userId != 0 && Truthy(role)
    ensures r.applied ==> role !in r.roles && r.roles + {role} == roles + {role}
    ensures !r.applied ==> r.roles == roles
  {
    if userId == 0 || !Truthy(role) then RoleChange(false, roles) else RoleChange(true, roles - {role})
  }

  /** Adding a role the user lacks and removing it again restores the user's roles. */
  lemma RoleAddThenRemove(userId: nat, role: string, roles: set<string>)
    requires role !in roles
    ensures UserRoleRemove(userId, role, UserRoleAdd(userId, role, roles).roles).roles == roles
  {
  }

  /* ================= role settings ================= */

  /** The decoded `_rt_role_settings` user meta: an array keyed by role, or anything else. */
  datatype RoleSettings = NotArray | Settings(entries: map<string, string>)

  /**
   * `remove_role_settings`: the map written back (Some) when the stored
   * value is an array holding the role; None when nothing is written.
   */
  function RemoveRoleSettings(stored: RoleSettings, role: string): (written: Option<map<string, string>>)
    ensures written.Some? <==> stored.Settings? && role in stored.entries
    ensures written.Some? ==> written.value.Keys == stored.entries.Keys - {role}
    ensures written.Some? ==> forall k :: k in written.value ==> written.value[k] == stored.entries[k]
  {
    if stored.Settings? && role in stored.entries then Some(stored.entries - {role}) else None
  }

  /** Removing the same role twice writes nothing the second time. */
  lemma RemoveRoleSettingsOnce(entries: map<string, string>, role: string)
    requires role in entries
    ensures RemoveRoleSettings(Settings(RemoveRoleSettings(Settings(entries), role).value), role) == None
  {
  }

  /* ================= term roles ================= */

  /** Role keys of `$wp_roles->role_names`: WordPress never registers an empty role key. */
  predicate RoleKeys(registered: seq<string>) {
    forall i :: 0 <= i < |registered| ==> registered[i] != ""
  }

  /** The rows the first loop of `set_term_roles` adds: posted roles not stored before, in posted order. */
  function NewRoles(roles: seq<string>, current: seq<string>): seq<string> {
    if roles == [] then []
    else
      var last := roles[|roles| - 1];
      NewRoles(roles[..|roles| - 1], current) + (if last !in current then [last] else [])
  }

  /** A stored row the second loop deletes: a registered role, not posted, stored before. */
  predicate Stale(x: string, roles: seq<string>, registered: seq<string>, current: seq<string>) {
    x in registered && x !in roles && x in current
  }

  function Pruned(rows: seq<string>, roles: seq<string>, registered: seq<string>, current: seq<string>): seq<string> {
    if rows == [] then []
    else if Stale(rows[0], roles, registered, current) then Pruned(rows[1..], roles, registered, current)
    else [rows[0]] + Pruned(rows[1..], roles, registered, current)
  }

  /** The role rows of a term after `set_term_roles`. */
  function ReconciledRoles(current: seq<string>, roles: seq<string>, registered: seq<string>): seq<string> {
    Pruned(current + NewRoles(roles, current), roles, registered, current)
  }

  lemma {:induction false} NewRolesMembers(roles: seq<string>, current: seq<string>)
    ensures forall x :: x in NewRoles(roles, current) <==> x in roles && x !in current
  {
    if roles != [] {
      NewRolesMembers(roles[..|roles| - 1], current);
      assert roles == roles[..|roles| - 1] + [roles[|roles| - 1]];
    }
  }

  lemma {:induction false} PrunedMembers(rows: seq<string>, roles: seq<string>, registered: seq<string>, current: seq<string>)
    ensures forall x :: x in Pruned(rows, roles, registered, current) <==>
      x in rows && !Stale(x, roles, registered, current)
  {
    if rows != [] {
      PrunedMembers(rows[1..], roles, registered, current);
      assert rows == [rows[0]] + rows[1..];
    }
  }

  lemma {:induction false} PrunedAppend(a: seq<string>, b: seq<string>, roles: seq<string>, registered: seq<string>, current: seq<string>)
    ensures Pruned(a + b, roles, registered, current) ==
      Pruned(a, roles, registered, current) + Pruned(b, roles, registered, current)
  {
    if a == [] {
      assert a + b == b;
    } else {
      assert (a + b)[0] == a[0] && (a + b)[1..] == a[1..] + b;
      PrunedAppend(a[1..], b, roles, registered, current);
    }
  }

  lemma {:induction false} PrunedKeepsPosted(rows: seq<string>, roles: seq<string>, registered: seq<string>, current: seq<string>)
    requires forall i :: 0 <= i < |rows| ==> rows[i] in roles
    ensures Pruned(rows, roles, registered, current) == rows
  {
    if rows != [] {
      PrunedKeepsPosted(rows[1..], roles, registered, current);
    }
  }

  /** With no registered role named, nothing is stale. */
  lemma {:induction false} PrunedKeepsAll(rows: seq<string>, roles: seq<string>, current: seq<string>)
    ensures Pruned(rows, roles, [], current) == rows
  {
    if rows != [] {
      PrunedKeepsAll(rows[1..], roles, current);
    }
  }

  /** Deleting one more registered role prunes the rows equal to it, if it is stale. */
  lemma {:induction false} PrunedStep(rows: seq<string>, roles: seq<string>, registered: seq<string>, r: string, current: seq<string>)
    ensures Pruned(rows, roles, registered + [r], current) ==
      if r !in roles && r in current then RemoveAll(Pruned(rows, roles, registered, current), r)
      else Pruned(rows, roles, registered, current)
  {
    if rows != [] {
      PrunedStep(rows[1..], roles, registered, r, current);
    }
  }

  /**
   * After `set_term_roles` a role is stored exactly when it was posted, or
   * it was stored before and is not a registered WordPress role.
   */
  lemma ReconciledMembers(current: seq<string>, roles: seq<string>, registered: seq<string>)
    ensures forall x :: x in ReconciledRoles(current, roles, registered) <==>
      x in roles || (x in current && x !in registered)
  {
    NewRolesMembers(roles, current);
    PrunedMembers(current + NewRoles(roles, current), roles, registered, current);
  }

  /**
   * The surviving rows keep their stored order, and the newly added roles
   * follow them in posted order (a role posted twice is added twice).
   */
  lemma ReconciledOrder(current: seq<string>, roles: seq<string>, registered: seq<string>)
    ensures ReconciledRoles(current, roles, registered) ==
      Pruned(current, roles, registered, current) + NewRoles(roles, current)
  {
    NewRolesMembers(roles, current);
    PrunedAppend(current, NewRoles(roles, current), roles, registered, current);
    PrunedKeepsPosted(NewRoles(roles, current), roles, registered, current);
  }

  /** `set_term_roles`: add the posted roles not stored, then delete the stale registered ones. */
  method SetTermRoles(terms: MetaTable, termId: nat, roles: seq<string>, registered: seq<string>)
    requires terms.Valid() && RoleKeys(registered)
    modifies terms
    ensures terms.Valid()
    ensures terms.rows == Put(old(terms.rows), termId, AccessRoleKey,
                              ReconciledRoles(Get(old(terms.rows), termId, AccessRoleKey), roles, registered))
  {
    var current := Get(terms.rows, termId, AccessRoleKey);
    PutSame(terms.rows, termId, AccessRoleKey);
    assert roles[..0] == [] && current + NewRoles([], current) == current;
    for i := 0 to |roles|
      invariant terms.Valid()
      invariant terms.rows == Put(old(terms.rows), termId, AccessRoleKey, current + NewRoles(roles[..i], current))
    {
      ghost var before := current + NewRoles(roles[..i], current);
      assert roles[..i + 1][..i] == roles[..i] && roles[..i + 1][i] == roles[i];
      ghost var after := current + NewRoles(roles[..i + 1], current);
      if roles[i] !in current {
        assert after == before + [roles[i]];
        terms.Add(termId, AccessRoleKey, roles[i]);
        PutTwice(old(terms.rows), termId, AccessRoleKey, before, after);
      } else {
        assert after == before;
      }
    }
    assert roles[..|roles|] == roles;
    var added := current + NewRoles(roles, current);
    assert registered[..0] == [];
    PrunedKeepsAll(added, roles, current);
    for i := 0 to |registered|
      invariant terms.Valid()
      invariant terms.rows == Put(old(terms.rows), termId, AccessRoleKey, Pruned(added, roles, registered[..i], current))
    {
      assert registered[..i + 1] == registered[..i] + [registered[i]];
      PrunedStep(added, roles, registered[..i], registered[i], current);
      if registered[i] !in roles && registered[i] in current {
        terms.DeleteValue(termId, AccessRoleKey, registered[i]);
        PutTwice(old(terms.rows), termId, AccessRoleKey, Pruned(added, roles, registered[..i], current),
                 Pruned(added, roles, registered[..i + 1], current));
      }
    }
    assert registered[..|registered|] == registered;
  }

  /* ================= save_term_meta ================= */

  /** The roles half of `save_term_meta`; None stands for "no role array was posted". */
  function RolesSaved(t: Table, termId: nat, postedRoles: Option<seq<string>>, registered: seq<string>): Table {
    var current := Get(t, termId, AccessRoleKey);
    match postedRoles
    case Some(roles) => Put(t, termId, AccessRoleKey, ReconciledRoles(current, roles, registered))
    case None => if current != [] then DeleteRows(t, termId, AccessRoleKey) else t
  }

  /** The error-message half of `save_term_meta`. */
  function MessageSaved(t: Table, termId: nat, newMessage: string): Table {
    var oldMessage := Single(t, termId, AccessErrorKey);
    if newMessage == "" && Truthy(oldMessage) then DeleteRows(t, termId, AccessErrorKey)
    else if newMessage != oldMessage then UpdateRows(t, termId, AccessErrorKey, newMessage)
    else t
  }

  /** The term meta after `save_term_meta`. */
  function SavedTermMeta(t: Table, termId: nat, nonceValid: bool, postedRoles: Option<seq<string>>,
                         newMessage: string, registered: seq<string>): Table {
    if !nonceValid then t
    else MessageSaved(RolesSaved(t, termId, postedRoles, registered), termId, newMessage)
  }

  /**
   * `save_term_meta`. The nonce check, the sanitised posted role array
   * (None when not an array) and the sanitised posted message are inputs.
   */
  method SaveTermMeta(terms: MetaTable, termId: nat, nonceValid: bool, postedRoles: Option<seq<string>>,
                      newMessage: string, registered: seq<string>)
    requires terms.Valid() && RoleKeys(registered)
    modifies terms
    ensures terms.Valid()
    ensures terms.rows == SavedTermMeta(old(terms.rows), termId, nonceValid, postedRoles, newMessage, registered)
  {
    if !nonceValid {
      return;
    }
    var currentRoles := Get(terms.rows, termId, AccessRoleKey);
    if postedRoles.Some? {
      SetTermRoles(terms, termId, postedRoles.value, registered);
    } else if currentRoles != [] {
      terms.Delete(termId, AccessRoleKey);
    }
    var oldMessage := Single(terms.rows, termId, AccessErrorKey);
    if newMessage == "" && Truthy(oldMessage) {
      terms.Delete(termId, AccessErrorKey);
    } else if newMessage != oldMessage {
      terms.Update(termId, AccessErrorKey, newMessage);
    }
  }

  /** Without a valid nonce no meta changes. */
  lemma SaveTermMetaNeedsNonce(t: Table, termId: nat, postedRoles: Option<seq<string>>, newMessage: string, registered: seq<string>)
    ensures SavedTermMeta(t, termId, false, postedRoles, newMessage, registered) == t
  {
  }

  /**
   * With a valid nonce the term's roles become the reconciled list when a
   * role array is posted, and are all deleted otherwise.
   */
  lemma SaveTermMetaRoles(t: Table, termId: nat, postedRoles: Option<seq<string>>, newMessage: string, registered: seq<string>)
    ensures var after := Get(SavedTermMeta(t, termId, true, postedRoles, newMessage, registered), termId, AccessRoleKey);
      match postedRoles
      case Some(roles) => after == ReconciledRoles(Get(t, termId, AccessRoleKey), roles, registered)
      case None => after == []
  {
    var mid := RolesSaved(t, termId, postedRoles, registered);
    assert Slot(termId, AccessErrorKey) != Slot(termId, AccessRoleKey);
    assert Get(MessageSaved(mid, termId, newMessage), termId, AccessRoleKey) == Get(mid, termId, AccessRoleKey);
  }

  /**
   * With a valid nonce: an empty new message with a truthy old one deletes
   * the message; any other differing message is written; an identical one
   * is left as it is.
   */
  lemma SaveTermMetaMessage(t: Table, termId: nat, postedRoles: Option<seq<string>>, newMessage: string, registered: seq<string>)
    ensures var oldMessage := Single(t, termId, AccessErrorKey);
      var after := SavedTermMeta(t, termId, true, postedRoles, newMessage, registered);
      (newMessage == "" && Truthy(oldMessage) ==> Get(after, termId, AccessErrorKey) == []) &&
      (!(newMessage == "" && Truthy(oldMessage)) && newMessage != oldMessage ==>
         Get(after, termId, AccessErrorKey) != [] && Single(after, termId, AccessErrorKey) == newMessage) &&
      (newMessage == oldMessage ==> Get(after, termId, AccessErrorKey) == Get(t, termId, AccessErrorKey))
  {
    var mid := RolesSaved(t, termId, postedRoles, registered);
    assert Slot(termId, AccessErrorKey) != Slot(termId, AccessRoleKey);
    assert Get(mid, termId, AccessErrorKey) == Get(t, termId, AccessErrorKey);
    UpdateThenSingle(mid, termId, AccessErrorKey, newMessage);
  }

  /** `save_term_meta` touches only this term's roles and error message. */
  lemma SaveTermMetaFrame(t: Table, termId: nat, nonceValid: bool, postedRoles: Option<seq<string>>,
                          newMessage: string, registered: seq<string>, id: nat, key: string)
    requires Slot(id, key) != Slot(termId, AccessRoleKey) && Slot(id, key) != Slot(termId, AccessErrorKey)
    ensures Get(SavedTermMeta(t, termId, nonceValid, postedRoles, newMessage, registered), id, key) == Get(t, id, key)
  {
  }
}
