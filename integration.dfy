/**
 * What the admin side's writes mean for the public side's decisions. The
 * two sides name the single-access meta keys differently, so the admin
 * writers never reach the public single-access check; the term roles and
 * error messages they share do.
 */
module Integration {
  import opened PhpText
  import opened MetaStore
  import opened MetaKeys
  import opened SingleAccess
  import Admin = RtMembersAdmin
  import opened RtMembersPublic

  /**
   * Whatever `user_single_access_add` or `_remove` writes under the user
   * meta key `_rt_single_access`, the public single-access check, which
   * reads `_wpi_single_access`, decides the same.
   */
  lemma AdminAllowlistNotReadByPublic(users: Table, posts: Table, writer: nat, written: string,
                                      canView: bool, userId: nat, postId: nat)
    ensures CanUserViewPostSingle(canView, userId, postId, UpdateRows(users, writer, AdminSingleAccessKey, written), posts) ==
            CanUserViewPostSingle(canView, userId, postId, users, posts)
  {
    assert Slot(userId, PublicUserSingleAccessKey) != Slot(writer, AdminSingleAccessKey);
    PutGetOther(users, writer, AdminSingleAccessKey, Get(UpdateRows(users, writer, AdminSingleAccessKey, written), writer, AdminSingleAccessKey),
                userId, PublicUserSingleAccessKey);
  }

  /**
   * Likewise the post flag `save_single_access_settings` writes under
   * `_rt_single_access` is not the `_wpim_single_access` flag the public
   * check reads.
   */
  lemma AdminFlagNotReadByPublic(users: Table, posts: Table, flagged: nat, written: string,
                                 canView: bool, userId: nat, postId: nat)
    ensures CanUserViewPostSingle(canView, userId, postId, users, UpdateRows(posts, flagged, AdminSingleAccessKey, written)) ==
            CanUserViewPostSingle(canView, userId, postId, users, posts)
  {
    assert Slot(postId, PublicPostSingleAccessKey) != Slot(flagged, AdminSingleAccessKey);
    PutGetOther(posts, flagged, AdminSingleAccessKey, Get(UpdateRows(posts, flagged, AdminSingleAccessKey, written), flagged, AdminSingleAccessKey),
                postId, PublicPostSingleAccessKey);
  }

  /**
   * Saving a non-empty role list on one of a post's terms restricts the
   * post: anonymous visitors are refused, and a logged-in user holding one
   * of the saved roles passes the term check with the incoming verdict.
   */
  lemma SavedRolesRestrictPost(t: Table, termId: nat, roles: seq<string>, newMessage: string, registered: seq<string>,
                               postTerms: seq<nat>, canView: bool, userId: nat, userRoles: seq<string>,
                               postId: nat, users: Table, posts: Table)
    requires roles != [] && termId in postTerms
    ensures var after := Admin.SavedTermMeta(t, termId, true, Some(roles), newMessage, registered);
      RestrictedRoles(after, postTerms) != [] &&
      !ViewDecision(canView, 0, postId, postTerms, after, userRoles, users, posts) &&
      (userId != 0 && (exists r :: r in roles && r in userRoles) ==>
         TermDecision(canView, userId, RestrictedRoles(after, postTerms), userRoles) == canView)
  {
    var after := Admin.SavedTermMeta(t, termId, true, Some(roles), newMessage, registered);
    Admin.SaveTermMetaRoles(t, termId, Some(roles), newMessage, registered);
    Admin.ReconciledMembers(Get(t, termId, AccessRoleKey), roles, registered);
    var i :| 0 <= i < |postTerms| && postTerms[i] == termId;
    assert roles[0] in Get(after, termId, AccessRoleKey);
    RestrictedRolesEmpty(after, postTerms);
    if userId != 0 && (exists r :: r in roles && r in userRoles) {
      var r :| r in roles && r in userRoles;
      RestrictedRolesMembers(after, postTerms, r);
    }
  }

  /**
   * After the term check denies a post that had no entry in the error map,
   * and the post has no error of its own, the message shown is the
   * restricting term's error (when that term is not 0 and has one).
   */
  lemma DeniedPostShowsTermError(message: string, errors: ErrorMap, postId: nat, posts: Table, terms: Table,
                                 postTerms: seq<nat>)
    requires forall i :: 0 <= i < |errors| ==> errors[i].1 != postId
    requires !Truthy(Single(posts, postId, AccessErrorKey))
    requires RestrictedTerm(terms, postTerms) != 0
    requires Truthy(Single(terms, RestrictedTerm(terms, postTerms), AccessErrorKey))
    ensures TermErrorMessage(message, Some(postId), Assigned(errors, RestrictedTerm(terms, postTerms), postId), posts, terms) ==
            Wrap(Single(terms, RestrictedTerm(terms, postTerms), AccessErrorKey))
  {
    SearchFindsAssigned(errors, RestrictedTerm(terms, postTerms), postId);
  }
}
