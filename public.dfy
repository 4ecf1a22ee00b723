/**
 * The public side of the plugin (class Rt_Members_Public): the
 * `members_can_user_view_post` filter, built from the term check and the
 * single-access check, and the `members_post_error_message` filter.
 */
module RtMembersPublic {
  import opened PhpText
  import opened MetaStore
  import opened MetaKeys
  import opened SingleAccess

  /* ================= the global $rt_members_term_error ================= */

  /** An ordered PHP array from term id to post id, as (key, value) pairs in insertion order. */
  type ErrorMap = seq<(nat, nat)>

  predicate DistinctKeys(e: ErrorMap) {
    forall i, j :: 0 <= i < j < |e| ==> e[i].0 != e[j].0
  }

  /** `$e[$k]`, or None when the key is not set. */
  function ValueOf(e: ErrorMap, k: nat): Option<nat> {
    if e == [] then None else if e[0].0 == k then Some(e[0].1) else ValueOf(e[1..], k)
  }

  /** The keys in order. */
  function Keys(e: ErrorMap): seq<nat> {
    if e == [] then [] else [e[0].0] + Keys(e[1..])
  }

  /**
   * `$e[$k] = $v`: the key then holds v; a new key goes last, and an existing
   * key keeps its place, so the array does not grow.
   */
  function Assigned(e: ErrorMap, k: nat, v: nat): (r: ErrorMap)
    ensures ValueOf(r, k) == Some(v)
    ensures k !in Keys(e) ==> r == e + [(k, v)]
    ensures k in Keys(e) ==> |r| == |e|
  {
    if e == [] then [(k, v)]
    else if e[0].0 == k then [(k, v)] + e[1..]
    else
      assert e == [e[0]] + e[1..];
      [e[0]] + Assigned(e[1..], k, v)
  }

  /**
   * `array_search($v, $e)`: none exactly when no entry holds v; otherwise
   * the key of the first entry that holds v.
   */
  function SearchValue(e: ErrorMap, v: nat): (r: Option<nat>)
    ensures r.None? <==> forall i :: 0 <= i < |e| ==> e[i].1 != v
    ensures r.Some? ==> exists i :: 0 <= i < |e| && e[i] == (r.value, v) && forall j :: 0 <= j < i ==> e[j].1 != v
  {
    if e == [] then None else if e[0].1 == v then Some(e[0].0) else SearchValue(e[1..], v)
  }

  /** After an assignment the key maps to the new value and every other key keeps its value. */
  lemma {:induction false} AssignedValues(e: ErrorMap, k: nat, v: nat, k': nat)
    ensures ValueOf(Assigned(e, k, v), k') == if k' == k then Some(v) else ValueOf(e, k')
  {
    if e != [] && e[0].0 != k {
      AssignedValues(e[1..], k, v, k');
    }
  }

  /** The key order of a PHP array: an existing key stays where it was, a new one is appended. */
  lemma {:induction false} AssignedKeys(e: ErrorMap, k: nat, v: nat)
    ensures Keys(Assigned(e, k, v)) == if k in Keys(e) then Keys(e) else Keys(e) + [k]
  {
    if e != [] {
      if e[0].0 != k {
        AssignedKeys(e[1..], k, v);
      }
    }
  }

  lemma {:induction false} KeysOf(e: ErrorMap)
    ensures |Keys(e)| == |e|
    ensures forall i :: 0 <= i < |e| ==> Keys(e)[i] == e[i].0
  {
    if e != [] {
      KeysOf(e[1..]);
    }
  }

  /** An assignment keeps the keys distinct. */
  lemma AssignedDistinct(e: ErrorMap, k: nat, v: nat)
    requires DistinctKeys(e)
    ensures DistinctKeys(Assigned(e, k, v))
  {
    var a := Assigned(e, k, v);
    AssignedKeys(e, k, v);
    KeysOf(e);
    KeysOf(a);
    forall i, j | 0 <= i < j < |a| ensures a[i].0 != a[j].0 {
      assert Keys(a)[i] == a[i].0 && Keys(a)[j] == a[j].0;
      if k !in Keys(e) && j == |e| {
        assert a[j].0 == k;
      }
    }
  }

  /** When no key held post v before, the search for v finds the key just assigned. */
  lemma {:induction false} SearchFindsAssigned(e: ErrorMap, k: nat, v: nat)
    requires forall i :: 0 <= i < |e| ==> e[i].1 != v
    ensures SearchValue(Assigned(e, k, v), v) == Some(k)
  {
    if e != [] && e[0].0 != k {
      SearchFindsAssigned(e[1..], k, v);
    }
  }

  /** The global `$rt_members_term_error`, kept across calls within one request. */
  class TermErrors {
    var entries: ErrorMap

    ghost predicate Valid()
      reads this
    {
      DistinctKeys(entries)
    }

    constructor ()
      ensures Valid() && entries == []
    {
      entries := [];
    }

    /** `$rt_members_term_error[$termId] = $postId`. */
    method Record(termId: nat, postId: nat)
      requires Valid()
      modifies this
      ensures Valid() && entries == Assigned(old(entries), termId, postId)
    {
      AssignedDistinct(entries, termId, postId);
      entries := Assigned(entries, termId, postId);
    }
  }

  /* ================= can_user_view_post_term ================= */

  /** The roles accumulated over the post's terms, term by term, in stored order. */
  function RestrictedRoles(terms: Table, postTerms: seq<nat>): seq<string> {
    if postTerms == [] then []
    else RestrictedRoles(terms, postTerms[..|postTerms| - 1]) + Get(terms, postTerms[|postTerms| - 1], AccessRoleKey)
  }

  /** The last of the post's terms that carries roles, or 0. */
  function RestrictedTerm(terms: Table, postTerms: seq<nat>): nat {
    if postTerms == [] then 0
    else if Get(terms, postTerms[|postTerms| - 1], AccessRoleKey) != [] then postTerms[|postTerms| - 1]
    else RestrictedTerm(terms, postTerms[..|postTerms| - 1])
  }

  /** The post is restricted exactly when one of its terms carries roles. */
  lemma {:induction false} RestrictedRolesEmpty(terms: Table, postTerms: seq<nat>)
    ensures RestrictedRoles(terms, postTerms) == [] <==>
      forall i :: 0 <= i < |postTerms| ==> Get(terms, postTerms[i], AccessRoleKey) == []
  {
    if postTerms != [] {
      var init := postTerms[..|postTerms| - 1];
      RestrictedRolesEmpty(terms, init);
      assert forall i :: 0 <= i < |init| ==> init[i] == postTerms[i];
    }
  }

  /** A restricted role is a role stored on one of the post's terms, and each such role is restricted. */
  lemma {:induction false} RestrictedRolesMembers(terms: Table, postTerms: seq<nat>, x: string)
    ensures x in RestrictedRoles(terms, postTerms) <==>
      exists i :: 0 <= i < |postTerms| && x in Get(terms, postTerms[i], AccessRoleKey)
  {
    if postTerms != [] {
      var init := postTerms[..|postTerms| - 1];
      RestrictedRolesMembers(terms, init, x);
      assert forall i :: 0 <= i < |init| ==> init[i] == postTerms[i];
      if x in Get(terms, postTerms[|postTerms| - 1], AccessRoleKey) {
        assert x in RestrictedRoles(terms, postTerms);
      }
    }
  }

  /**
   * When the post is restricted, the recorded term is one of its terms that
   * carries roles, and no later term of the post carries any.
   */
  lemma {:induction false} RestrictedTermIsLast(terms: Table, postTerms: seq<nat>)
    requires RestrictedRoles(terms, postTerms) != []
    ensures exists i :: (0 <= i < |postTerms| && postTerms[i] == RestrictedTerm(terms, postTerms) &&
                         Get(terms, postTerms[i], AccessRoleKey) != [] &&
                         forall j :: i < j < |postTerms| ==> Get(terms, postTerms[j], AccessRoleKey) == [])
  {
    var n := |postTerms|;
    if Get(terms, postTerms[n - 1], AccessRoleKey) != [] {
      assert postTerms[n - 1] == RestrictedTerm(terms, postTerms);
    } else {
      var init := postTerms[..n - 1];
      RestrictedTermIsLast(terms, init);
      var i :| 0 <= i < |init| && init[i] == RestrictedTerm(terms, init) &&
        Get(terms, init[i], AccessRoleKey) != [] &&
        forall j :: i < j < |init| ==> Get(terms, init[j], AccessRoleKey) == [];
      assert postTerms[i] == init[i];
      assert forall j :: i < j < n ==> Get(terms, postTerms[j], AccessRoleKey) == [] by {
        forall j | i < j < n ensures Get(terms, postTerms[j], AccessRoleKey) == [] {
          if j < n - 1 { assert postTerms[j] == init[j]; }
        }
      }
    }
  }

  /** The nested `foreach` over the post's terms and their stored roles. */
  method CollectRestrictions(terms: Table, postTerms: seq<nat>) returns (restrictedRoles: seq<string>, restrictedTermId: nat)
    ensures restrictedRoles == RestrictedRoles(terms, postTerms)
    ensures restrictedTermId == RestrictedTerm(terms, postTerms)
  {
    restrictedRoles := [];
    restrictedTermId := 0;
    for i := 0 to |postTerms|
      invariant restrictedRoles == RestrictedRoles(terms, postTerms[..i])
      invariant restrictedTermId == RestrictedTerm(terms, postTerms[..i])
    {
      assert postTerms[..i + 1][..i] == postTerms[..i];
      var roles := Get(terms, postTerms[i], AccessRoleKey);
      if roles != [] {
        for j := 0 to |roles|
          invariant restrictedRoles == RestrictedRoles(terms, postTerms[..i]) + roles[..j]
          invariant restrictedTermId == if j == 0 then RestrictedTerm(terms, postTerms[..i]) else postTerms[i]
        {
          assert roles[..j + 1] == roles[..j] + [roles[j]];
          restrictedRoles := restrictedRoles + [roles[j]];
          restrictedTermId := postTerms[i];
        }
        assert roles[..|roles|] == roles;
      }
    }
    assert postTerms[..|postTerms|] == postTerms;
  }

  /** `array_intersect($a, $b)`: the entries of a that occur in b, in order. */
  function Intersect(a: seq<string>, b: seq<string>): (r: seq<string>)
    ensures forall x :: x in r <==> x in a && x in b
  {
    if a == [] then []
    else if a[0] in b then [a[0]] + Intersect(a[1..], b)
    else Intersect(a[1..], b)
  }

  /** The term check denies: the post is restricted and the user is anonymous or holds none of the roles. */
  predicate TermDenied(userId: nat, restricted: seq<string>, userRoles: seq<string>) {
    restricted != [] && (userId == 0 || Intersect(restricted, userRoles) == [])
  }

  /** The decision `can_user_view_post_term` takes once the restricted roles are collected. */
  function TermDecision(canView: bool, userId: nat, restricted: seq<string>, userRoles: seq<string>): (r: bool)
    ensures r ==> canView
    ensures restricted == [] ==> r == canView
    ensures restricted != [] && userId == 0 ==> !r
    ensures restricted != [] && userId != 0 ==>
      r == (canView && exists x :: x in restricted && x in userRoles)
    ensures !r <==> !canView || TermDenied(userId, restricted, userRoles)
  {
    if restricted != [] && userId == 0 then false
    else if restricted != [] && userId != 0 then
      (var common := Intersect(restricted, userRoles);
       if common == [] then false else assert common[0] in common; canView)
    else canView
  }

  /**
   * `can_user_view_post_term`. The post's `category`/`post_tag` term ids
   * and the user's roles are inputs; each denial records
   * restricted term => post in the global error map.
   */
  method CanUserViewPostTerm(canView: bool, userId: nat, postId: nat, postTerms: seq<nat>, terms: Table,
                             userRoles: seq<string>, errors: TermErrors) returns (allowed: bool)
    requires errors.Valid()
    modifies errors
    ensures errors.Valid()
    ensures allowed == TermDecision(canView, userId, RestrictedRoles(terms, postTerms), userRoles)
    ensures errors.entries ==
      if TermDenied(userId, RestrictedRoles(terms, postTerms), userRoles)
      then Assigned(old(errors.entries), RestrictedTerm(terms, postTerms), postId)
      else old(errors.entries)
  {
    var restrictedRoles, restrictedTermId := CollectRestrictions(terms, postTerms);
    if restrictedRoles != [] && userId == 0 {
      errors.Record(restrictedTermId, postId);
      return false;
    } else if restrictedRoles != [] && userId != 0 {
      var result := Intersect(restrictedRoles, userRoles);
      if result == [] {
        errors.Record(restrictedTermId, postId);
        return false;
      } else {
        return canView;
      }
    }
    return canView;
  }

  /* ================= can_user_view_post_single ================= */

  /** `get_user_single_access` of the public side: reads `_wpi_single_access`. */
  function GetUserSingleAccess(users: Table, userId: nat): (r: Lookup)
    ensures r.IsEmpty() <==> !Truthy(Single(users, userId, PublicUserSingleAccessKey))
    ensures r.Listed? <==> Truthy(Single(users, userId, PublicUserSingleAccessKey))
    ensures !r.Listed? ==> r == Raw(Single(users, userId, PublicUserSingleAccessKey))
    ensures r.Listed? ==> |r.ids| >= 1 && CommaFree(r.ids) && Implode(r.ids) == Single(users, userId, PublicUserSingleAccessKey)
  {
    ParseAllowlist(Single(users, userId, PublicUserSingleAccessKey))
  }

  /**
   * A list written under `_wpi_single_access` is read back by the public
   * getter as exactly that list, whenever its text is truthy.
   */
  lemma PublicAllowlistReadsBack(users: Table, userId: nat, ids: seq<string>)
    requires |ids| >= 1 && CommaFree(ids) && Truthy(Implode(ids))
    ensures GetUserSingleAccess(UpdateRows(users, userId, PublicUserSingleAccessKey, Implode(ids)), userId) == Listed(ids)
  {
    UpdateThenSingle(users, userId, PublicUserSingleAccessKey, Implode(ids));
    ExplodeImplode(ids);
  }

  /** `can_user_view_post_single`. */
  function CanUserViewPostSingle(canView: bool, userId: nat, postId: nat, users: Table, posts: Table): (r: bool)
    ensures (userId == 0 || !Truthy(Single(users, userId, PublicUserSingleAccessKey)) ||
             !Truthy(Single(posts, postId, PublicPostSingleAccessKey))) ==> r == canView
    ensures (userId != 0 && Truthy(Single(users, userId, PublicUserSingleAccessKey)) &&
             Truthy(Single(posts, postId, PublicPostSingleAccessKey))) ==>
      (r <==> Decimal(postId) in Explode(Single(users, userId, PublicUserSingleAccessKey)))
  {
    if userId == 0 then canView
    else
      var postIds := GetUserSingleAccess(users, userId);
      if postIds.IsEmpty() then canView
      else if Truthy(Single(posts, postId, PublicPostSingleAccessKey)) then Decimal(postId) in postIds.ids
      else canView
  }

  /* ================= can_user_view_post ================= */

  /**
   * The value of the `members_can_user_view_post` filter: a post is viewable
   * exactly when the term check lets it through, or the user is logged in,
   * has a non-empty allowlist that names the post, and the post is flagged
   * for single access.
   */
  function ViewDecision(canView: bool, userId: nat, postId: nat, postTerms: seq<nat>, terms: Table,
                        userRoles: seq<string>, users: Table, posts: Table): (r: bool)
    ensures r <==>
      TermDecision(canView, userId, RestrictedRoles(terms, postTerms), userRoles) ||
      (userId != 0 && Truthy(Single(users, userId, PublicUserSingleAccessKey)) &&
       Truthy(Single(posts, postId, PublicPostSingleAccessKey)) &&
       Decimal(postId) in Explode(Single(users, userId, PublicUserSingleAccessKey)))
  {
    TermDecision(canView, userId, RestrictedRoles(terms, postTerms), userRoles) ||
    CanUserViewPostSingle(false, userId, postId, users, posts)
  }

  /** `can_user_view_post`: the term check, and the single-access check when it fails. */
  method CanUserViewPost(canView: bool, userId: nat, postId: nat, postTerms: seq<nat>, terms: Table,
                         userRoles: seq<string>, users: Table, posts: Table, errors: TermErrors) returns (allowed: bool)
    requires errors.Valid()
    modifies errors
    ensures errors.Valid()
    ensures allowed == ViewDecision(canView, userId, postId, postTerms, terms, userRoles, users, posts)
    ensures errors.entries ==
      if TermDenied(userId, RestrictedRoles(terms, postTerms), userRoles)
      then Assigned(old(errors.entries), RestrictedTerm(terms, postTerms), postId)
      else old(errors.entries)
  {
    allowed := CanUserViewPostTerm(canView, userId, postId, postTerms, terms, userRoles, errors);
    if allowed {
      return allowed;
    } else {
      allowed := CanUserViewPostSingle(allowed, userId, postId, users, posts);
    }
  }

  /**
   * On a post none of whose terms carries roles, the verdict is the incoming
   * `can_view`, or else what the single-access check grants.
   */
  lemma ViewDecisionUnrestricted(canView: bool, userId: nat, postId: nat, postTerms: seq<nat>, terms: Table,
                                 userRoles: seq<string>, users: Table, posts: Table)
    requires forall i :: 0 <= i < |postTerms| ==> Get(terms, postTerms[i], AccessRoleKey) == []
    ensures ViewDecision(canView, userId, postId, postTerms, terms, userRoles, users, posts) ==
      (canView || CanUserViewPostSingle(false, userId, postId, users, posts))
  {
    RestrictedRolesEmpty(terms, postTerms);
  }

  /* ================= term_error_message ================= */

  const ErrorOpen := "<div class=\"members-access-error\">"
  const ErrorClose := "</div>"

  function Wrap(content: string): string {
    ErrorOpen + content + ErrorClose
  }

  /**
   * `term_error_message`. `post` is the global `$post` id (None when there
   * is no current post); the post's own error wins, then the error of the
   * first term recorded for this post (term 0 is falsy and skipped), then
   * the incoming message.
   */
  function TermErrorMessage(message: string, post: Option<nat>, errors: ErrorMap, posts: Table, terms: Table): (r: string)
    ensures post.Some? && Truthy(Single(posts, post.value, AccessErrorKey)) ==>
      r == Wrap(Single(posts, post.value, AccessErrorKey))
    ensures !(post.Some? && Truthy(Single(posts, post.value, AccessErrorKey))) ==>
      var found := SearchValue(errors, if post.Some? then post.value else 0);
      if found.Some? && found.value != 0 && Truthy(Single(terms, found.value, AccessErrorKey))
      then r == Wrap(Single(terms, found.value, AccessErrorKey))
      else r == Wrap(message)
  {
    if post.Some? && Truthy(Single(posts, post.value, AccessErrorKey)) then
      Wrap(Single(posts, post.value, AccessErrorKey))
    else
      // with no current post, `$post->ID` is null, which loosely equals only 0
      var termId := SearchValue(errors, if post.Some? then post.value else 0);
      if termId.Some? && termId.value != 0 && Truthy(Single(terms, termId.value, AccessErrorKey)) then
        Wrap(Single(terms, termId.value, AccessErrorKey))
      else
        Wrap(message)
  }

  /** Whatever is chosen, the message is wrapped in the plugin's error `div`. */
  lemma ErrorMessageWrapped(message: string, post: Option<nat>, errors: ErrorMap, posts: Table, terms: Table)
    ensures var r := TermErrorMessage(message, post, errors, posts, terms);
      |r| >= |ErrorOpen| + |ErrorClose| &&
      r[..|ErrorOpen|] == ErrorOpen && r[|r| - |ErrorClose|..] == ErrorClose
  {
  }
}
