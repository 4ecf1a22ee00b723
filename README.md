# Restrict Taxonomy Members: decision and bookkeeping model

A Dafny model of the decision and bookkeeping logic of the `rt-members` WordPress plugin.
The plugin restricts posts to users holding membership roles. It does this through the
categories and tags the posts carry, plus a per-user single-post allowlist.

The WordPress meta store is modelled as values. For each object id and meta key there is an
ordered list of text rows (`MetaStore.Table`). Posts, users and terms each get one such table,
and each is held by a `MetaStore.MetaTable` object that the admin operations update in place.
The store behaves as follows:

- `get_*_meta(..., true)` returns the first row, or "" when there is none.
- `add_*_meta` appends a row.
- `update_*_meta` rewrites every row, or adds one.
- `delete_*_meta` with a value removes the rows equal to that value; with "" it removes all rows.

PHP's truthiness of strings matters throughout: "" and "0" are falsy (`PhpText.Truthy`).

The model has these parts:

- **`PhpText`**: `explode`/`implode` on ",", `array_search` plus `unset`, the decimal text of
  ids, and the `(int)` cast.
- **`SingleAccess`**: the comma-separated allowlist row: what `user_single_access_add` and
  `user_single_access_remove` write back, and how the getter parses it.
- **`RtMembersAdmin`**: the admin operations. The ones that change the store are methods on
  `MetaTable` objects:
  - `SetTermRoles` keeps the two `foreach` loops of `set_term_roles`;
  - `SaveTermMeta` keeps the branches of `save_term_meta`;
  - `UserSingleAccessAdd` and `UserSingleAccessRemove` read, rewrite and write back the row.

  Each of these is proved equal to a specification function (`ReconciledRoles`,
  `SavedTermMeta`, `AllowlistAdd`, `AllowlistRemove`). The properties are proved as lemmas
  about those functions.
- **`RtMembersPublic`**: the viewing filter, and the global `$rt_members_term_error` as a
  `TermErrors` object holding an ordered PHP array.
  - `CanUserViewPostTerm` keeps the nested loop of `can_user_view_post_term`.
  - `CanUserViewPostSingle` and `TermErrorMessage` are functions.
  - `CanUserViewPost` combines the two checks.
- **`MetaKeys`**: the meta keys, each exactly as the side that uses it spells it. The admin
  side writes the single-access data under `_rt_single_access`. The public side reads the
  user's list from `_wpi_single_access` and the post's flag from `_wpim_single_access`.
  `Integration.AdminAllowlistNotReadByPublic` and `Integration.AdminFlagNotReadByPublic`
  prove that nothing the admin side writes there changes the public single-access decision.

Where the code and the plugin's own description differ, the model follows the code:

- The help text of the term meta box (admin/class-rt-members-admin.php:457) says that the
  author, users who can edit the content and holders of `restrict_content` can view the
  content regardless of role. `can_user_view_post_term` has no such exception.
  `RtMembersPublic.TermDecision` refuses every logged-in user who holds none of the
  restricted roles, even when `can_view` arrives true.
- The error map is never reset. The local `$rt_members_term_error = array()` at
  public/class-rt-members-public.php:184 is overridden by the `global` statement that
  follows it, so denials accumulate across calls.

## Model

| member | source | states |
|---|---|---|
| `PhpText.Truthy` | admin/class-rt-members-admin.php:150 | PHP truthiness of a string: only "" and "0" are falsy, so every string of two or more characters is truthy, and a one-character string is falsy only when it is "0" |
| `PhpText.Explode` | admin/class-rt-members-admin.php:151 | explode(",") yields at least one piece, and no piece contains a comma |
| `PhpText.ImplodeExplode` | admin/class-rt-members-admin.php:151-155 | implode of explode is the identity on every string, so rewriting an unchanged list writes back the same row |
| `PhpText.Implode` | admin/class-rt-members-admin.php:155 | joining comma-free pieces puts a comma in the text exactly when there are two or more pieces (its round trips are `PhpText.ImplodeExplode` and `PhpText.ExplodeImplode`) |
| `PhpText.ExplodeImplode` | admin/class-rt-members-admin.php:151-155 | explode of implode gives back any non-empty list of comma-free ids |
| `PhpText.IndexOf` | admin/class-rt-members-admin.php:272 | array_search finds the first position holding the id |
| `PhpText.RemoveFirst` | admin/class-rt-members-admin.php:272-274 | an absent id leaves the list as it is; a present one shortens it by one, removing one occurrence of the id and nothing else (as multisets) |
| `PhpText.RemoveFirstSpec` | admin/class-rt-members-admin.php:272-274 | unset at the found key removes exactly one entry and keeps the entries before and after it, in order; an absent id changes nothing |
| `PhpText.Decimal` | admin/class-rt-members-admin.php:157 | the id's text is non-empty and all digits, and it is falsy exactly for id 0 |
| `PhpText.IntCast` | admin/class-rt-members-admin.php:135 | only a leading "-" after whitespace gives a negative number; an all-blank string, or one whose first non-blank character is neither a digit nor a sign, casts to 0 |
| `PhpText.IntCastDigits` | admin/class-rt-members-admin.php:135 | a plain string of digits casts to the number it spells |
| `PhpText.IntCastIntText` | admin/class-rt-members-admin.php:135 | the integer stored by the (int) cast reads back, when cast again, as the same integer |
| `SingleAccess.ParseAllowlist` | admin/class-rt-members-admin.php:370-378 | a falsy row comes back as `Raw(row)` and counts as empty; a truthy row comes back `Listed` as a non-empty list of comma-free pieces that implode to the row, which `PhpText.ExplodeImplode` makes exactly explode's result |
| `SingleAccess.AllowlistAdd` | admin/class-rt-members-admin.php:150-158 | the written row, exploded, lists the post and every id the stored row listed |
| `SingleAccess.AllowlistRemove` | admin/class-rt-members-admin.php:268-277 | a falsy row is written back as it is; otherwise the written row reads back as the old list without the first entry naming the post, or is falsy exactly when what remains is [], [""] or ["0"] |
| `SingleAccess.AddAppends` | admin/class-rt-members-admin.php:150-155 | adding an unlisted id to a non-empty list keeps every entry in order and appends the id |
| `SingleAccess.AddPresentUnchanged` | admin/class-rt-members-admin.php:150-155 | adding an id already in a non-empty list writes back exactly the stored row |
| `SingleAccess.AddIdempotent` | admin/class-rt-members-admin.php:147-160 | adding the same id twice stores the same row as adding it once, for every stored row |
| `SingleAccess.RemoveFirstEntry` | admin/class-rt-members-admin.php:266-279 | removal deletes only the first entry equal to the id; the rest is read back in order, or the row becomes "" when nothing remains |
| `SingleAccess.RemoveAbsentUnchanged` | admin/class-rt-members-admin.php:266-279 | removing an unlisted id, or removing from an empty row, writes back the same row |
| `SingleAccess.AddThenRemove` | admin/class-rt-members-admin.php:265-281 | adding an unlisted id and then removing it restores the list; for a non-empty list it restores the very same row |
| `RtMembersAdmin.SaveSingleAccessSettings` | admin/class-rt-members-admin.php:132-137 | when the flag is posted, post meta `_rt_single_access` becomes its (int) cast; otherwise nothing changes |
| `RtMembersAdmin.SavedFlagReadsBack` | admin/class-rt-members-admin.php:135 | the stored integer reads back, cast again, as the same integer, and the stored flag is truthy iff that integer is not 0 |
| `RtMembersAdmin.UserSingleAccessAdd` | admin/class-rt-members-admin.php:147-162 | the user's `_rt_single_access` row becomes the allowlist-add of the old row, and its explosion lists the post |
| `RtMembersAdmin.UserSingleAccessRemove` | admin/class-rt-members-admin.php:265-281 | the user's `_rt_single_access` row becomes the allowlist-remove of the old row |
| `RtMembersAdmin.GetUserSingleAccess` | admin/class-rt-members-admin.php:370-378 | reads `_rt_single_access`: a falsy row comes back as it is and counts as empty; a truthy row comes back as a non-empty list of comma-free ids that implode to the row |
| `RtMembersAdmin.AdminListsAddedPost` | admin/class-rt-members-admin.php:147-162 | after adding a non-zero id, the admin getter returns a list containing it |
| `RtMembersAdmin.UserRoleAdd` | admin/class-rt-members-admin.php:172-184 | refused (false) exactly for user 0 or a falsy role; otherwise the role is added and no other role changes |
| `RtMembersAdmin.UserRoleRemove` | admin/class-rt-members-admin.php:229-241 | refused exactly for user 0 or a falsy role; otherwise the role is removed and no other role changes |
| `RtMembersAdmin.RoleAddThenRemove` | admin/class-rt-members-admin.php:229-241 | adding a role the user lacks and then removing it restores the user's roles |
| `RtMembersAdmin.RemoveRoleSettings` | admin/class-rt-members-admin.php:249-255 | a map is written back exactly when the stored value is an array holding the role; it then holds every other key with its old value, and not the role |
| `RtMembersAdmin.RemoveRoleSettingsOnce` | admin/class-rt-members-admin.php:249-255 | removing the same role a second time writes nothing |
| `RtMembersAdmin.NewRolesMembers` | admin/class-rt-members-admin.php:551-557 | the first loop adds exactly the posted roles that were not stored before |
| `RtMembersAdmin.PrunedMembers` | admin/class-rt-members-admin.php:560-566 | the second loop keeps exactly the rows that are not a registered role, not posted, and stored before |
| `RtMembersAdmin.PrunedStep` | admin/class-rt-members-admin.php:563-564 | one more deletion by value removes every row equal to a stale registered role, and nothing else |
| `RtMembersAdmin.ReconciledMembers` | admin/class-rt-members-admin.php:548-566 | after set_term_roles, a role is stored iff it was posted, or it was stored before and is not a registered role |
| `RtMembersAdmin.ReconciledOrder` | admin/class-rt-members-admin.php:548-566 | surviving rows keep their stored order; new roles follow in posted order, and a role posted twice is added twice |
| `RtMembersAdmin.SetTermRoles` | admin/class-rt-members-admin.php:544-567 | the term's `_rt_members_access_role` rows become the reconciled list, and every other slot is unchanged |
| `RtMembersAdmin.SaveTermMeta` | admin/class-rt-members-admin.php:494-535 | the term meta after the call is the saved-term-meta of the old one: nonce check, then roles, then message |
| `RtMembersAdmin.SaveTermMetaNeedsNonce` | admin/class-rt-members-admin.php:497-499 | without a valid nonce no meta changes |
| `RtMembersAdmin.SaveTermMetaRoles` | admin/class-rt-members-admin.php:504-516 | a posted role array gives the reconciled roles; no array deletes every role row |
| `RtMembersAdmin.SaveTermMetaMessage` | admin/class-rt-members-admin.php:521-533 | an empty new message deletes a truthy old one; a differing message is written; an identical one is left as it is |
| `RtMembersAdmin.SaveTermMetaFrame` | admin/class-rt-members-admin.php:494-535 | only this term's roles and error message can change |
| `RtMembersPublic.Assigned` | public/class-rt-members-public.php:216 | after `$e[$k] = $v` the key holds v; a new key is appended after every old entry, and an existing key does not grow the array |
| `RtMembersPublic.AssignedValues` | public/class-rt-members-public.php:216 | recording term => post sets that key and leaves every other key's post as it was |
| `RtMembersPublic.AssignedKeys` | public/class-rt-members-public.php:227 | a recorded term keeps its place in the array if present, and is appended otherwise |
| `RtMembersPublic.AssignedDistinct` | public/class-rt-members-public.php:227 | the error map never holds a term twice |
| `RtMembersPublic.SearchValue` | public/class-rt-members-public.php:256 | array_search finds nothing exactly when no entry holds the post; otherwise it returns the key of the first entry holding it |
| `RtMembersPublic.SearchFindsAssigned` | public/class-rt-members-public.php:256 | when no term recorded the post before, array_search for the post finds the term just recorded |
| `RtMembersPublic.TermErrors.Record` | public/class-rt-members-public.php:216 | the global map becomes the old map with term => post assigned |
| `RtMembersPublic.RestrictedRolesEmpty` | public/class-rt-members-public.php:199-211 | the collected roles are empty iff none of the post's terms carries roles |
| `RtMembersPublic.RestrictedRolesMembers` | public/class-rt-members-public.php:199-211 | a role is collected iff it is stored on one of the post's terms |
| `RtMembersPublic.RestrictedTermIsLast` | public/class-rt-members-public.php:199-210 | the recorded term is one of the post's terms that carries roles, and no later term carries any |
| `RtMembersPublic.CollectRestrictions` | public/class-rt-members-public.php:195-211 | the nested loop yields the collected roles and the last restricting term |
| `RtMembersPublic.Intersect` | public/class-rt-members-public.php:224 | array_intersect holds exactly the restricted roles the user has |
| `RtMembersPublic.TermDecision` | public/class-rt-members-public.php:214-236 | never grants access; an unrestricted post keeps `can_view`; anonymous users are refused on a restricted post; a logged-in user gets `can_view` iff they share a role |
| `RtMembersPublic.CanUserViewPostTerm` | public/class-rt-members-public.php:183-237 | returns the term decision over the collected roles; each denial, and only a denial, records last restricting term => post |
| `RtMembersPublic.GetUserSingleAccess` | public/class-rt-members-public.php:162-170 | reads `_wpi_single_access`: a falsy row comes back as it is and counts as empty; a truthy row comes back as a non-empty list of comma-free ids that implode to the row |
| `RtMembersPublic.PublicAllowlistReadsBack` | public/class-rt-members-public.php:162-170 | a non-empty comma-free list written with truthy text under `_wpi_single_access` is read back as exactly that list |
| `RtMembersPublic.CanUserViewPostSingle` | public/class-rt-members-public.php:136-152 | returns `can_view` for user 0, an empty list, or an unflagged post (`_wpim_single_access`); otherwise whether the post is listed |
| `RtMembersPublic.CanUserViewPost` | public/class-rt-members-public.php:114-125 | the term check, or else the single-access check run with `can_view` false |
| `RtMembersPublic.ViewDecision` | public/class-rt-members-public.php:114-125 | viewable iff the term check passes, or the user is logged in with a non-empty list naming the post and the post is flagged |
| `RtMembersPublic.ViewDecisionUnrestricted` | public/class-rt-members-public.php:116-122 | on a post whose terms carry no roles, the verdict is `can_view`, or whatever the single-access check grants |
| `RtMembersPublic.TermErrorMessage` | public/class-rt-members-public.php:247-266 | the post's own error comes first, then the error of the first term recorded for the post (term 0 skipped), then the incoming message |
| `RtMembersPublic.ErrorMessageWrapped` | public/class-rt-members-public.php:253-263 | every result is wrapped in the `members-access-error` div |
| `Integration.AdminAllowlistNotReadByPublic` | public/class-rt-members-public.php:163 | no write to user meta `_rt_single_access` changes the public single-access decision |
| `Integration.AdminFlagNotReadByPublic` | public/class-rt-members-public.php:144 | no write to post meta `_rt_single_access` changes the public single-access decision |
| `Integration.SavedRolesRestrictPost` | public/class-rt-members-public.php:215-231 | saving a non-empty role list on one of the post's terms refuses anonymous visitors; a user holding a saved role keeps `can_view` from the term check |
| `Integration.DeniedPostShowsTermError` | public/class-rt-members-public.php:256-260 | after a denial of a post with no error of its own, the restricting term's error is shown |

## Left out

- Hook wiring, bootstrap, activation and deactivation: includes/class-rt-members.php,
  rt-members.php, and the activator and deactivator. These only register with WordPress,
  schedule cron and redirect.
- The admin JavaScript and all HTML rendering: `profile_fields`, `taxonomy_meta_box`,
  `register_membership_meta_boxes`, `enqueue_*` and `register_settings_page`. These are
  output and registration with foreign registries.
- `get_role_settings`: it depends on `get_membership_settings`, which is not part of this
  model.
- WordPress internals are inputs or abstractions, not models:
  - the nonce check is a boolean;
  - `wp_unslash`, `wp_kses_post` and `members_sanitize_role` are taken as already applied to
    the posted values;
  - `wp_get_object_terms` is the sequence of the post's `category`/`post_tag` term ids;
    a `WP_Error` result is not modelled;
  - `get_userdata(...)->roles` is the sequence of the user's roles; a missing user is not
    modelled;
  - `WP_User::add_role` and `remove_role` are set insertion and removal.
- PHP loose comparison between numeric strings (`in_array`, `array_search`) is not modelled.
  Ids are compared as canonical decimal text and role names by string equality, so a listed
  "05" does not match post 5 here, although it would in PHP.
- `PhpText.IntCast`: does not model PHP's exponent and float forms ("1e3" casts to 1000) or
  saturation at `PHP_INT_MAX`. Integers are unbounded.
- Every meta value is text. PHP type errors are not modelled: `explode` on an array-valued
  `_rt_single_access` row, and `array_search` on a `$rt_members_term_error` that no check has
  set yet.
- `RtMembersAdmin.RemoveRoleSettings`: the settings payload is abstracted to strings, and
  the map's key order is not kept. The function decides what is written back; the write is
  not modelled.
- `RtMembersPublic.TermErrorMessage`: when there is no current post, `$post->ID` is null.
  PHP's loose comparison makes null equal only a post id of 0, so the model searches for
  post 0.
- Concurrency between requests, and the return values of the WordPress meta functions, are
  not modelled.
