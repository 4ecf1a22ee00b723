/**
 * The WordPress meta store as the plugin sees it: for each object id and
 * meta key, an ordered list of text rows. Posts, users and terms each have a
 * table of their own. "No rows" and "no slot" are the same state: every
 * operation goes through Put, which drops a slot whose last row goes.
 */
module MetaStore {

  datatype Slot = Slot(id: nat, key: string)

  type Table = map<Slot, seq<string>>

  /** `get_*_meta($id, $key, false)`: every row, in insertion order. */
  function Get(t: Table, id: nat, key: string): seq<string> {
    if Slot(id, key) in t then t[Slot(id, key)] else []
  }

  /** `get_*_meta($id, $key, true)`: the first row, or "" when there is none. */
  function Single(t: Table, id: nat, key: string): string {
    var rows := Get(t, id, key);
    if rows == [] then "" else rows[0]
  }

  /** A table holds no slot without rows. */
  ghost predicate Normal(t: Table) {
    forall s :: s in t ==> t[s] != []
  }

  /** Replaces the rows of one slot and leaves every other slot alone. */
  function Put(t: Table, id: nat, key: string, rows: seq<string>): (r: Table)
    ensures Get(r, id, key) == rows
    ensures forall s :: s != Slot(id, key) ==> (s in r <==> s in t) && (s in r ==> r[s] == t[s])
    ensures Normal(t) ==> Normal(r)
  {
    if rows == [] then t - {Slot(id, key)} else t[Slot(id, key) := rows]
  }

  lemma PutGetOther(t: Table, id: nat, key: string, rows: seq<string>, id': nat, key': string)
    requires Slot(id', key') != Slot(id, key)
    ensures Get(Put(t, id, key, rows), id', key') == Get(t, id', key')
  {
  }

  lemma PutTwice(t: Table, id: nat, key: string, rows: seq<string>, rows': seq<string>)
    ensures Put(Put(t, id, key, rows), id, key, rows') == Put(t, id, key, rows')
  {
  }

  lemma PutSame(t: Table, id: nat, key: string)
    requires Normal(t)
    ensures Put(t, id, key, Get(t, id, key)) == t
  {
  }

  /** The rows of s that differ from v. */
  function RemoveAll(s: seq<string>, v: string): (r: seq<string>)
    ensures forall x :: x in r <==> x in s && x != v
  {
    if s == [] then []
    else if s[0] == v then RemoveAll(s[1..], v)
    else [s[0]] + RemoveAll(s[1..], v)
  }

  /** `add_*_meta($id, $key, $v, false)`: appends one row. */
  function AddRow(t: Table, id: nat, key: string, v: string): Table {
    Put(t, id, key, Get(t, id, key) + [v])
  }

  /**
   * `update_*_meta($id, $key, $v)`: every existing row becomes v; without
   * rows, one row v is added.
   */
  function UpdateRows(t: Table, id: nat, key: string, v: string): Table {
    var rows := Get(t, id, key);
    Put(t, id, key, if rows == [] then [v] else seq(|rows|, _ => v))
  }

  /** `delete_*_meta($id, $key)`: every row goes. */
  function DeleteRows(t: Table, id: nat, key: string): Table {
    Put(t, id, key, [])
  }

  /** `delete_*_meta($id, $key, $v)`: the rows equal to v go; v == "" means every row. */
  function DeleteRowValue(t: Table, id: nat, key: string, v: string): Table {
    if v == "" then DeleteRows(t, id, key) else Put(t, id, key, RemoveAll(Get(t, id, key), v))
  }

  /** After an update, the single value read back is the value written. */
  lemma UpdateThenSingle(t: Table, id: nat, key: string, v: string)
    ensures Single(UpdateRows(t, id, key, v), id, key) == v
    ensures Get(UpdateRows(t, id, key, v), id, key) != []
  {
  }

  /** One table of the meta store (post meta, user meta or term meta). */
  class MetaTable {
    var rows: Table

    ghost predicate Valid()
      reads this
    {
      Normal(rows)
    }

    constructor ()
      ensures Valid() && rows == map[]
    {
      rows := map[];
    }

    method Add(id: nat, key: string, v: string)
      requires Valid()
      modifies this
      ensures Valid() && rows == AddRow(old(rows), id, key, v)
    {
      rows := AddRow(rows, id, key, v);
    }

    method Update(id: nat, key: string, v: string)
      requires Valid()
      modifies this
      ensures Valid() && rows == UpdateRows(old(rows), id, key, v)
    {
      rows := UpdateRows(rows, id, key, v);
    }

    method Delete(id: nat, key: string)
      requires Valid()
      modifies this
      ensures Valid() && rows == DeleteRows(old(rows), id, key)
    {
      rows := DeleteRows(rows, id, key);
    }

    method DeleteValue(id: nat, key: string, v: string)
      requires Valid()
      modifies this
      ensures Valid() && rows == DeleteRowValue(old(rows), id, key, v)
    {
      rows := DeleteRowValue(rows, id, key, v);
    }
  }
}

/**
 * The meta keys, exactly as each side of the plugin spells them. The admin
 * side and the public side do not agree on the single-access keys.
 */
module MetaKeys {
  /** Term meta, one row per restricted role. */
  const AccessRoleKey := "_rt_members_access_role"
  /** Term meta and post meta: the custom access error message. */
  const AccessErrorKey := "_members_access_error"
  /** Written by the admin side: the user's allowlist and the post's flag. */
  const AdminSingleAccessKey := "_rt_single_access"
  /** Read by the public side as the user's allowlist. */
  const PublicUserSingleAccessKey := "_wpi_single_access"
  /** Read by the public side as the post's single-access flag. */
  const PublicPostSingleAccessKey := "_wpim_single_access"
}
