/**
 * The per-user single-post allowlist: post ids kept as one comma-separated
 * text row. A falsy row ("" or "0") means "no list".
 */
module SingleAccess {
  import opened PhpText

  /**
   * What `get_user_single_access` returns: the raw falsy row when it is
   * empty, the exploded ids otherwise.
   */
  datatype Lookup = Raw(value: string) | Listed(ids: seq<string>) {
    /** PHP `empty()` of the returned value. */
    predicate IsEmpty() {
      match this
      case Raw(v) => !Truthy(v)
      case Listed(ids) => ids == []
    }
  }

  /**
   * A falsy row comes back as it is; a truthy one as a non-empty list of
   * comma-free pieces that implode to the row, which is explode's result.
   */
  function ParseAllowlist(raw: string): (r: Lookup)
    ensures r.IsEmpty() <==> !Truthy(raw)
    ensures r.Listed? <==> Truthy(raw)
    ensures !Truthy(raw) ==> r == Raw(raw)
    ensures r.Listed? ==> |r.ids| >= 1 && CommaFree(r.ids) && Implode(r.ids) == raw
  {
    if Truthy(raw) then (ImplodeExplode(raw); Listed(Explode(raw))) else Raw(raw)
  }

  /** The ids a stored row stands for; a falsy row stands for none. */
  function Entries(raw: string): seq<string> {
    if Truthy(raw) then Explode(raw) else []
  }

  /**
   * The row `user_single_access_add` writes back: exploded, it lists the
   * post, and every id the stored row listed.
   */
  function AllowlistAdd(raw: string, postId: nat): (r: string)
    ensures Decimal(postId) in Explode(r)
    ensures forall i :: 0 <= i < |Entries(raw)| ==> Entries(raw)[i] in Explode(r)
  {
    DecimalCommaFree(postId);
    ExplodeCommaFree(Decimal(postId));
    if Truthy(raw) then
      var ids := Explode(raw);
      var ids' := if Decimal(postId) in ids then ids else ids + [Decimal(postId)];
      AppendCommaFree(ids, postId);
      ExplodeImplode(ids');
      Implode(ids')
    else Decimal(postId)
  }

  /**
   * The row `user_single_access_remove` writes back: a falsy row as it is;
   * otherwise a row that reads back as the old list without the first entry
   * naming the post, or a falsy row when what remains is [], [""] or ["0"].
   */
  function AllowlistRemove(raw: string, postId: nat): (r: string)
    ensures !Truthy(raw) ==> r == raw
    ensures Truthy(raw) && Truthy(r) ==> Explode(r) == RemoveFirst(Explode(raw), Decimal(postId))
    ensures Truthy(raw) && !Truthy(r) ==>
      var rest := RemoveFirst(Explode(raw), Decimal(postId));
      rest == [] || rest == [""] || rest == ["0"]
  {
    if Truthy(raw) then
      var rest := RemoveFirst(Explode(raw), Decimal(postId));
      RemoveFirstCommaFree(Explode(raw), Decimal(postId));
      if rest == [] then Implode(rest)
      else
        ExplodeImplode(rest);
        assert Explode("") == [""];
        ExplodeCommaFree("0");
        Implode(rest)
    else raw
  }

  lemma AppendCommaFree(ids: seq<string>, postId: nat)
    requires CommaFree(ids)
    ensures CommaFree(ids + [Decimal(postId)])
  {
    DecimalCommaFree(postId);
  }

  /** Adding to a non-empty list keeps every entry in order and appends the new id. */
  lemma AddAppends(raw: string, postId: nat)
    requires Truthy(raw) && Decimal(postId) !in Explode(raw)
    ensures Explode(AllowlistAdd(raw, postId)) == Explode(raw) + [Decimal(postId)]
  {
    AppendCommaFree(Explode(raw), postId);
    ExplodeImplode(Explode(raw) + [Decimal(postId)]);
  }

  /** Adding an id already listed writes back exactly the stored row. */
  lemma AddPresentUnchanged(raw: string, postId: nat)
    requires Truthy(raw) && Decimal(postId) in Explode(raw)
    ensures AllowlistAdd(raw, postId) == raw
  {
    ImplodeExplode(raw);
  }

  /** A falsy row that implodes from a list holding d can only be "0" with d == "0". */
  lemma FalsyImplode(ids: seq<string>, d: string)
    requires d in ids && CommaFree(ids) && !Truthy(Implode(ids)) && d != ""
    ensures ids == [d] && d == "0"
  {
  }

  /** add is idempotent on every stored row. */
  lemma AddIdempotent(raw: string, postId: nat)
    ensures AllowlistAdd(AllowlistAdd(raw, postId), postId) == AllowlistAdd(raw, postId)
  {
    var once := AllowlistAdd(raw, postId);
    var d := Decimal(postId);
    if Truthy(once) {
      AddPresentUnchanged(once, postId);
    } else if Truthy(raw) {
      var ids := Explode(raw);
      var ids' := if d in ids then ids else ids + [d];
      AppendCommaFree(ids, postId);
      FalsyImplode(ids', d);
    }
  }

  /**
   * remove deletes only the first entry equal to the id; what remains is
   * read back in order (or the row becomes "" when nothing remains).
   */
  lemma RemoveFirstEntry(raw: string, postId: nat)
    requires Truthy(raw) && Decimal(postId) in Explode(raw)
    ensures var rest := RemoveFirst(Explode(raw), Decimal(postId));
      |rest| == |Explode(raw)| - 1 &&
      (rest == [] ==> AllowlistRemove(raw, postId) == "") &&
      (rest != [] ==> Explode(AllowlistRemove(raw, postId)) == rest)
  {
    var rest := RemoveFirst(Explode(raw), Decimal(postId));
    RemoveFirstCommaFree(Explode(raw), Decimal(postId));
    if rest != [] {
      ExplodeImplode(rest);
    }
  }

  /** Removing an id that is not listed, or removing from an empty row, writes back the same row. */
  lemma RemoveAbsentUnchanged(raw: string, postId: nat)
    requires !Truthy(raw) || Decimal(postId) !in Explode(raw)
    ensures AllowlistRemove(raw, postId) == raw
  {
    if Truthy(raw) {
      ImplodeExplode(raw);
    }
  }

  /**
   * Adding an id that is not listed and then removing it restores the list:
   * the very same row when the list was non-empty.
   */
  lemma AddThenRemove(raw: string, postId: nat)
    requires Decimal(postId) !in Entries(raw)
    ensures Entries(AllowlistRemove(AllowlistAdd(raw, postId), postId)) == Entries(raw)
    ensures Truthy(raw) ==> AllowlistRemove(AllowlistAdd(raw, postId), postId) == raw
  {
    var d := Decimal(postId);
    if Truthy(raw) {
      var ids := Explode(raw);
      AddAppends(raw, postId);
      assert RemoveFirst(ids + [d], d) == ids by {
        assert IndexOf(ids + [d], d) == |ids|;
        assert (ids + [d])[..|ids|] == ids;
      }
      ImplodeExplode(raw);
    } else {
      DecimalCommaFree(postId);
      ExplodeCommaFree(d);
      if Truthy(d) {
        assert IndexOf([d], d) == 0;
        assert RemoveFirst([d], d) == [];
      }
    }
  }
}
