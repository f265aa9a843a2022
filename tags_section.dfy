/** The sidebar tag list of the bookmarks page: clicking a tag toggles its id
    in the page's URL search parameters. */
module TagsSection {
  import opened Wrappers
  import opened Seqs
  import opened Schema
  import BookmarkApi

  datatype View = Grid | List | Minimal

  /** The search parameters of the bookmarks page. */
  datatype SearchParams = SearchParams(
    folderId: Option<int>,
    tags: Option<seq<Id>>,
    access: BookmarkApi.Access,
    q: Option<string>,
    view: View)

  /** The selected tag ids, an absent parameter read as none. */
  function TagIds(p: SearchParams): seq<Id> {
    if p.tags.Some? then p.tags.value else []
  }

  /** The list with every occurrence of `id` dropped. */
  function Without(ids: seq<Id>, id: Id): seq<Id> {
    Filter(ids, (t: Id) => t != id)
  }

  /** The `search` updater of a tag link: select `id` when it is not selected
      (starting the list when there is none), deselect it when it is, and drop
      the parameter when `id` was its only entry. */
  function ToggleTag(prev: SearchParams, id: Id): (r: SearchParams)
    ensures r == prev.(tags := r.tags)
    ensures (id in TagIds(prev)) <==> (id !in TagIds(r))
    ensures Without(TagIds(r), id) == Without(TagIds(prev), id)
    ensures prev.tags.None? ==> r.tags == Some([id])
    ensures prev.tags == Some([id]) ==> r.tags.None?
    ensures prev.tags.Some? && id !in prev.tags.value ==> r.tags == Some(prev.tags.value + [id])
  {
    if prev.tags.None? then
      assert Without([id], id) == [] by {
        assert Filter([id], (t: Id) => t != id) == [] + Filter([id][1..], (t: Id) => t != id);
      }
      prev.(tags := Some([id]))
    else
      var ids := prev.tags.value;
      var p := (t: Id) => t != id;
      if id in ids then
        if |ids| == 1 then
          assert ids == [id];
          assert Without(ids, id) == [] by {
            assert Filter(ids, p) == [] + Filter(ids[1..], p);
          }
          prev.(tags := None)
        else
          FilterIdempotent(ids, p);
          FilterMembership(ids, p, id);
          prev.(tags := Some(Without(ids, id)))
      else
        FilterAppend(ids, [id], p);
        assert Filter([id], p) == [] + Filter([id][1..], p);
        prev.(tags := Some(ids + [id]))
  }

  /** Deselecting keeps the other selected tags in their order. */
  lemma ToggleRemovesInPlace(prev: SearchParams, id: Id)
    requires prev.tags.Some? && id in prev.tags.value && |prev.tags.value| > 1
    ensures ToggleTag(prev, id).tags == Some(Without(prev.tags.value, id))
    ensures IsSubsequence(ToggleTag(prev, id).tags.value, prev.tags.value)
  {
    FilterIsSubsequence(prev.tags.value, (t: Id) => t != id);
  }

  /** Clicking the same tag twice restores the parameters, when the tag list
      was absent or a non-empty list without that tag. */
  lemma ToggleTwice(prev: SearchParams, id: Id)
    requires prev.tags.None? || (prev.tags.value != [] && id !in prev.tags.value)
    ensures ToggleTag(ToggleTag(prev, id), id) == prev
  {
    if prev.tags.Some? {
      var ids := prev.tags.value;
      var p := (t: Id) => t != id;
      FilterKeepsAll(ids, p);
      FilterAppend(ids, [id], p);
      assert Filter([id], p) == [] + Filter([id][1..], p);
    }
  }

  /** From an empty tag list, two clicks do not come back: the second one
      drops the parameter. */
  lemma ToggleTwiceFromEmptyList(prev: SearchParams, id: Id)
    requires prev.tags == Some([])
    ensures ToggleTag(ToggleTag(prev, id), id) == prev.(tags := None)
  {
    assert [] + [id] == [id];
  }
}
