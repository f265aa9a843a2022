/** The tag selection store of the bookmark form: one list of selected
    tags, replaced as a whole on every update. */
module TagsStore {
  import opened Api
  import Seqs
  import opened Selection

  class TagStore {
    var selectedTags: seq<Selected>

    constructor ()
      ensures selectedTags == []
    {
      selectedTags := [];
    }

    /** `addTagToStore`: appends at the end. */
    method Add(tag: Selected)
      modifies this
      ensures selectedTags == old(selectedTags) + [tag]
      ensures GetFromStore() == old(GetFromStore()) + [ToRef(tag)]
    {
      ToRefsAppend(selectedTags, tag);
      selectedTags := selectedTags + [tag];
    }

    /** `removeTagFromStore`: drops every entry `tag` matches. */
    method Remove(tag: Selected)
      modifies this
      ensures selectedTags == Selection.Remove(old(selectedTags), tag)
      ensures Seqs.IsSubsequence(selectedTags, old(selectedTags))
      ensures forall e :: e in selectedTags ==> !Matches(e, tag)
    {
      selectedTags := Selection.Remove(selectedTags, tag);
    }

    /** `getTagsFromStore`: the references of the selected tags. */
    function GetFromStore(): (r: seq<Ref>)
      reads this
      ensures r == ToRefs(selectedTags)
    {
      ToRefs(selectedTags)
    }

    /** `resetTagStore` */
    method Reset()
      modifies this
      ensures selectedTags == [] && GetFromStore() == []
    {
      selectedTags := [];
    }

    /** `setTagsInStore`: replaces the list wholesale. */
    method Set(tags: seq<Selected>)
      modifies this
      ensures selectedTags == tags
    {
      selectedTags := tags;
    }
  }
}
