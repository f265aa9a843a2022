/** The folder selection store of the bookmark form: one list of selected
    folders, replaced as a whole on every update. */
module FoldersStore {
  import opened Api
  import Seqs
  import opened Selection

  class FolderStore {
    var selectedFolders: seq<Selected>

    constructor ()
      ensures selectedFolders == []
    {
      selectedFolders := [];
    }

    /** `addFolderToStore`: appends at the end. */
    method Add(folder: Selected)
      modifies this
      ensures selectedFolders == old(selectedFolders) + [folder]
      ensures GetFromStore() == old(GetFromStore()) + [ToRef(folder)]
    {
      ToRefsAppend(selectedFolders, folder);
      selectedFolders := selectedFolders + [folder];
    }

    /** `removeFolderFromStore`: drops every entry `folder` matches. */
    method Remove(folder: Selected)
      modifies this
      ensures selectedFolders == Selection.Remove(old(selectedFolders), folder)
      ensures Seqs.IsSubsequence(selectedFolders, old(selectedFolders))
      ensures forall e :: e in selectedFolders ==> !Matches(e, folder)
    {
      selectedFolders := Selection.Remove(selectedFolders, folder);
    }

    /** `getFoldersFromStore`: the references of the selected folders. */
    function GetFromStore(): (r: seq<Ref>)
      reads this
      ensures r == ToRefs(selectedFolders)
    {
      ToRefs(selectedFolders)
    }

    /** `resetFolderStore` */
    method Reset()
      modifies this
      ensures selectedFolders == [] && GetFromStore() == []
    {
      selectedFolders := [];
    }

    /** `setFoldersInStore`: replaces the list wholesale. */
    method Set(folders: seq<Selected>)
      modifies this
      ensures selectedFolders == folders
    {
      selectedFolders := folders;
    }
  }
}
