/** The folder server functions: four queries and the three folder
    mutations, as functions of the tables. */
module FolderApi {
  import opened Wrappers
  import opened Text
  import opened Schema
  import opened Api

  /** `getFolders`: the folders `user` owns, by id. */
  function GetFolders(t: Tables, user: UserId): (r: map<Id, Folder>)
    ensures r.Keys <= t.folders.Keys
    ensures forall id :: id in r ==> r[id] == t.folders[id] && r[id].createdBy == user
    ensures forall id :: id in t.folders && t.folders[id].createdBy == user ==> id in r
  {
    map id | id in t.folders && t.folders[id].createdBy == user :: t.folders[id]
  }

  /** `getFolderById`: the folder when `user` owns it; undefined otherwise,
      whether it is missing or someone else's. */
  function GetFolderById(t: Tables, user: UserId, id: Id): (r: Option<Folder>)
    ensures r.Some? ==> id in t.folders && r.value == t.folders[id] && r.value.createdBy == user
    ensures id in t.folders && t.folders[id].createdBy == user ==> r == Some(t.folders[id])
  {
    if id in t.folders && t.folders[id].createdBy == user then Some(t.folders[id]) else None
  }

  /** The single-folder lookup agrees with the list: a folder is found by id
      exactly when it is among the user's folders. */
  lemma FolderByIdInFolders(t: Tables, user: UserId, id: Id)
    ensures GetFolderById(t, user, id).Some? <==> id in GetFolders(t, user)
    ensures id in GetFolders(t, user) ==> GetFolderById(t, user, id) == Some(GetFolders(t, user)[id])
  {
  }

  /** The junction rows of one folder. */
  function FolderLinks(t: Tables, folderId: Id): set<Link> {
    set l | l in t.bookmarkFolders && l.targetId == folderId
  }

  /** A row of `getFoldersWithBookmarkCount`. */
  datatype FolderCount = FolderCount(id: Id, name: string, bookmarkCount: nat)

  /** `getFoldersWithBookmarkCount`: the user's folders LEFT JOINed with their
      junction rows, grouped by folder, counting the non-null bookmark ids. */
  function GetFoldersWithBookmarkCount(t: Tables, user: UserId): set<FolderCount> {
    set id | id in t.folders && t.folders[id].createdBy == user ::
      FolderCount(id, t.folders[id].name, |FolderLinks(t, id)|)
  }

  /** One row per folder of the user and none for any other folder; each count
      is the number of the folder's junction rows, and 0 exactly when it has
      none. */
  lemma FolderCountsExact(t: Tables, user: UserId, id: Id)
    ensures var r := GetFoldersWithBookmarkCount(t, user);
      && (forall c :: c in r ==>
            c.id in t.folders && t.folders[c.id].createdBy == user &&
            c.name == t.folders[c.id].name && c.bookmarkCount == |FolderLinks(t, c.id)|)
      && (forall c, d :: c in r && d in r && c.id == d.id ==> c == d)
      && (id in t.folders && t.folders[id].createdBy == user ==>
            exists c :: c in r && c.id == id)
      && (|FolderLinks(t, id)| == 0 <==> forall b :: Link(b, id) !in t.bookmarkFolders)
  {
    if id in t.folders && t.folders[id].createdBy == user {
      assert FolderCount(id, t.folders[id].name, |FolderLinks(t, id)|) in GetFoldersWithBookmarkCount(t, user);
    }
    if exists b :: Link(b, id) in t.bookmarkFolders {
      var b :| Link(b, id) in t.bookmarkFolders;
      assert Link(b, id) in FolderLinks(t, id);
    }
  }

  /** `getFoldersbyBookmark`: id -1 is rejected; otherwise the distinct
      `{id, name}` of the user's folders linked to the bookmark. */
  function GetFoldersByBookmark(t: Tables, user: UserId, bookmarkId: Id): Result<set<NamedRef>, ApiError> {
    if bookmarkId == -1 then Failure(InvalidBookmark)
    else Success(set l | l in t.bookmarkFolders && l.bookmarkId == bookmarkId &&
                   l.targetId in t.folders && t.folders[l.targetId].createdBy == user ::
                   NamedRef(l.targetId, t.folders[l.targetId].name))
  }

  /** A folder is listed for a bookmark exactly when it is linked to it and
      owned by the user, under its stored name; no folder is listed twice. */
  lemma FoldersByBookmarkExact(t: Tables, user: UserId, bookmarkId: Id, x: Id, name: string)
    requires bookmarkId != -1
    ensures var r := GetFoldersByBookmark(t, user, bookmarkId).value;
      && (NamedRef(x, name) in r <==>
            Link(bookmarkId, x) in t.bookmarkFolders && x in t.folders &&
            t.folders[x].createdBy == user && t.folders[x].name == name)
      && (forall a, b :: a in r && b in r && a.id == b.id ==> a == b)
  {
    if Link(bookmarkId, x) in t.bookmarkFolders && x in t.folders &&
       t.folders[x].createdBy == user && t.folders[x].name == name {
      var l := Link(bookmarkId, x);
      assert NamedRef(l.targetId, t.folders[l.targetId].name) == NamedRef(x, name);
    }
  }

  /** The `addFolder` request after validation. */
  datatype FolderInput = FolderInput(name: string, description: Option<string>)

  /** The folder name schema checks non-emptiness before trimming, so a name
      of spaces is accepted. */
  predicate ValidFolderInput(input: FolderInput) {
    input.name != ""
  }

  /** `addFolder`: one INSERT of the user's folder under the next serial, with
      the trimmed name and the description defaulting to "". */
  function AddFolder(t: Tables, s: Serials, user: UserId, input: FolderInput, now: Time): Result<Tables, DbError> {
    InsertFolder(t, s.folder, NewFolder(user, Trim(input.name), input.description, now))
  }

  /** A name of spaces passes validation and is stored as the empty name. */
  lemma BlankFolderNameStoredEmpty(t: Tables, s: Serials, user: UserId, now: Time)
    requires s.folder !in t.folders && !FolderNameTaken(t.folders, user, "", s.folder)
    ensures ValidFolderInput(FolderInput("  ", None))
    ensures var r := AddFolder(t, s, user, FolderInput("  ", None), now);
      r.Success? && r.value.folders[s.folder].name == ""
  {
    assert Trim("  ") == "" by {
      TrimEmptyIffBlank("  ");
      assert IsBlank("  ") by {
        assert forall i :: 0 <= i < 2 ==> "  "[i] == ' ';
      }
    }
  }

  /** An add creates exactly one folder, owned by the user, with the trimmed
      name, the given or default description, private, and stamped now; it
      fails exactly when the user already has a folder with that trimmed
      name. */
  lemma AddFolderEffect(t: Tables, s: Serials, user: UserId, input: FolderInput, now: Time)
    requires SerialsAhead(t, s)
    ensures var r := AddFolder(t, s, user, input, now);
      && (r.Success? <==> !FolderNameTaken(t.folders, user, Trim(input.name), s.folder))
      && (r.Success? ==>
            && s.folder !in t.folders
            && r.value == t.(folders := t.folders[s.folder := r.value.folders[s.folder]])
            && var f := r.value.folders[s.folder];
            && f.createdBy == user && f.name == Trim(input.name)
            && f.description == (if input.description.Some? then input.description.value else "")
            && !f.isPublic && f.createdAt == now && f.updatedAt == now)
  {
  }

  /** `updateFolder`: an UPDATE of name and description by id alone, without
      any ownership check. A missing description leaves the column as it was;
      a missing id matches no row and changes nothing. */
  function UpdateFolder(t: Tables, id: Id, input: FolderInput): Result<Tables, DbError> {
    if id !in t.folders then Success(t)
    else
      var f := t.folders[id];
      UpdateFolderRow(t, id, f.(name := Trim(input.name), description := input.description.GetOr(f.description)))
  }

  /** An update touches only the name and description of that one folder, whoever
      owns it; it fails exactly when the owner has another folder with the new
      name. */
  lemma UpdateFolderEffect(t: Tables, id: Id, input: FolderInput)
    ensures var r := UpdateFolder(t, id, input);
      && (id !in t.folders ==> r == Success(t))
      && (id in t.folders ==>
            && (r.Success? <==> !FolderNameTaken(t.folders, t.folders[id].createdBy, Trim(input.name), id))
            && (r.Success? ==>
                  && r.value == t.(folders := t.folders[id := r.value.folders[id]])
                  && var before, after := t.folders[id], r.value.folders[id];
                  && after.name == Trim(input.name)
                  && after.description == (if input.description.Some? then input.description.value else before.description)
                  && after.createdBy == before.createdBy && after.isPublic == before.isPublic
                  && after.createdAt == before.createdAt && after.updatedAt == before.updatedAt))
  {
  }

  /** `deleteFolder`: id -1 is rejected; a folder owned by someone else is
      refused; otherwise the row is deleted (a missing row is no error) and
      its junction rows cascade. */
  function DeleteFolder(t: Tables, user: UserId, id: Id): Result<Tables, ApiError> {
    if id == -1 then Failure(InvalidFolder)
    else if id in t.folders && t.folders[id].createdBy != user then Failure(Unauthorized)
    else Success(DeleteFolderCascade(t, id))
  }

  /** A permitted delete removes the folder and exactly its junction rows; every
      bookmark remains. A delete of a missing folder changes nothing. */
  lemma DeleteFolderEffect(t: Tables, user: UserId, id: Id)
    requires Valid(t)
    ensures var r := DeleteFolder(t, user, id);
      && (r.Failure? <==> id == -1 || (id in t.folders && t.folders[id].createdBy != user))
      && (r.Success? ==>
            && Valid(r.value)
            && r.value.folders == t.folders - {id}
            && r.value.bookmarks == t.bookmarks && r.value.tags == t.tags
            && r.value.bookmarkTags == t.bookmarkTags
            && (forall l :: l in r.value.bookmarkFolders <==> l in t.bookmarkFolders && l.targetId != id))
      && (r.Success? && id !in t.folders ==> r.value == t)
  {
    var r := DeleteFolder(t, user, id);
    if r.Success? && id !in t.folders {
      var u := r.value;
      assert u.bookmarkFolders == t.bookmarkFolders;
      assert u.folders == t.folders;
    }
  }
}
