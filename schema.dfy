/** The relational schema: five tables, their keys and unique constraints,
    referential integrity with cascading deletes, and the constraint-checked
    writes that the server functions issue. Serial ids come from per-table
    sequences; timestamps are abstract instants. Rows of the `auth.users`
    table are not modelled: an owner is just its id. */
module Schema {
  import opened Wrappers
  import opened Seqs

  type Id = int
  type UserId = string
  type Time = int

  datatype Bookmark = Bookmark(
    name: string, url: string, description: string, isPublic: bool,
    createdBy: UserId, createdAt: Time, updatedAt: Time)

  datatype Folder = Folder(
    name: string, description: string, createdBy: UserId, isPublic: bool,
    createdAt: Time, updatedAt: Time)

  /** Tags have no owner: a tag name is shared by all users. */
  datatype Tag = Tag(name: string, createdAt: Time, updatedAt: Time)

  /** The composite primary key of a junction row. */
  datatype Link = Link(bookmarkId: Id, targetId: Id)

  /** The two junction tables, `bookmark_folders` and `bookmark_tags`. */
  datatype Junction = BookmarkFolders | BookmarkTags

  /** The database. A table with a primary key maps each key to the rest of its
      row; a junction row is its composite key with its `created_at` (its
      `updated_at` is never changed and equals it). */
  datatype Tables = Tables(
    bookmarks: map<Id, Bookmark>,
    folders: map<Id, Folder>,
    tags: map<Id, Tag>,
    bookmarkTags: map<Link, Time>,
    bookmarkFolders: map<Link, Time>)

  /** The next value of each table's serial sequence. */
  datatype Serials = Serials(bookmark: Id, folder: Id, tag: Id)

  datatype DbError = UniqueViolation | NotNullViolation | ForeignKeyViolation

  const EmptyTables := Tables(map[], map[], map[], map[], map[])
  const FreshSerials := Serials(1, 1, 1)

  /** A new folder row: `description` defaults to "" and `is_public` to false. */
  function NewFolder(owner: UserId, name: string, description: Option<string>, now: Time): Folder {
    Folder(name, description.GetOr(""), owner, false, now, now)
  }

  /** `m'` keeps every entry of `m` and may add more. */
  predicate Extends<K, V(==)>(m: map<K, V>, m': map<K, V>) {
    m.Keys <= m'.Keys && forall k :: k in m ==> m'[k] == m[k]
  }

  /** unique(created_by, url) on bookmarks */
  predicate UniqueBookmarkUrls(bs: map<Id, Bookmark>) {
    forall a, b :: a in bs && b in bs && a != b ==>
      bs[a].createdBy != bs[b].createdBy || bs[a].url != bs[b].url
  }

  /** unique(created_by, name) on folders */
  predicate UniqueFolderNames(fs: map<Id, Folder>) {
    forall a, b :: a in fs && b in fs && a != b ==>
      fs[a].createdBy != fs[b].createdBy || fs[a].name != fs[b].name
  }

  /** unique(name) on tags */
  predicate UniqueTagNames(ts: map<Id, Tag>) {
    forall a, b :: a in ts && b in ts && a != b ==> ts[a].name != ts[b].name
  }

  /** Both foreign keys of every junction row point at existing rows. */
  predicate LinksResolve(links: map<Link, Time>, bookmarkKeys: set<Id>, targetKeys: set<Id>) {
    forall l :: l in links ==> l.bookmarkId in bookmarkKeys && l.targetId in targetKeys
  }

  /** Every constraint the schema declares. */
  predicate Valid(t: Tables) {
    && UniqueBookmarkUrls(t.bookmarks)
    && UniqueFolderNames(t.folders)
    && UniqueTagNames(t.tags)
    && LinksResolve(t.bookmarkFolders, t.bookmarks.Keys, t.folders.Keys)
    && LinksResolve(t.bookmarkTags, t.bookmarks.Keys, t.tags.Keys)
  }

  /** Every id in use was drawn from its sequence, which starts at 1. */
  predicate SerialsAhead(t: Tables, s: Serials) {
    && 0 < s.bookmark && 0 < s.folder && 0 < s.tag
    && (forall id :: id in t.bookmarks ==> 0 < id < s.bookmark)
    && (forall id :: id in t.folders ==> 0 < id < s.folder)
    && (forall id :: id in t.tags ==> 0 < id < s.tag)
  }

  /** The empty database satisfies every constraint. */
  lemma EmptyValid()
    ensures Valid(EmptyTables) && SerialsAhead(EmptyTables, FreshSerials)
  {
  }

  function TargetKeys(t: Tables, j: Junction): set<Id> {
    match j
    case BookmarkFolders => t.folders.Keys
    case BookmarkTags => t.tags.Keys
  }

  function Links(t: Tables, j: Junction): map<Link, Time> {
    match j
    case BookmarkFolders => t.bookmarkFolders
    case BookmarkTags => t.bookmarkTags
  }

  function WithLinks(t: Tables, j: Junction, links: map<Link, Time>): Tables {
    match j
    case BookmarkFolders => t.(bookmarkFolders := links)
    case BookmarkTags => t.(bookmarkTags := links)
  }

  function NextSerial(s: Serials, j: Junction): Id {
    match j
    case BookmarkFolders => s.folder
    case BookmarkTags => s.tag
  }

  /** `nextval` on the target table's sequence. */
  function Advance(s: Serials, j: Junction): Serials {
    match j
    case BookmarkFolders => s.(folder := s.folder + 1)
    case BookmarkTags => s.(tag := s.tag + 1)
  }

  /** Some other bookmark of `owner` already has `url`. */
  predicate UrlTaken(bs: map<Id, Bookmark>, owner: UserId, url: string, except: Id) {
    exists id :: id in bs && id != except && bs[id].createdBy == owner && bs[id].url == url
  }

  /** Some other folder of `owner` already has `name`. */
  predicate FolderNameTaken(fs: map<Id, Folder>, owner: UserId, name: string, except: Id) {
    exists id :: id in fs && id != except && fs[id].createdBy == owner && fs[id].name == name
  }

  predicate TagNameTaken(ts: map<Id, Tag>, name: string) {
    exists id :: id in ts && ts[id].name == name
  }

  /** INSERT INTO bookmarks: fails on a taken key or a taken (owner, url). */
  function InsertBookmark(t: Tables, id: Id, row: Bookmark): (r: Result<Tables, DbError>)
    ensures r.Success? <==> id !in t.bookmarks && !UrlTaken(t.bookmarks, row.createdBy, row.url, id)
    ensures Valid(t) && r.Success? ==> Valid(r.value)
  {
    if id in t.bookmarks || UrlTaken(t.bookmarks, row.createdBy, row.url, id) then Failure(UniqueViolation)
    else Success(t.(bookmarks := t.bookmarks[id := row]))
  }

  /** UPDATE bookmarks SET ... WHERE id = `id`, for an existing row. */
  function UpdateBookmarkRow(t: Tables, id: Id, row: Bookmark): (r: Result<Tables, DbError>)
    requires id in t.bookmarks
    ensures r.Success? <==> !UrlTaken(t.bookmarks, row.createdBy, row.url, id)
    ensures Valid(t) && r.Success? ==> Valid(r.value)
  {
    if UrlTaken(t.bookmarks, row.createdBy, row.url, id) then Failure(UniqueViolation)
    else Success(t.(bookmarks := t.bookmarks[id := row]))
  }

  /** INSERT INTO folders: fails on a taken key or a taken (owner, name). */
  function InsertFolder(t: Tables, id: Id, row: Folder): (r: Result<Tables, DbError>)
    ensures r.Success? <==> id !in t.folders && !FolderNameTaken(t.folders, row.createdBy, row.name, id)
    ensures Valid(t) && r.Success? ==> Valid(r.value)
  {
    if id in t.folders || FolderNameTaken(t.folders, row.createdBy, row.name, id) then Failure(UniqueViolation)
    else Success(t.(folders := t.folders[id := row]))
  }

  /** UPDATE folders SET ... WHERE id = `id`, for an existing row. */
  function UpdateFolderRow(t: Tables, id: Id, row: Folder): (r: Result<Tables, DbError>)
    requires id in t.folders
    ensures r.Success? <==> !FolderNameTaken(t.folders, row.createdBy, row.name, id)
    ensures Valid(t) && r.Success? ==> Valid(r.value)
  {
    if FolderNameTaken(t.folders, row.createdBy, row.name, id) then Failure(UniqueViolation)
    else Success(t.(folders := t.folders[id := row]))
  }

  /** INSERT INTO tags: fails on a taken key or a taken name. */
  function InsertTag(t: Tables, id: Id, row: Tag): (r: Result<Tables, DbError>)
    ensures r.Success? <==> id !in t.tags && !TagNameTaken(t.tags, row.name)
    ensures Valid(t) && r.Success? ==> Valid(r.value)
  {
    if id in t.tags || TagNameTaken(t.tags, row.name) then Failure(UniqueViolation)
    else Success(t.(tags := t.tags[id := row]))
  }

  function LinkKeys(bookmarkId: Id, targets: seq<Id>): set<Link> {
    set x | x in targets :: Link(bookmarkId, x)
  }

  /** The junction rows linking `bookmarkId` to each of `targets`. */
  function LinkRows(bookmarkId: Id, targets: seq<Id>, now: Time): map<Link, Time> {
    map l | l in LinkKeys(bookmarkId, targets) :: now
  }

  /** One bulk INSERT into a junction table: every foreign key must resolve and
      no composite key may repeat, within the batch or against existing rows. */
  function InsertLinks(t: Tables, j: Junction, bookmarkId: Id, targets: seq<Id>, now: Time): (r: Result<Tables, DbError>)
    ensures r.Success? <==>
      && bookmarkId in t.bookmarks
      && (forall i :: 0 <= i < |targets| ==> targets[i] in TargetKeys(t, j))
      && Distinct(targets)
      && (forall i :: 0 <= i < |targets| ==> Link(bookmarkId, targets[i]) !in Links(t, j))
    ensures Valid(t) && r.Success? ==> Valid(r.value)
  {
    if bookmarkId !in t.bookmarks || exists i :: 0 <= i < |targets| && targets[i] !in TargetKeys(t, j) then
      Failure(ForeignKeyViolation)
    else if !Distinct(targets) || exists i :: 0 <= i < |targets| && Link(bookmarkId, targets[i]) in Links(t, j) then
      Failure(UniqueViolation)
    else
      Success(WithLinks(t, j, Links(t, j) + LinkRows(bookmarkId, targets, now)))
  }

  /** A successful junction INSERT adds a link from the bookmark to each
      target, stamped `now`, keeps every existing link with its time, and
      changes no other table. */
  lemma InsertLinksEffect(t: Tables, j: Junction, bookmarkId: Id, targets: seq<Id>, now: Time)
    requires InsertLinks(t, j, bookmarkId, targets, now).Success?
    ensures var u := InsertLinks(t, j, bookmarkId, targets, now).value;
      && u.bookmarks == t.bookmarks && u.folders == t.folders && u.tags == t.tags
      && (forall j' :: j' != j ==> Links(u, j') == Links(t, j'))
      && (forall l :: l in Links(u, j) <==>
            l in Links(t, j) || (l.bookmarkId == bookmarkId && l.targetId in targets))
      && (forall l :: l in Links(t, j) ==> Links(u, j)[l] == Links(t, j)[l])
      && (forall x :: x in targets ==> Links(u, j)[Link(bookmarkId, x)] == now)
  {
    LinkRowsMeaning(bookmarkId, targets, now);
  }

  /** The new junction rows: one per target, each stamped `now`. */
  lemma LinkRowsMeaning(bookmarkId: Id, targets: seq<Id>, now: Time)
    ensures forall l: Link :: l in LinkRows(bookmarkId, targets, now) <==> l.bookmarkId == bookmarkId && l.targetId in targets
    ensures forall l :: l in LinkRows(bookmarkId, targets, now) ==> LinkRows(bookmarkId, targets, now)[l] == now
  {
    forall l: Link | l.bookmarkId == bookmarkId && l.targetId in targets ensures l in LinkKeys(bookmarkId, targets) {
      assert l == Link(bookmarkId, l.targetId);
    }
  }

  /** DELETE FROM bookmark_folders and FROM bookmark_tags WHERE bookmark_id = `id`. */
  function DetachBookmark(t: Tables, id: Id): (r: Tables)
    ensures Valid(t) ==> Valid(r)
    ensures r.bookmarks == t.bookmarks && r.folders == t.folders && r.tags == t.tags
    ensures forall j, l :: l in Links(r, j) <==> l in Links(t, j) && l.bookmarkId != id
    ensures forall j, l :: l in Links(r, j) ==> Links(r, j)[l] == Links(t, j)[l]
  {
    t.(bookmarkTags := map l | l in t.bookmarkTags && l.bookmarkId != id :: t.bookmarkTags[l],
       bookmarkFolders := map l | l in t.bookmarkFolders && l.bookmarkId != id :: t.bookmarkFolders[l])
  }

  /** DELETE FROM bookmarks WHERE id = `id`; both junction tables cascade. */
  function DeleteBookmarkCascade(t: Tables, id: Id): (r: Tables)
    ensures Valid(t) ==> Valid(r)
    ensures r.bookmarks == t.bookmarks - {id} && r.folders == t.folders && r.tags == t.tags
    ensures forall j, l :: l in Links(r, j) <==> l in Links(t, j) && l.bookmarkId != id
    ensures forall j, l :: l in Links(r, j) ==> Links(r, j)[l] == Links(t, j)[l]
  {
    var d := DetachBookmark(t, id);
    var r := d.(bookmarks := t.bookmarks - {id});
    assert Links(r, BookmarkFolders) == Links(d, BookmarkFolders);
    assert Links(r, BookmarkTags) == Links(d, BookmarkTags);
    r
  }

  /** DELETE FROM folders WHERE id = `id`; `bookmark_folders` cascades. */
  function DeleteFolderCascade(t: Tables, id: Id): (r: Tables)
    ensures Valid(t) ==> Valid(r)
    ensures r.folders == t.folders - {id}
    ensures r.bookmarks == t.bookmarks && r.tags == t.tags && r.bookmarkTags == t.bookmarkTags
    ensures forall l :: l in r.bookmarkFolders <==> l in t.bookmarkFolders && l.targetId != id
    ensures forall l :: l in r.bookmarkFolders ==> r.bookmarkFolders[l] == t.bookmarkFolders[l]
  {
    t.(folders := t.folders - {id},
       bookmarkFolders := map l | l in t.bookmarkFolders && l.targetId != id :: t.bookmarkFolders[l])
  }

  /** DELETE FROM tags WHERE id = `id`; `bookmark_tags` cascades. */
  function DeleteTagCascade(t: Tables, id: Id): (r: Tables)
    ensures Valid(t) ==> Valid(r)
    ensures r.tags == t.tags - {id}
    ensures r.bookmarks == t.bookmarks && r.folders == t.folders && r.bookmarkFolders == t.bookmarkFolders
    ensures forall l :: l in r.bookmarkTags <==> l in t.bookmarkTags && l.targetId != id
    ensures forall l :: l in r.bookmarkTags ==> r.bookmarkTags[l] == t.bookmarkTags[l]
  {
    t.(tags := t.tags - {id},
       bookmarkTags := map l | l in t.bookmarkTags && l.targetId != id :: t.bookmarkTags[l])
  }

  /** Without the cascade, deleting a linked bookmark would leave a junction
      row whose foreign key no longer resolves. */
  lemma CascadeIsNeeded(t: Tables, id: Id, target: Id)
    requires Valid(t) && Link(id, target) in t.bookmarkTags
    ensures !Valid(t.(bookmarks := t.bookmarks - {id}))
  {
    var u := t.(bookmarks := t.bookmarks - {id});
    assert Link(id, target) in u.bookmarkTags && id !in u.bookmarks.Keys;
  }
}
