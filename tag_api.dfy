/** The tag server functions: three read-only queries. Tags have no owner,
    so only the bookmark side of a join restricts by user. */
module TagApi {
  import opened Seqs
  import opened Schema
  import opened Api
  import BookmarkApi

  /** `getTags`: every tag row, whoever asks. */
  function GetTags(t: Tables): (r: map<Id, Tag>)
    ensures forall id :: id in r <==> id in t.tags
    ensures forall id :: id in r ==> r[id] == t.tags[id]
  {
    t.tags
  }

  /** `getSingleBookmarkTags`: bookmarks INNER JOIN bookmark_tags INNER JOIN
      tags, restricted to that bookmark and to the user's bookmarks, as
      distinct `{id, name}` pairs. */
  function GetSingleBookmarkTags(t: Tables, user: UserId, bookmarkId: Id): set<NamedRef> {
    set l | l in t.bookmarkTags && l.bookmarkId == bookmarkId && bookmarkId in t.bookmarks &&
            t.bookmarks[bookmarkId].createdBy == user && l.targetId in t.tags ::
      NamedRef(l.targetId, t.tags[l.targetId].name)
  }

  /** Nothing is returned for a bookmark the user does not own (or that does
      not exist); for one they own, the result is exactly the tag list the
      filtered bookmark query shows for it. */
  lemma SingleBookmarkTagsExact(t: Tables, user: UserId, bookmarkId: Id)
    ensures !(bookmarkId in t.bookmarks && t.bookmarks[bookmarkId].createdBy == user) ==>
      GetSingleBookmarkTags(t, user, bookmarkId) == {}
    ensures bookmarkId in t.bookmarks && t.bookmarks[bookmarkId].createdBy == user ==>
      GetSingleBookmarkTags(t, user, bookmarkId) == BookmarkApi.View(t, bookmarkId).tags
  {
  }

  /** A row of `getBookmarkTags`: a tag with the `created_at` of one of its
      junction rows. */
  datatype TagUsage = TagUsage(id: Id, name: string, createdAt: Time)

  /** The distinct (tag id, tag name, link time) triples over the user's
      bookmarks, as the query selects them. */
  function TagUsages(t: Tables, user: UserId): set<TagUsage> {
    set l | l in t.bookmarkTags && l.bookmarkId in t.bookmarks &&
            t.bookmarks[l.bookmarkId].createdBy == user && l.targetId in t.tags ::
      TagUsage(l.targetId, t.tags[l.targetId].name, t.bookmarkTags[l])
  }

  /** The tag `x` is on at least one of the user's bookmarks. */
  predicate UsedBy(t: Tables, user: UserId, x: Id) {
    x in t.tags &&
    exists b :: Link(b, x) in t.bookmarkTags && b in t.bookmarks && t.bookmarks[b].createdBy == user
  }

  /** `getBookmarkTags` as written: the triples, newest link first. */
  ghost function GetBookmarkTags(t: Tables, user: UserId): (r: seq<TagUsage>)
    ensures Distinct(r) && Descending(r, (u: TagUsage) => u.createdAt)
  {
    OrderByDesc(TagUsages(t, user), (u: TagUsage) => u.createdAt)
  }

  /** `u` records one link of an existing tag, under its stored name, to one
      of the user's bookmarks, carrying that link's `created_at`. */
  predicate IsUsage(t: Tables, user: UserId, u: TagUsage) {
    && u.id in t.tags && u.name == t.tags[u.id].name
    && exists b :: Link(b, u.id) in t.bookmarkTags && b in t.bookmarks &&
         t.bookmarks[b].createdBy == user && t.bookmarkTags[Link(b, u.id)] == u.createdAt
  }

  /** The result names exactly the tags on the user's bookmarks, each under
      its stored name and among all tags; its rows are exactly the usages,
      one per distinct link time of a tag. */
  lemma BookmarkTagsExact(t: Tables, user: UserId, x: Id)
    ensures var r := GetBookmarkTags(t, user);
      && (forall u :: u in r ==> u.id in GetTags(t) && u.name == GetTags(t)[u.id].name && UsedBy(t, user, u.id))
      && (UsedBy(t, user, x) ==> exists u :: u in r && u.id == x)
      && (forall u :: u in r <==> IsUsage(t, user, u))
  {
    var r := GetBookmarkTags(t, user);
    assert Elements(r) == TagUsages(t, user);
    forall u ensures u in r <==> IsUsage(t, user, u) {
      assert u in r <==> u in TagUsages(t, user);
      if u in TagUsages(t, user) {
        var l :| l in t.bookmarkTags && l.bookmarkId in t.bookmarks &&
          t.bookmarks[l.bookmarkId].createdBy == user && l.targetId in t.tags &&
          u == TagUsage(l.targetId, t.tags[l.targetId].name, t.bookmarkTags[l]);
        assert Link(l.bookmarkId, u.id) == l;
      }
      if IsUsage(t, user, u) {
        var b :| Link(b, u.id) in t.bookmarkTags && b in t.bookmarks &&
          t.bookmarks[b].createdBy == user && t.bookmarkTags[Link(b, u.id)] == u.createdAt;
        var l := Link(b, u.id);
        assert u == TagUsage(l.targetId, t.tags[l.targetId].name, t.bookmarkTags[l]);
      }
    }
    forall u | u in r ensures u.id in t.tags && u.name == t.tags[u.id].name && UsedBy(t, user, u.id) {
      assert u in TagUsages(t, user);
      var l :| l in t.bookmarkTags && l.bookmarkId in t.bookmarks &&
        t.bookmarks[l.bookmarkId].createdBy == user && l.targetId in t.tags &&
        u == TagUsage(l.targetId, t.tags[l.targetId].name, t.bookmarkTags[l]);
      assert Link(l.bookmarkId, u.id) == l;
    }
    if UsedBy(t, user, x) {
      var b :| Link(b, x) in t.bookmarkTags && b in t.bookmarks && t.bookmarks[b].createdBy == user;
      var l := Link(b, x);
      assert TagUsage(x, t.tags[x].name, t.bookmarkTags[l]) in TagUsages(t, user);
    }
  }

  /** Two bookmarks of user "u" carrying tag 7, linked at times 1 and 2. */
  const ExampleTables := Tables(
    map[1 := Bookmark("a", "https://a", "", false, "u", 0, 0),
        2 := Bookmark("b", "https://b", "", false, "u", 0, 0)],
    map[],
    map[7 := Tag("news", 0, 0)],
    map[Link(1, 7) := 1, Link(2, 7) := 2],
    map[])

  lemma ExampleUsages()
    ensures TagUsages(ExampleTables, "u") == {TagUsage(7, "news", 1), TagUsage(7, "news", 2)}
  {
    var t := ExampleTables;
    var u1, u2 := TagUsage(7, "news", 1), TagUsage(7, "news", 2);
    assert u1 == TagUsage(Link(1, 7).targetId, t.tags[7].name, t.bookmarkTags[Link(1, 7)]);
    assert u2 == TagUsage(Link(2, 7).targetId, t.tags[7].name, t.bookmarkTags[Link(2, 7)]);
    forall u | u in TagUsages(t, "u") ensures u == u1 || u == u2 {
      var l :| l in t.bookmarkTags && l.bookmarkId in t.bookmarks &&
        t.bookmarks[l.bookmarkId].createdBy == "u" && l.targetId in t.tags &&
        u == TagUsage(l.targetId, t.tags[l.targetId].name, t.bookmarkTags[l]);
      assert l == Link(1, 7) || l == Link(2, 7);
    }
  }

  /** As written, one tag on two of the user's bookmarks linked at different
      times is listed twice, in a database that satisfies every constraint. */
  lemma DuplicateTagExample()
    ensures Valid(ExampleTables)
    ensures var r := GetBookmarkTags(ExampleTables, "u");
      |r| == 2 && r[0].id == 7 && r[1].id == 7
  {
    var r := GetBookmarkTags(ExampleTables, "u");
    ExampleUsages();
    var u1, u2 := TagUsage(7, "news", 1), TagUsage(7, "news", 2);
    assert Elements(r) == {u1, u2};
    assert |{u1, u2}| == 2;
    assert r[0] in Elements(r) && r[1] in Elements(r);
  }

  /** The usages that are the latest for their tag. */
  function LatestTagUsages(t: Tables, user: UserId): set<TagUsage> {
    var all := TagUsages(t, user);
    set u | u in all && forall v :: v in all && v.id == u.id ==> v.createdAt <= u.createdAt
  }

  /** `getBookmarkTags` as intended: each tag on the user's bookmarks once,
      with its most recent link time, most recently used first. */
  ghost function GetBookmarkTagsLatest(t: Tables, user: UserId): (r: seq<TagUsage>)
    ensures Distinct(r) && Descending(r, (u: TagUsage) => u.createdAt)
  {
    OrderByDesc(LatestTagUsages(t, user), (u: TagUsage) => u.createdAt)
  }

  /** A latest usage names a used tag under its stored name, at a time no
      link of that tag to the user's bookmarks exceeds. */
  lemma LatestUsageShape(t: Tables, user: UserId, u: TagUsage)
    requires u in LatestTagUsages(t, user)
    ensures u.id in t.tags && u.name == t.tags[u.id].name && UsedBy(t, user, u.id)
    ensures forall l ::
      (l in t.bookmarkTags && l.targetId == u.id &&
       l.bookmarkId in t.bookmarks && t.bookmarks[l.bookmarkId].createdBy == user) ==>
        t.bookmarkTags[l] <= u.createdAt
  {
    var all := TagUsages(t, user);
    assert u in all;
    var l :| l in t.bookmarkTags && l.bookmarkId in t.bookmarks &&
      t.bookmarks[l.bookmarkId].createdBy == user && l.targetId in t.tags &&
      u == TagUsage(l.targetId, t.tags[l.targetId].name, t.bookmarkTags[l]);
    assert Link(l.bookmarkId, u.id) == l;
    forall l' | l' in t.bookmarkTags && l'.targetId == u.id &&
        l'.bookmarkId in t.bookmarks && t.bookmarks[l'.bookmarkId].createdBy == user
      ensures t.bookmarkTags[l'] <= u.createdAt
    {
      assert TagUsage(l'.targetId, t.tags[l'.targetId].name, t.bookmarkTags[l']) in all;
    }
  }

  /** Every used tag has a latest usage. */
  lemma LatestUsageExists(t: Tables, user: UserId, x: Id)
    requires UsedBy(t, user, x)
    ensures exists u :: u in LatestTagUsages(t, user) && u.id == x
  {
    var all := TagUsages(t, user);
    var b :| Link(b, x) in t.bookmarkTags && b in t.bookmarks && t.bookmarks[b].createdBy == user;
    var l := Link(b, x);
    var ofX := set v | v in all && v.id == x;
    assert TagUsage(x, t.tags[x].name, t.bookmarkTags[l]) in ofX;
    MaxExists(ofX, (v: TagUsage) => v.createdAt);
    var m :| m in ofX && forall v :: v in ofX ==> v.createdAt <= m.createdAt;
    assert m in LatestTagUsages(t, user);
  }

  /** Two latest usages of the same tag are the same row. */
  lemma LatestUsageUnique(t: Tables, user: UserId, u: TagUsage, v: TagUsage)
    requires u in LatestTagUsages(t, user) && v in LatestTagUsages(t, user) && u.id == v.id
    ensures u == v
  {
    LatestUsageShape(t, user, u);
    LatestUsageShape(t, user, v);
  }

  /** The corrected query lists each tag on the user's bookmarks exactly once
      and nothing else; each row is a latest usage of its tag. */
  lemma BookmarkTagsLatestExact(t: Tables, user: UserId, x: Id)
    ensures var r := GetBookmarkTagsLatest(t, user);
      && (forall i, k :: 0 <= i < k < |r| ==> r[i].id != r[k].id)
      && (forall u :: u in r ==> u in LatestTagUsages(t, user) && UsedBy(t, user, u.id))
      && (UsedBy(t, user, x) ==> exists u :: u in r && u.id == x)
  {
    var r := GetBookmarkTagsLatest(t, user);
    var latest := LatestTagUsages(t, user);
    assert Elements(r) == latest;
    forall u | u in r ensures u in latest && UsedBy(t, user, u.id) {
      assert u in Elements(r);
      LatestUsageShape(t, user, u);
    }
    forall i, k | 0 <= i < k < |r| ensures r[i].id != r[k].id {
      assert r[i] in Elements(r) && r[k] in Elements(r);
      if r[i].id == r[k].id {
        LatestUsageUnique(t, user, r[i], r[k]);
      }
    }
    if UsedBy(t, user, x) {
      LatestUsageExists(t, user, x);
      var u :| u in latest && u.id == x;
      assert u in Elements(r);
    }
  }
}
