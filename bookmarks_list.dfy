/** The text search of the bookmarks page, applied in the browser to the
    bookmarks the server returned. */
module BookmarksList {
  import opened Wrappers
  import opened Text
  import opened Seqs
  import opened Schema
  import opened Api

  /** A bookmark as the list receives it, with its tags and folders. This is
      `BookmarkApi.BookmarkView` after the trip through JSON: the related rows
      arrive as arrays in some order (the server promises none, which is why
      the server-side view holds sets), and the list reads the description
      as possibly missing (`?? ""`), so it is optional here. The search
      depends only on which names the arrays hold, not on their order. */
  datatype BookmarkDisplay = BookmarkDisplay(
    id: Id,
    name: string,
    url: string,
    description: Option<string>,
    isPublic: bool,
    createdAt: Time,
    updatedAt: Time,
    tags: seq<NamedRef>,
    folders: seq<NamedRef>)

  /** The search predicate as the list writes it: an empty query, or the
      lower-cased query inside the lower-cased name, description (absent read
      as empty), some tag name or some folder name. */
  predicate MatchesSearch(b: BookmarkDisplay, query: string) {
    var q := Lower(query);
    || query == ""
    || Contains(Lower(b.name), q)
    || Contains(Lower(b.description.GetOr("")), q)
    || (exists i :: 0 <= i < |b.tags| && Contains(Lower(b.tags[i].name), q))
    || (exists i :: 0 <= i < |b.folders| && Contains(Lower(b.folders[i].name), q))
  }

  /** The texts a query is matched against. */
  function SearchableTexts(b: BookmarkDisplay): seq<string> {
    [b.name, b.description.GetOr("")]
      + seq(|b.tags|, i requires 0 <= i < |b.tags| => b.tags[i].name)
      + seq(|b.folders|, i requires 0 <= i < |b.folders| => b.folders[i].name)
  }

  /** An independent statement of a hit: `q` stands at some position of one of
      the searchable texts, lower-cased. */
  ghost predicate MentionsQuery(b: BookmarkDisplay, q: string) {
    exists t, k :: t in SearchableTexts(b) && OccursAt(Lower(t), q, k)
  }

  lemma MentionedIn(b: BookmarkDisplay, q: string, t: string)
    requires t in SearchableTexts(b) && Contains(Lower(t), q)
    ensures MentionsQuery(b, q)
  {
    ContainsAt(Lower(t), q);
  }

  lemma MatchesSearchMentions(b: BookmarkDisplay, query: string)
    requires MatchesSearch(b, query)
    ensures MentionsQuery(b, Lower(query))
  {
    var q := Lower(query);
    var texts := SearchableTexts(b);
    assert texts[0] == b.name && texts[1] == b.description.GetOr("");
    if query == "" {
      assert OccursAt(Lower(b.name), q, 0);
    } else if Contains(Lower(b.name), q) {
      MentionedIn(b, q, b.name);
    } else if Contains(Lower(b.description.GetOr("")), q) {
      MentionedIn(b, q, b.description.GetOr(""));
    } else if i :| 0 <= i < |b.tags| && Contains(Lower(b.tags[i].name), q) {
      assert texts[2 + i] == b.tags[i].name;
      MentionedIn(b, q, b.tags[i].name);
    } else {
      var i :| 0 <= i < |b.folders| && Contains(Lower(b.folders[i].name), q);
      assert texts[2 + |b.tags| + i] == b.folders[i].name;
      MentionedIn(b, q, b.folders[i].name);
    }
  }

  lemma MentionsMatchesSearch(b: BookmarkDisplay, query: string)
    requires MentionsQuery(b, Lower(query))
    ensures MatchesSearch(b, query)
  {
    var q := Lower(query);
    var texts := SearchableTexts(b);
    var t, k :| t in texts && OccursAt(Lower(t), q, k);
    ContainsAt(Lower(t), q);
    var j :| 0 <= j < |texts| && texts[j] == t;
    if 2 <= j < 2 + |b.tags| {
      assert t == b.tags[j - 2].name;
    } else if 2 + |b.tags| <= j {
      assert t == b.folders[j - 2 - |b.tags|].name;
    }
  }

  /** A bookmark is kept exactly when it mentions the lower-cased query. */
  lemma MatchesSearchMeaning(b: BookmarkDisplay, query: string)
    ensures MatchesSearch(b, query) <==> MentionsQuery(b, Lower(query))
  {
    if MatchesSearch(b, query) {
      MatchesSearchMentions(b, query);
    }
    if MentionsQuery(b, Lower(query)) {
      MentionsMatchesSearch(b, query);
    }
  }

  /** `filteredBookmarks` */
  function FilterBookmarks(bookmarks: seq<BookmarkDisplay>, query: string): (r: seq<BookmarkDisplay>)
    ensures IsSubsequence(r, bookmarks)
    ensures forall b :: b in r <==> b in bookmarks && MentionsQuery(b, Lower(query))
    ensures query == "" ==> r == bookmarks
  {
    var p := (b: BookmarkDisplay) => MatchesSearch(b, query);
    FilterIsSubsequence(bookmarks, p);
    forall b ensures b in Filter(bookmarks, p) <==> b in bookmarks && MentionsQuery(b, Lower(query)) {
      FilterMembership(bookmarks, p, b);
      MatchesSearchMeaning(b, query);
    }
    if query == "" then
      FilterKeepsAll(bookmarks, p);
      Filter(bookmarks, p)
    else
      Filter(bookmarks, p)
  }

  /** The search ignores the case of the query. */
  lemma QueryCaseInsensitive(bookmarks: seq<BookmarkDisplay>, query: string)
    ensures FilterBookmarks(bookmarks, query) == FilterBookmarks(bookmarks, Lower(query))
  {
    LowerIdempotent(query);
    LowerEmpty(query);
    FilterCongruent(bookmarks, (b: BookmarkDisplay) => MatchesSearch(b, query),
                    (b: BookmarkDisplay) => MatchesSearch(b, Lower(query)));
  }
}
