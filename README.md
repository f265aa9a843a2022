# webtag in Dafny

A model of the core of webtag, a bookmark manager. On the server, bookmarks,
folders and tags live in five relational tables. Each bookmark is linked to
its folders and tags through two junction tables. The client builds the tag
and folder selection of a bookmark in two stores, fed by two autocomplete
inputs.

Server side:

- `Schema`: the tables as maps keyed by id. Each junction table is a map
  from its composite key to the link's `created_at`. The module also holds
  the unique constraints, the foreign keys, and the single-row writes that
  enforce them.
- `BookmarkApi`: resolution of a list of folder or tag references (an id is
  linked as given; a name first creates the row), the add and update
  transactions, and the filtered bookmark query.
- `FolderApi`: the folder queries and the folder mutations.
- `TagApi`: the three tag queries.
- `Server.Database`: a class holding the tables and the id sequences. It has
  one method per mutating server function. A transaction runs on a copy of
  the tables and is committed by assignment.

Client side:

- `Selection`, with the classes `TagsStore.TagStore` and
  `FoldersStore.FolderStore`: the selection stores and their projection onto
  the reference list a request carries.
- `Autocomplete`, with the classes `TagsInput.TagsInput` and
  `FoldersInput.FoldersInput`: suggestions, the add rule, the 20-folder
  quota, and the keyboard transition of the two inputs.
- `TagsSection`: the tag toggle in the page's search parameters.
- `BookmarksList`: the in-browser text search.
- `Avatar`: the initials of the user's name.

Modelling choices:

- The acting user and the transaction time (`now()`) are parameters.
- Row ids come from `Serials`, one counter per table, starting at 1. A
  database sequence is not rolled back with its transaction. So a
  rolled-back add leaves the tables as they were but keeps the serials it
  drew.
- The `Promise.all` over the references is a sequential loop
  (`BookmarkApi.ResolveRefsInTx`). Its ids are drawn in reference order.
- Strings are `seq<char>`. Case mapping and `trim` cover ASCII only.
- A JavaScript id test (`if (tag.id)`) is `Api.IsTruthy`: present and not 0.

On these points the model follows the code as written:

- Errors raised inside the add and update transactions are caught and
  logged, so both handlers return normally whether the transaction
  committed or rolled back.
- Updating a missing bookmark rolls back inside the transaction. It is not
  reported to the caller.
- An update leaves `updated_at` unchanged.
- An update without `is_public` sets it to `false`, because of the
  validator's default.
- Folder and tag names are validated as non-empty before trimming. So a
  name of spaces is accepted and stored as the empty string
  (`FolderApi.BlankFolderNameStoredEmpty`).

## Model

| member | source | states |
|---|---|---|
| Schema.EmptyValid | app/db/schema.ts:30-93 | The empty database satisfies every constraint. |
| Schema.InsertBookmark | app/db/schema.ts:30-44 | The insert fails exactly when the id is taken or the owner already has a bookmark with that url. A successful insert keeps every constraint. |
| Schema.UpdateBookmarkRow | app/db/schema.ts:43 | The update fails exactly when another bookmark of the same owner has the new url. A successful update keeps every constraint. |
| Schema.InsertFolder | app/db/schema.ts:46-59 | The insert fails exactly when the id is taken or the owner already has a folder of that name. A successful insert keeps every constraint. |
| Schema.UpdateFolderRow | app/db/schema.ts:58 | The update fails exactly when another folder of the same owner has the new name. A successful update keeps every constraint. |
| Schema.InsertTag | app/db/schema.ts:61-65 | The insert fails exactly when the id is taken or any tag has that name, whoever created it. |
| Schema.InsertLinks | app/db/schema.ts:67-93 | A bulk junction insert fails exactly when the bookmark or a target is missing, a link already exists, or a target repeats (composite primary key). A successful insert keeps every constraint. |
| Schema.InsertLinksEffect | app/actions/bookmark.api.ts:158-160 | A successful bulk insert adds exactly one link from the bookmark to each target, stamped `now`. Every existing link keeps its time, and no other table or junction changes. |
| Schema.DetachBookmark | app/actions/bookmark.api.ts:269-274 | Deletes exactly the bookmark's junction rows. Every table and every other link is unchanged, and constraints are kept. |
| Schema.DeleteBookmarkCascade | app/db/schema.ts:70-75 | Deleting a bookmark removes it and exactly its junction rows, nothing else, and keeps every constraint. |
| Schema.DeleteFolderCascade | app/db/schema.ts:84-89 | Deleting a folder removes it and exactly the folder links to it. Bookmarks, tags and tag links stay. |
| Schema.DeleteTagCascade | app/db/schema.ts:70-75 | Deleting a tag removes it and exactly the tag links to it. Bookmarks, folders and folder links stay. |
| Schema.CascadeIsNeeded | app/db/schema.ts:70-75 | Without the cascade, deleting a linked bookmark would leave a dangling junction row. |
| BookmarkApi.ResolveRefResolves | app/actions/bookmark.api.ts:137-156 | One reference resolves to its own truthy id, or to a fresh row created with its name (a folder owned by the user, or a tag), and changes nothing else. |
| BookmarkApi.ResolvesCompose | app/actions/bookmark.api.ts:137-156 | Resolving two lists one after the other resolves their concatenation. |
| BookmarkApi.ResolveRefsResolves | app/actions/bookmark.api.ts:162-181 | A resolved list has one id per reference: the reference's own id, or a fresh row of that name. Every row it created belongs to a name-only reference. |
| BookmarkApi.ResolveRefsKeepsValid | app/actions/bookmark.api.ts:137-181 | Resolution keeps every constraint and never moves a sequence backwards. |
| BookmarkApi.UnresolvedSticks | app/actions/bookmark.api.ts:127-188 | Once one reference fails, the whole list fails with the same error. |
| BookmarkApi.MissingNameAborts | app/actions/bookmark.api.ts:147-151 | A reference with neither a truthy id nor a name makes the resolution fail (a NOT NULL violation). |
| BookmarkApi.NameInUseExtends | app/db/schema.ts:58 | A name in use stays in use while resolution only adds rows. |
| BookmarkApi.NameInUseAborts | app/actions/bookmark.api.ts:147-151 | Creating a folder or tag under a name already in use fails. |
| BookmarkApi.TakenNameAborts | app/actions/bookmark.api.ts:137-181 | A name-only reference to a name already in use makes the whole list fail. |
| BookmarkApi.RepeatedNameAborts | app/actions/bookmark.api.ts:137-181 | Two name-only references with the same name make the list fail: the second create clashes with the first. |
| BookmarkApi.BadRefsAbort | app/actions/bookmark.api.ts:137-181 | A list with a missing name, a taken name or a repeated name never resolves. |
| BookmarkApi.ResolveRefsInTx | app/actions/bookmark.api.ts:137-156 | The sequential loop over the references computes exactly `ResolveRefs`. |
| BookmarkApi.ReconcileInTx | app/actions/bookmark.api.ts:137-184 | Resolving and linking the folders, then resolving and linking the tags (each bulk insert skipped for an empty list), computes exactly `Reconcile`. |
| BookmarkApi.ResolvesFrame | app/actions/bookmark.api.ts:137-181 | What a resolution says depends only on the folders and tags tables. |
| BookmarkApi.LinkTargetsEffect | app/actions/bookmark.api.ts:158-160 | A successful link step adds exactly one row per target, stamped `now`. An empty list inserts nothing. |
| BookmarkApi.ReconcileResolves | app/actions/bookmark.api.ts:137-184 | After a commit, both reference lists are resolved against the tables. |
| BookmarkApi.ReconcileLinks | app/actions/bookmark.api.ts:158-184 | After a commit, each junction is the old one plus exactly one link from the bookmark to each resolved id. The ids are distinct, existing, and not linked before. |
| BookmarkApi.ReconcileKeepsValid | app/actions/bookmark.api.ts:127-188 | Reconciliation keeps every constraint when it commits and never moves a sequence backwards. |
| BookmarkApi.FreeNameStaysFree | app/actions/bookmark.api.ts:137-156 | A name that is free, and that no name-only reference of a resolved list carries, is still free after the resolution. |
| BookmarkApi.GoodRefsResolve | app/actions/bookmark.api.ts:137-156 | A good list (existing, unrepeated ids; present, free, unrepeated names) always resolves, to distinct ids of rows that exist afterwards. |
| BookmarkApi.GoodRefsLink | app/actions/bookmark.api.ts:137-160 | For a present bookmark with no links yet, resolving and then linking a good list succeeds, keeps every constraint, and leaves the bookmarks, the other target table and the other junction alone. |
| BookmarkApi.ResolvesGoodIds | app/actions/bookmark.api.ts:137-160 | When a resolution yields distinct ids of existing rows, every reference by id named an existing row and no id was repeated. |
| BookmarkApi.CommittedRefsAreGood | app/actions/bookmark.api.ts:137-184 | Whenever reconciliation commits, both reference lists were good. |
| BookmarkApi.GoodRefsCommit | app/actions/bookmark.api.ts:137-184 | Good folder and tag lists commit, for a present bookmark with no links yet, on a database that keeps its constraints. |
| BookmarkApi.ReconcileCommitsIff | app/actions/bookmark.api.ts:137-184 | For a present bookmark with no links yet, on a database that keeps its constraints, reconciliation commits exactly when both reference lists are good. |
| BookmarkApi.ReconcileAbortsOnBadRefs | app/actions/bookmark.api.ts:127-188 | A bad folder or tag list rolls the whole transaction back. |
| BookmarkApi.AddCommitted | app/actions/bookmark.api.ts:129-184 | A committed add inserts exactly one bookmark under a fresh id, owned by the user, with the input's fields and the defaults. It links that bookmark to exactly the resolved folders and tags, and leaves every other link unchanged. |
| BookmarkApi.AddKeepsValid | app/actions/bookmark.api.ts:127-188 | An add draws one bookmark serial whether or not it commits. A commit keeps every constraint. |
| BookmarkApi.AddAborts | app/actions/bookmark.api.ts:127-188 | A duplicate (owner, url) or a bad reference list rolls the add back. |
| BookmarkApi.AddCommitsIff | app/actions/bookmark.api.ts:127-188 | On a database that keeps its constraints, an add commits exactly when the owner has no bookmark with that url and both reference lists are good. So an add with empty lists and a free url commits. |
| BookmarkApi.UpdateCommitted | app/actions/bookmark.api.ts:236-326 | A committed update changes only name, url, description and is_public of the target. Owner and timestamps are unchanged, and no other bookmark changes. The target's links are replaced by exactly the resolved folders and tags. Every other link stays, and no folder or tag is deleted. |
| BookmarkApi.UpdateKeepsValid | app/actions/bookmark.api.ts:234-340 | An update never draws a bookmark serial. A commit keeps every constraint. |
| BookmarkApi.UpdateAborts | app/actions/bookmark.api.ts:236-245 | A missing bookmark rolls back with no write and no serial drawn. A url clash or a bad reference list also rolls back. |
| BookmarkApi.UpdateCommitsIff | app/actions/bookmark.api.ts:234-326 | On a database that keeps its constraints, an update commits exactly when the bookmark exists, no other bookmark of its owner has the new url, and both reference lists are good. The old links are deleted first, so resubmitting the current folders and tags commits. |
| BookmarkApi.GetAllBookmarks | app/actions/bookmark.api.ts:14-23 | Returns only the user's bookmarks, unchanged. |
| BookmarkApi.GetFilteredBookmarks | app/actions/bookmark.api.ts:88 | Distinct rows, newest first. |
| BookmarkApi.WhereClauseMeaning | app/actions/bookmark.api.ts:63-87 | The WHERE clause with its subqueries selects exactly the user's bookmarks in the folder (if one is given), with the access asked for, and carrying at least one of the tags (if any are given). |
| BookmarkApi.FilteredBookmarksListed | app/actions/bookmark.api.ts:25-98 | The result lists every selected bookmark once, with its tags and folders, newest first, and nothing else. |
| BookmarkApi.UnfilteredIsAll | app/actions/bookmark.api.ts:25-98 | With no filter, the query lists exactly the user's bookmarks. |
| FolderApi.GetFolders | app/actions/folder.api.ts:8-18 | Returns exactly the user's folders, unchanged. |
| FolderApi.GetFolderById | app/actions/folder.api.ts:27-35 | Returns the folder exactly when it exists and the user owns it, and nothing otherwise. |
| FolderApi.FolderByIdInFolders | app/actions/folder.api.ts:20-36 | The lookup by id finds exactly the folders the folder list holds. |
| FolderApi.FolderCountsExact | app/actions/folder.api.ts:43-52 | Exactly one row per folder of the user. Its count is the number of the folder's junction rows, and 0 exactly when there are none. |
| FolderApi.FoldersByBookmarkExact | app/actions/folder.api.ts:135-147 | Lists a folder exactly when it is linked to the bookmark and owned by the user, under its name, once. |
| FolderApi.BlankFolderNameStoredEmpty | app/actions/folder.api.ts:58-63 | A name of spaces passes validation and is stored as the empty string. |
| FolderApi.AddFolderEffect | app/actions/folder.api.ts:57-72 | Adds exactly one folder under the next serial, owned by the user, with the trimmed name, the given or default description, and `is_public` false. It fails exactly on a name clash for that user. |
| FolderApi.UpdateFolderEffect | app/actions/folder.api.ts:84-90 | Changes only the name and description of that folder, whoever owns it. An absent description keeps the stored one, and a missing id changes nothing. |
| FolderApi.DeleteFolderEffect | app/actions/folder.api.ts:100-118 | Id -1 fails with "Invalid folder" and another user's folder fails with "Unauthorized request", both without writing. A missing id changes nothing. Otherwise the folder and exactly its links go. |
| TagApi.GetTags | app/actions/tag.api.ts:52-57 | Every tag row, regardless of user. |
| TagApi.SingleBookmarkTagsExact | app/actions/tag.api.ts:34-47 | Empty unless the user owns the bookmark. Otherwise exactly the bookmark's tags, as the bookmark list shows them. |
| TagApi.GetBookmarkTags | app/actions/tag.api.ts:13-23 | Distinct (id, name, link time) rows, newest link first. |
| TagApi.BookmarkTagsExact | app/actions/tag.api.ts:13-22 | The rows are exactly the (tag id, stored name, link time) triples of the links from the user's bookmarks, so a tag appears once per distinct link time. Every tag on those bookmarks appears. |
| TagApi.ExampleUsages | app/actions/tag.api.ts:14-18 | On a two-link example, the query's rows are the two (tag, link time) triples. |
| TagApi.DuplicateTagExample | app/actions/tag.api.ts:14-23 | The same tag is listed twice when two of the user's bookmarks were tagged with it at different times. |
| TagApi.GetBookmarkTagsLatest | app/actions/tag.api.ts:13-23 | Corrected query: distinct rows, newest first. |
| TagApi.LatestUsageShape | app/actions/tag.api.ts:13-23 | Every corrected row is a used tag, carrying its most recent link time. |
| TagApi.LatestUsageExists | app/actions/tag.api.ts:13-23 | Every tag in use has a corrected row. |
| TagApi.LatestUsageUnique | app/actions/tag.api.ts:13-23 | No tag has two corrected rows. |
| TagApi.BookmarkTagsLatestExact | app/actions/tag.api.ts:13-23 | The corrected list names each tag in use exactly once, with its latest link time. |
| Server.Database.constructor | app/db/schema.ts:30-93 | Starts from empty tables and fresh sequences, with every constraint holding. |
| Server.Database.AddBookmark | app/actions/bookmark.api.ts:100-189 | An invalid request fails validation and writes nothing. Otherwise the handler returns normally. The tables become the committed ones, or stay as they were on rollback, and constraints are kept. |
| Server.Database.UpdateBookmark | app/actions/bookmark.api.ts:202-341 | Fails validation, or fails with "Invalid bookmark" for id -1, without writing. Otherwise it returns normally, committing or rolling back as a whole. |
| Server.Database.DeleteBookmark | app/actions/bookmark.api.ts:191-200 | Deletes the bookmark, whoever owns it, with its links. |
| Server.Database.AddFolder | app/actions/folder.api.ts:57-72 | Fails validation without writing. Otherwise it draws a folder serial and inserts, and a database error reaches the caller. |
| Server.Database.UpdateFolder | app/actions/folder.api.ts:74-91 | Fails validation without writing. Otherwise it updates, and a database error reaches the caller. |
| Server.Database.DeleteFolder | app/actions/folder.api.ts:93-119 | Applies `DeleteFolder`, and its error reaches the caller. |
| Selection.Remove | app/hooks/use-tags-store.ts:22-33 | Keeps an entry exactly when the removed one does not match it (by id when both ids are truthy, by name otherwise), in order. |
| Selection.RemoveCounts | app/hooks/use-tags-store.ts:22-33 | Every copy of a kept entry stays in `Remove`'s result, and no copy of a matching one: the multiset count of each entry is its old count or zero. |
| Selection.RemoveIdempotent | app/hooks/use-folders-store.ts:26-37 | Removing twice is removing once. |
| Selection.RemoveAbsent | app/hooks/use-folders-store.ts:26-37 | Removing an entry nothing matches changes nothing. |
| Selection.ToRefs | app/hooks/use-tags-store.ts:35-45 | One reference per entry, in order: `{id}` exactly for a non-new entry with a truthy id, `{name}` otherwise. |
| Selection.ToRefsAppend | app/hooks/use-folders-store.ts:39-49 | The projection of an appended list is the old projection plus the new entry's reference. |
| TagsStore.TagStore.constructor | app/hooks/use-tags-store.ts:10-12 | The store starts empty. |
| TagsStore.TagStore.Add | app/hooks/use-tags-store.ts:14-20 | Appends at the end and keeps the earlier entries. The projection grows by one reference. |
| TagsStore.TagStore.Remove | app/hooks/use-tags-store.ts:22-33 | The new list is `Selection.Remove` of the old one: every non-matching entry, each copy kept, in order. |
| TagsStore.TagStore.GetFromStore | app/hooks/use-tags-store.ts:35-45 | The projection of the selected tags. |
| TagsStore.TagStore.Reset | app/hooks/use-tags-store.ts:47-49 | Empties the list. |
| TagsStore.TagStore.Set | app/hooks/use-tags-store.ts:51-52 | Replaces the list wholesale. |
| FoldersStore.FolderStore.constructor | app/hooks/use-folders-store.ts:12-16 | The store starts empty. |
| FoldersStore.FolderStore.Add | app/hooks/use-folders-store.ts:18-24 | Appends at the end and keeps the earlier entries. The projection grows by one reference. |
| FoldersStore.FolderStore.Remove | app/hooks/use-folders-store.ts:26-37 | The new list is `Selection.Remove` of the old one: every non-matching entry, each copy kept, in order. |
| FoldersStore.FolderStore.GetFromStore | app/hooks/use-folders-store.ts:39-49 | The projection of the selected folders. |
| FoldersStore.FolderStore.Reset | app/hooks/use-folders-store.ts:51-53 | Empties the list. |
| FoldersStore.FolderStore.Set | app/hooks/use-folders-store.ts:55-57 | Replaces the list wholesale. |
| Autocomplete.Suggestions | app/components/bookmarks/bookmark-tags-input.tsx:25-38 | None for blank input, and at most 5. They form an in-order sublist of the fetched rows. Each name contains the untrimmed input ignoring case and is not selected. With fewer than 5, every matching row is there. Among fetched rows without repeats, no matching row before a suggested one is left out, so these are the first five matches. |
| Autocomplete.FindByName | app/components/bookmarks/bookmark-tags-input.tsx:57-59 | Finds the first row whose name equals the given one ignoring case, and none exactly when there is no such row. |
| Autocomplete.TagToAdd | app/components/bookmarks/bookmark-tags-input.tsx:40-70 | Refuses exactly a blank or already-selected name. Otherwise it adds the first fetched row of that name, ignoring case (its id and casing), if there is one, else a new tag with the trimmed name. |
| Autocomplete.RemainingFolderSlots | app/components/bookmarks/bookmark-folders-input.tsx:31-40 | Never negative and at most 20. It is 0 exactly when fetched plus new folders reach 20, and otherwise 20 minus both. |
| Autocomplete.FolderToAdd | app/components/bookmarks/bookmark-folders-input.tsx:57-94 | As for tags, the first fetched row of that name included, except that a name with no fetched row is also refused when no slot remains. A fetched folder is added whatever the quota. |
| Autocomplete.FolderAddUsesSlot | app/components/bookmarks/bookmark-folders-input.tsx:31-40 | Adding a new folder uses one slot. Adding a fetched one uses none. |
| Autocomplete.EntryToAddKeepsNoCaseDuplicates | app/components/bookmarks/bookmark-tags-input.tsx:45-69 | Whatever either input adds keeps the selection free of names equal ignoring case. |
| Autocomplete.CursorCycles | app/components/bookmarks/bookmark-tags-input.tsx:74-89 | With suggestions, both arrows land in [0, n-1] from any index in [-1, n], and within range each undoes the other. |
| Autocomplete.KeyDownOutcomes | app/components/bookmarks/bookmark-tags-input.tsx:72-122 | A key press either does nothing, moves the highlight onto a suggestion, appends one entry and clears input and highlight, or (Backspace on empty input) shortens the selection to an in-order sublist. |
| Autocomplete.KeyDownKeepsNoCaseDuplicates | app/components/bookmarks/bookmark-folders-input.tsx:96-146 | No key press puts two names equal ignoring case into the selection. |
| Autocomplete.KeyDownKeepsQuota | app/components/bookmarks/bookmark-folders-input.tsx:96-146 | No key press lets fetched plus new folders grow past 20. |
| TagsInput.TagsInput.constructor | app/components/bookmarks/bookmark-tags-input.tsx:19-22 | Empty input and no highlight. |
| TagsInput.TagsInput.CanBeAdded | app/components/bookmarks/bookmark-tags-input.tsx:40-70 | Returns whether `TagToAdd` accepts the name, and appends exactly its entry to the store. |
| TagsInput.TagsInput.HandleKeyDown | app/components/bookmarks/bookmark-tags-input.tsx:72-122 | The input, highlight and store move exactly as the `KeyDown` transition says. |
| TagsInput.TagsInput.OnChange | app/components/bookmarks/bookmark-tags-input.tsx:159-162 | New text and no highlight; the store is untouched. |
| TagsInput.TagsInput.ClickSuggestion | app/components/bookmarks/bookmark-tags-input.tsx:182-187 | Submits the clicked suggestion. On success input and highlight are cleared, on refusal nothing changes. |
| FoldersInput.FoldersInput.constructor | app/components/bookmarks/bookmark-folders-input.tsx:19-25 | Empty input and no highlight. |
| FoldersInput.FoldersInput.CanBeAdded | app/components/bookmarks/bookmark-folders-input.tsx:57-94 | Returns whether `FolderToAdd` accepts the name (quota included), and appends exactly its entry to the store. |
| FoldersInput.FoldersInput.HandleKeyDown | app/components/bookmarks/bookmark-folders-input.tsx:96-146 | The input, highlight and store move exactly as the `KeyDown` transition says. |
| FoldersInput.FoldersInput.OnChange | app/components/bookmarks/bookmark-folders-input.tsx:184-187 | New text and no highlight; the store is untouched. |
| FoldersInput.FoldersInput.ClickSuggestion | app/components/bookmarks/bookmark-folders-input.tsx:211-216 | Submits the clicked suggestion. On success input and highlight are cleared, on refusal nothing changes. |
| TagsSection.ToggleTag | app/components/bookmarks/tags-section.tsx:37-66 | Flips whether the id is selected and keeps the other ids in order. No parameter becomes `[id]`, `[id]` becomes no parameter, and an absent id is appended. The other search fields are carried over. |
| TagsSection.ToggleRemovesInPlace | app/components/bookmarks/tags-section.tsx:55-58 | Deselecting among several tags drops the id and keeps the rest in order. |
| TagsSection.ToggleTwice | app/components/bookmarks/tags-section.tsx:37-66 | Two clicks restore the parameters when the tag list was absent, or non-empty without the id. |
| TagsSection.ToggleTwiceFromEmptyList | app/components/bookmarks/tags-section.tsx:45-53 | From an empty tag list, two clicks drop the parameter instead of restoring it. |
| BookmarksList.MatchesSearchMeaning | app/components/bookmarks/bookmarks-list.tsx:27-36 | A bookmark matches exactly when the lower-cased query occurs in its name, description (absent read as empty), a tag name or a folder name, each lower-cased. |
| BookmarksList.FilterBookmarks | app/components/bookmarks/bookmarks-list.tsx:24-39 | An in-order sublist of the fetched bookmarks, holding exactly the matching ones. An empty query keeps all. |
| BookmarksList.QueryCaseInsensitive | app/components/bookmarks/bookmarks-list.tsx:25-36 | A query and its lower-case form keep the same bookmarks. |
| Avatar.Split | app/components/header/current-user-avatar.tsx:17 | At least one piece, and no piece contains the separator. |
| Avatar.SplitJoin | app/components/header/current-user-avatar.tsx:17 | Joining the pieces with the separator gives back the name. |
| Avatar.Initials | app/components/header/current-user-avatar.tsx:15-19 | No name gives no initials. |
| Avatar.FirstLettersAreWordStarts | app/components/header/current-user-avatar.tsx:17-18 | The first letters of the pieces are exactly the letters that start a word. |
| Avatar.InitialsMeaning | app/components/header/current-user-avatar.tsx:15-19 | The initials are the upper-cased word starts of the name, one per non-empty piece. Runs of spaces add nothing. |

## Left out

- Authentication (the auth middleware and session fetch) is not part of this model. The acting user is a parameter.
- The AI metadata action and the URL host helper are foreign calls and network I/O.
- Logging, toasts, rendering, dialogs and cache invalidation have no effect on the modelled state.
- Transaction isolation and concurrent requests are not modelled. Each call runs alone.
- Hovering a suggestion sets the highlight to its index. It is not modelled: it only sets a field.
- The route's search-parameter schema and its defaults are not modelled. `TagsSection.SearchParams` takes the parameters as already parsed.
- `Text.Lower`, `Text.Upper`, `Text.Trim`: ASCII only, while JavaScript maps all of Unicode.
- `BookmarkApi.ResolveRefsInTx`: `Promise.all` runs the reference inserts concurrently. The model runs them in order and draws ids in that order. In the code the relative order of the generated ids is unspecified.
- `BookmarkApi.GetFilteredBookmarks`: the order of bookmarks with equal `created_at` is left open, as the database leaves it.
- `Autocomplete.CursorCycles`: the range guarantee is stated for a highlight in [-1, n]. The inputs only ever set it there, but the class does not carry that as an invariant.

## Findings

| source | as written | input that shows it | evidently intended | confidence | as-written member | corrected member |
|---|---|---|---|---|---|---|
| app/actions/tag.api.ts:14-23 | `getBookmarkTags` takes distinct rows over (tag id, tag name, link `created_at`), so one tag is listed once per distinct link time | tag 7 "news" linked to two of the user's bookmarks at times 1 and 2: the result holds tag 7 twice | each tag the user's bookmarks carry is listed once, ordered by its latest link | not executed | TagApi.DuplicateTagExample | TagApi.BookmarkTagsLatestExact |
