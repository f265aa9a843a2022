/** The database as mutable state, with one method per mutating server
    function. A transaction runs on a copy of the tables and is committed by
    assignment only when every step succeeded; an error inside the
    bookmark transactions is caught and logged, so those handlers return
    normally either way. */
module Server {
  import opened Wrappers
  import opened Schema
  import opened Api
  import opened BookmarkApi
  import opened FolderApi

  class Database {
    var tables: Tables
    var serials: Serials

    /** Every schema constraint holds and every sequence is ahead of the ids
        drawn from it. */
    ghost predicate Invariant()
      reads this
    {
      Valid(tables) && SerialsAhead(tables, serials)
    }

    constructor ()
      ensures tables == EmptyTables && serials == FreshSerials
      ensures Invariant()
    {
      tables := EmptyTables;
      serials := FreshSerials;
      EmptyValid();
    }

    /** `addBookmark`: a request failing validation is refused; otherwise the
        transaction runs, and its outcome is committed or rolled back but never
        reported. */
    method AddBookmark(user: UserId, b: BookmarkInput, folderRefs: seq<Ref>, tagRefs: seq<Ref>, now: Time)
      returns (resp: Response)
      requires Invariant()
      modifies this
      ensures Invariant()
      ensures !ValidBookmarkRequest(b, tagRefs) ==>
        resp == Failed(ValidationError) && tables == old(tables) && serials == old(serials)
      ensures ValidBookmarkRequest(b, tagRefs) ==>
        && resp == Done
        && var r := AddTx(old(tables), old(serials), user, b, folderRefs, tagRefs, now);
        && serials == r.serials
        && tables == (if r.Committed? then r.tables else old(tables))
    {
      if !ValidBookmarkRequest(b, tagRefs) {
        return Failed(ValidationError);
      }
      AddKeepsValid(tables, serials, user, b, folderRefs, tagRefs, now);
      ghost var r := AddTx(tables, serials, user, b, folderRefs, tagRefs, now);
      var bookmarkId := serials.bookmark;
      serials := serials.(bookmark := bookmarkId + 1);
      var inserted := InsertBookmark(tables, bookmarkId, NewBookmark(user, b, now));
      if inserted.Success? {
        var outcome := ReconcileInTx(inserted.value, serials, bookmarkId, user, folderRefs, tagRefs, now);
        assert outcome == r;
        serials := outcome.serials;
        if outcome.Committed? {
          tables := outcome.tables;
        }
      } else {
        assert r == RolledBack(serials, Db(inserted.error));
      }
      return Done;
    }

    /** `updateBookmark`: validation, then id -1 is refused before any
        transaction opens; otherwise the transaction runs and its outcome is
        committed or rolled back but never reported. */
    method UpdateBookmark(user: UserId, bookmarkId: Id, b: BookmarkInput,
                          folderRefs: seq<Ref>, tagRefs: seq<Ref>, now: Time)
      returns (resp: Response)
      requires Invariant()
      modifies this
      ensures Invariant()
      ensures !ValidBookmarkRequest(b, tagRefs) ==>
        resp == Failed(ValidationError) && tables == old(tables) && serials == old(serials)
      ensures ValidBookmarkRequest(b, tagRefs) && bookmarkId == -1 ==>
        resp == Failed(InvalidBookmark) && tables == old(tables) && serials == old(serials)
      ensures ValidBookmarkRequest(b, tagRefs) && bookmarkId != -1 ==>
        && resp == Done
        && var r := UpdateTx(old(tables), old(serials), user, bookmarkId, b, folderRefs, tagRefs, now);
        && serials == r.serials
        && tables == (if r.Committed? then r.tables else old(tables))
    {
      if !ValidBookmarkRequest(b, tagRefs) {
        return Failed(ValidationError);
      }
      if bookmarkId == -1 {
        return Failed(InvalidBookmark);
      }
      UpdateKeepsValid(tables, serials, user, bookmarkId, b, folderRefs, tagRefs, now);
      if bookmarkId !in tables.bookmarks {
        return Done;
      }
      var updated := UpdateBookmarkRow(tables, bookmarkId, Edited(tables.bookmarks[bookmarkId], b));
      if updated.Success? {
        var detached := DetachBookmark(updated.value, bookmarkId);
        var outcome := ReconcileInTx(detached, serials, bookmarkId, user, folderRefs, tagRefs, now);
        serials := outcome.serials;
        if outcome.Committed? {
          tables := outcome.tables;
        }
      }
      return Done;
    }

    /** `deleteBookmark`: deletes by id whoever owns the bookmark; its links
        cascade. */
    method DeleteBookmark(bookmarkId: Id) returns (resp: Response)
      requires Invariant()
      modifies this
      ensures Invariant() && resp == Done
      ensures tables == DeleteBookmarkCascade(old(tables), bookmarkId) && serials == old(serials)
    {
      tables := DeleteBookmarkCascade(tables, bookmarkId);
      return Done;
    }

    /** `addFolder`: validation, then one INSERT whose error reaches the
        caller. The folder serial is drawn whether or not the INSERT
        succeeds. */
    method AddFolder(user: UserId, input: FolderInput, now: Time) returns (resp: Response)
      requires Invariant()
      modifies this
      ensures Invariant()
      ensures !ValidFolderInput(input) ==>
        resp == Failed(ValidationError) && tables == old(tables) && serials == old(serials)
      ensures ValidFolderInput(input) ==>
        && serials == old(serials).(folder := old(serials).folder + 1)
        && var r := FolderApi.AddFolder(old(tables), old(serials), user, input, now);
        && (r.Success? ==> resp == Done && tables == r.value)
        && (r.Failure? ==> resp == Failed(Database(r.error)) && tables == old(tables))
    {
      if !ValidFolderInput(input) {
        return Failed(ValidationError);
      }
      var r := FolderApi.AddFolder(tables, serials, user, input, now);
      serials := serials.(folder := serials.folder + 1);
      if r.Failure? {
        return Failed(Database(r.error));
      }
      tables := r.value;
      return Done;
    }

    /** `updateFolder`: validation, then one UPDATE whose error reaches the
        caller. */
    method UpdateFolder(id: Id, input: FolderInput) returns (resp: Response)
      requires Invariant()
      modifies this
      ensures Invariant() && serials == old(serials)
      ensures !ValidFolderInput(input) ==> resp == Failed(ValidationError) && tables == old(tables)
      ensures ValidFolderInput(input) ==>
        var r := FolderApi.UpdateFolder(old(tables), id, input);
        && (r.Success? ==> resp == Done && tables == r.value)
        && (r.Failure? ==> resp == Failed(Database(r.error)) && tables == old(tables))
    {
      if !ValidFolderInput(input) {
        return Failed(ValidationError);
      }
      var r := FolderApi.UpdateFolder(tables, id, input);
      if r.Failure? {
        return Failed(Database(r.error));
      }
      tables := r.value;
      return Done;
    }

    /** `deleteFolder`: id -1 and another user's folder are refused and nothing
        is written; otherwise the folder and its links are deleted. */
    method DeleteFolder(user: UserId, id: Id) returns (resp: Response)
      requires Invariant()
      modifies this
      ensures Invariant() && serials == old(serials)
      ensures var r := FolderApi.DeleteFolder(old(tables), user, id);
        && (r.Success? ==> resp == Done && tables == r.value)
        && (r.Failure? ==> resp == Failed(r.error) && tables == old(tables))
    {
      var r := FolderApi.DeleteFolder(tables, user, id);
      if r.Failure? {
        return Failed(r.error);
      }
      tables := r.value;
      return Done;
    }
  }
}
