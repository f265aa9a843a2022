/** The bookmark server functions: the `addBookmark` and `updateBookmark`
    transactions, which resolve folder and tag references (creating the rows
    named by name-only references) and then link the bookmark to them, and the
    two bookmark queries. */
module BookmarkApi {
  import opened Wrappers
  import opened Seqs
  import opened Schema
  import opened Api

  /** The outcome of resolving references inside a transaction. The serials
      are reported on both sides: a sequence value once drawn is never given
      back, even when the transaction aborts. */
  datatype Resolution =
    | Resolved(tables: Tables, serials: Serials, ids: seq<Id>)
    | Unresolved(serials: Serials, error: DbError)

  /** INSERT of the row a name-only reference stands for: a folder of `owner`
      with default description and visibility, or a (global) tag. */
  function CreateTarget(t: Tables, j: Junction, id: Id, owner: UserId, name: string, now: Time): Result<Tables, DbError> {
    match j
    case BookmarkFolders => InsertFolder(t, id, NewFolder(owner, name, None, now))
    case BookmarkTags => InsertTag(t, id, Tag(name, now, now))
  }

  /** One reference: a truthy id is used as it is; otherwise a row is inserted
      under the next serial, which fails on a missing name (NOT NULL) or on a
      name already in use (unique). */
  function ResolveRef(t: Tables, s: Serials, j: Junction, owner: UserId, ref: Ref, now: Time): Resolution {
    if IsTruthy(ref.id) then Resolved(t, s, [ref.id.value])
    else
      var id, s' := NextSerial(s, j), Advance(s, j);
      if ref.name.None? then Unresolved(s', NotNullViolation)
      else match CreateTarget(t, j, id, owner, ref.name.value, now)
        case Failure(e) => Unresolved(s', e)
        case Success(t') => Resolved(t', s', [id])
  }

  /** All references, in order; the first failure aborts the rest. */
  function ResolveRefs(t: Tables, s: Serials, j: Junction, owner: UserId, refs: seq<Ref>, now: Time): Resolution
    decreases |refs|
  {
    if refs == [] then Resolved(t, s, [])
    else match ResolveRefs(t, s, j, owner, refs[..|refs| - 1], now)
      case Unresolved(s', e) => Unresolved(s', e)
      case Resolved(t', s', ids) =>
        match ResolveRef(t', s', j, owner, refs[|refs| - 1], now)
        case Unresolved(s'', e) => Unresolved(s'', e)
        case Resolved(t'', s'', last) => Resolved(t'', s'', ids + last)
  }

  /** The row with key `x` in `t'` is the one created for the name `name`. */
  predicate IsCreatedRow(t': Tables, j: Junction, x: Id, owner: UserId, name: string, now: Time)
    requires x in TargetKeys(t', j)
  {
    match j
    case BookmarkFolders => t'.folders[x] == NewFolder(owner, name, None, now)
    case BookmarkTags => t'.tags[x] == Tag(name, now, now)
  }

  /** The target table of `t'` keeps every row of that of `t`. */
  predicate TargetsExtend(t: Tables, t': Tables, j: Junction) {
    match j
    case BookmarkFolders => Extends(t.folders, t'.folders)
    case BookmarkTags => Extends(t.tags, t'.tags)
  }

  /** `t'` differs from `t` at most in the target table of `j`. */
  predicate OnlyTargetsChanged(t: Tables, t': Tables, j: Junction) {
    && t'.bookmarks == t.bookmarks
    && t'.bookmarkTags == t.bookmarkTags && t'.bookmarkFolders == t.bookmarkFolders
    && (j == BookmarkFolders ==> t'.tags == t.tags)
    && (j == BookmarkTags ==> t'.folders == t.folders)
  }

  /** What resolving `refs` from `t` to `t'` with result `ids` means: a ref with
      a truthy id stands for that id; any other ref stands for a row that did
      not exist before, now holds its name, its owner and the transaction time;
      and every row added to the target table was created for some ref. */
  ghost predicate Resolves(t: Tables, t': Tables, j: Junction, owner: UserId, refs: seq<Ref>, ids: seq<Id>, now: Time) {
    && |ids| == |refs|
    && TargetsExtend(t, t', j)
    && (forall i :: 0 <= i < |refs| && IsTruthy(refs[i].id) ==> ids[i] == refs[i].id.value)
    && (forall i :: 0 <= i < |refs| && !IsTruthy(refs[i].id) ==>
          && refs[i].name.Some?
          && ids[i] !in TargetKeys(t, j) && ids[i] in TargetKeys(t', j)
          && IsCreatedRow(t', j, ids[i], owner, refs[i].name.value, now))
    && (forall x :: x in TargetKeys(t', j) && x !in TargetKeys(t, j) ==>
          exists i :: 0 <= i < |refs| && !IsTruthy(refs[i].id) && ids[i] == x)
  }

  /** No sequence moved backwards. */
  predicate SerialsNotBehind(s: Serials, s': Serials) {
    s.bookmark <= s'.bookmark && s.folder <= s'.folder && s.tag <= s'.tag
  }

  lemma ResolveRefResolves(t: Tables, s: Serials, j: Junction, owner: UserId, ref: Ref, now: Time)
    requires ResolveRef(t, s, j, owner, ref, now).Resolved?
    ensures var q := ResolveRef(t, s, j, owner, ref, now);
      Resolves(t, q.tables, j, owner, [ref], q.ids, now) && OnlyTargetsChanged(t, q.tables, j)
  {
    var q := ResolveRef(t, s, j, owner, ref, now);
    if !IsTruthy(ref.id) {
      var id := NextSerial(s, j);
      assert q.ids == [id];
      assert TargetKeys(q.tables, j) == TargetKeys(t, j) + {id};
      assert [ref][0] == ref && q.ids[0] == id;
    }
  }

  /** Resolving two lists one after the other resolves their concatenation. */
  lemma ResolvesCompose(t0: Tables, t1: Tables, t2: Tables, j: Junction, owner: UserId,
                        refs1: seq<Ref>, ids1: seq<Id>, refs2: seq<Ref>, ids2: seq<Id>, now: Time)
    requires Resolves(t0, t1, j, owner, refs1, ids1, now)
    requires Resolves(t1, t2, j, owner, refs2, ids2, now)
    ensures Resolves(t0, t2, j, owner, refs1 + refs2, ids1 + ids2, now)
  {
    var refs, ids := refs1 + refs2, ids1 + ids2;
    var n := |refs1|;
    forall i | 0 <= i < |refs| && !IsTruthy(refs[i].id)
      ensures ids[i] !in TargetKeys(t0, j) && ids[i] in TargetKeys(t2, j)
      ensures IsCreatedRow(t2, j, ids[i], owner, refs[i].name.value, now)
    {
      if i < n {
        assert refs[i] == refs1[i] && ids[i] == ids1[i];
      } else {
        assert refs[i] == refs2[i - n] && ids[i] == ids2[i - n];
      }
    }
    forall x | x in TargetKeys(t2, j) && x !in TargetKeys(t0, j)
      ensures exists i :: 0 <= i < |refs| && !IsTruthy(refs[i].id) && ids[i] == x
    {
      if x in TargetKeys(t1, j) {
        var i :| 0 <= i < |refs1| && !IsTruthy(refs1[i].id) && ids1[i] == x;
        assert refs[i] == refs1[i] && ids[i] == ids1[i];
      } else {
        var k :| 0 <= k < |refs2| && !IsTruthy(refs2[k].id) && ids2[k] == x;
        assert refs[n + k] == refs2[k] && ids[n + k] == ids2[k];
      }
    }
  }

  /** A successful resolution means what `Resolves` says, and touches nothing
      but the target table. */
  lemma {:induction false} ResolveRefsResolves(t: Tables, s: Serials, j: Junction, owner: UserId, refs: seq<Ref>, now: Time)
    requires ResolveRefs(t, s, j, owner, refs, now).Resolved?
    ensures var r := ResolveRefs(t, s, j, owner, refs, now);
      Resolves(t, r.tables, j, owner, refs, r.ids, now) && OnlyTargetsChanged(t, r.tables, j)
    decreases |refs|
  {
    if refs != [] {
      var n := |refs| - 1;
      var pre := refs[..n];
      ResolveRefsResolves(t, s, j, owner, pre, now);
      var p := ResolveRefs(t, s, j, owner, pre, now);
      ResolveRefResolves(p.tables, p.serials, j, owner, refs[n], now);
      var q := ResolveRef(p.tables, p.serials, j, owner, refs[n], now);
      ResolvesCompose(t, p.tables, q.tables, j, owner, pre, p.ids, [refs[n]], q.ids, now);
      assert pre + [refs[n]] == refs;
    }
  }

  /** Resolution keeps every constraint and the sequences ahead of every id;
      whatever the outcome, no sequence moves backwards and the bookmark
      sequence does not move. */
  lemma {:induction false} ResolveRefsKeepsValid(t: Tables, s: Serials, j: Junction, owner: UserId, refs: seq<Ref>, now: Time)
    ensures var r := ResolveRefs(t, s, j, owner, refs, now);
      SerialsNotBehind(s, r.serials) && r.serials.bookmark == s.bookmark
    ensures var r := ResolveRefs(t, s, j, owner, refs, now);
      r.Resolved? && Valid(t) && SerialsAhead(t, s) ==> Valid(r.tables) && SerialsAhead(r.tables, r.serials)
    decreases |refs|
  {
    if refs != [] {
      var n := |refs| - 1;
      ResolveRefsKeepsValid(t, s, j, owner, refs[..n], now);
    }
  }

  /** Once a prefix of the references fails, the whole list fails the same way. */
  lemma {:induction false} UnresolvedSticks(t: Tables, s: Serials, j: Junction, owner: UserId, refs: seq<Ref>, now: Time, n: nat)
    requires n <= |refs| && ResolveRefs(t, s, j, owner, refs[..n], now).Unresolved?
    ensures ResolveRefs(t, s, j, owner, refs, now) == ResolveRefs(t, s, j, owner, refs[..n], now)
    decreases |refs| - n
  {
    if n < |refs| {
      var m := |refs| - 1;
      assert refs[..m][..n] == refs[..n];
      UnresolvedSticks(t, s, j, owner, refs[..m], now, n);
    } else {
      assert refs[..n] == refs;
    }
  }

  /** A reference with neither a truthy id nor a name aborts the resolution
      (the name column is NOT NULL). */
  lemma MissingNameAborts(t: Tables, s: Serials, j: Junction, owner: UserId, refs: seq<Ref>, now: Time, i: nat)
    requires i < |refs| && !IsTruthy(refs[i].id) && refs[i].name.None?
    ensures ResolveRefs(t, s, j, owner, refs, now).Unresolved?
  {
    var pre := refs[..i + 1];
    assert pre[..i] == refs[..i] && pre[i] == refs[i];
    UnresolvedSticks(t, s, j, owner, refs, now, i + 1);
  }

  /** The target table already holds a row that a name would clash with:
      a folder of the same owner, or a tag, with that name. */
  predicate NameInUse(t: Tables, j: Junction, owner: UserId, name: string) {
    match j
    case BookmarkFolders =>
      exists x :: x in t.folders && t.folders[x].createdBy == owner && t.folders[x].name == name
    case BookmarkTags => TagNameTaken(t.tags, name)
  }

  lemma NameInUseExtends(t: Tables, t': Tables, j: Junction, owner: UserId, name: string)
    requires NameInUse(t, j, owner, name) && TargetsExtend(t, t', j)
    ensures NameInUse(t', j, owner, name)
  {
    if j == BookmarkFolders {
      var x :| x in t.folders && t.folders[x].createdBy == owner && t.folders[x].name == name;
      assert x in t'.folders && t'.folders[x] == t.folders[x];
    } else {
      var x :| x in t.tags && t.tags[x].name == name;
      assert x in t'.tags && t'.tags[x] == t.tags[x];
    }
  }

  /** Creating a row under a name in use fails. */
  lemma NameInUseAborts(t: Tables, s: Serials, j: Junction, owner: UserId, ref: Ref, now: Time)
    requires !IsTruthy(ref.id) && ref.name.Some? && NameInUse(t, j, owner, ref.name.value)
    ensures ResolveRef(t, s, j, owner, ref, now).Unresolved?
  {
    var id := NextSerial(s, j);
    if j == BookmarkFolders {
      var x :| x in t.folders && t.folders[x].createdBy == owner && t.folders[x].name == ref.name.value;
      if x != id {
        assert FolderNameTaken(t.folders, owner, ref.name.value, id);
      }
    }
  }

  /** A name-only reference whose name is already in use aborts the resolution. */
  lemma TakenNameAborts(t: Tables, s: Serials, j: Junction, owner: UserId, refs: seq<Ref>, now: Time, i: nat)
    requires i < |refs| && !IsTruthy(refs[i].id) && refs[i].name.Some?
    requires NameInUse(t, j, owner, refs[i].name.value)
    ensures ResolveRefs(t, s, j, owner, refs, now).Unresolved?
  {
    var pre := refs[..i + 1];
    assert pre[..i] == refs[..i] && pre[i] == refs[i];
    var p := ResolveRefs(t, s, j, owner, refs[..i], now);
    if p.Resolved? {
      ResolveRefsResolves(t, s, j, owner, refs[..i], now);
      NameInUseExtends(t, p.tables, j, owner, refs[i].name.value);
      NameInUseAborts(p.tables, p.serials, j, owner, refs[i], now);
    }
    UnresolvedSticks(t, s, j, owner, refs, now, i + 1);
  }

  /** Two name-only references with the same name cannot both be created. */
  lemma RepeatedNameAborts(t: Tables, s: Serials, j: Junction, owner: UserId, refs: seq<Ref>, now: Time, i: nat, k: nat)
    requires i < k < |refs|
    requires !IsTruthy(refs[i].id) && !IsTruthy(refs[k].id) && refs[i].name.Some? && refs[i].name == refs[k].name
    ensures ResolveRefs(t, s, j, owner, refs, now).Unresolved?
  {
    var pre := refs[..k];
    var p := ResolveRefs(t, s, j, owner, pre, now);
    if p.Resolved? {
      ResolveRefsResolves(t, s, j, owner, pre, now);
      assert pre[i] == refs[i];
      var x := p.ids[i];
      assert x in TargetKeys(p.tables, j) && IsCreatedRow(p.tables, j, x, owner, refs[i].name.value, now);
      assert NameInUse(p.tables, j, owner, refs[k].name.value);
      NameInUseAborts(p.tables, p.serials, j, owner, refs[k], now);
    }
    assert refs[..k + 1][..k] == pre;
    UnresolvedSticks(t, s, j, owner, refs, now, k + 1);
  }

  /** Two name-only references with the same name, a name-only reference with
      no name, or one whose name is already in use. */
  predicate BadRefs(t: Tables, j: Junction, owner: UserId, refs: seq<Ref>) {
    || (exists i :: 0 <= i < |refs| && !IsTruthy(refs[i].id) &&
          (refs[i].name.None? || NameInUse(t, j, owner, refs[i].name.value)))
    || (exists i, k :: 0 <= i < k < |refs| && !IsTruthy(refs[i].id) && !IsTruthy(refs[k].id) &&
          refs[i].name.Some? && refs[i].name == refs[k].name)
  }

  lemma BadRefsAbort(t: Tables, s: Serials, j: Junction, owner: UserId, refs: seq<Ref>, now: Time)
    requires BadRefs(t, j, owner, refs)
    ensures ResolveRefs(t, s, j, owner, refs, now).Unresolved?
  {
    if exists i :: 0 <= i < |refs| && !IsTruthy(refs[i].id) &&
         (refs[i].name.None? || NameInUse(t, j, owner, refs[i].name.value)) {
      var i :| 0 <= i < |refs| && !IsTruthy(refs[i].id) &&
        (refs[i].name.None? || NameInUse(t, j, owner, refs[i].name.value));
      if refs[i].name.None? {
        MissingNameAborts(t, s, j, owner, refs, now, i);
      } else {
        TakenNameAborts(t, s, j, owner, refs, now, i);
      }
    } else {
      var i, k :| 0 <= i < k < |refs| && !IsTruthy(refs[i].id) && !IsTruthy(refs[k].id) &&
        refs[i].name.Some? && refs[i].name == refs[k].name;
      RepeatedNameAborts(t, s, j, owner, refs, now, i, k);
    }
  }

  /** The references by id of a list name existing rows, and no id repeats. */
  predicate GoodIds(t: Tables, j: Junction, refs: seq<Ref>) {
    && (forall i :: 0 <= i < |refs| && IsTruthy(refs[i].id) ==> refs[i].id.value in TargetKeys(t, j))
    && (forall i, k :: 0 <= i < k < |refs| && IsTruthy(refs[i].id) && IsTruthy(refs[k].id) ==>
          refs[i].id != refs[k].id)
  }

  /** A list that resolves and links: good ids, and names that are present,
      free and not repeated. */
  predicate GoodRefs(t: Tables, j: Junction, owner: UserId, refs: seq<Ref>) {
    GoodIds(t, j, refs) && !BadRefs(t, j, owner, refs)
  }

  /** Resolution adds only rows named by its name-only references, so a free
      name that none of them carries is still free afterwards. */
  lemma FreeNameStaysFree(t: Tables, t': Tables, j: Junction, owner: UserId, refs: seq<Ref>, ids: seq<Id>,
                          now: Time, name: string)
    requires Resolves(t, t', j, owner, refs, ids, now) && !NameInUse(t, j, owner, name)
    requires forall i :: 0 <= i < |refs| && !IsTruthy(refs[i].id) ==> refs[i].name != Some(name)
    ensures !NameInUse(t', j, owner, name)
  {
    if j == BookmarkFolders {
      forall x | x in t'.folders ensures !(t'.folders[x].createdBy == owner && t'.folders[x].name == name) {
        if x !in t.folders {
          assert x in TargetKeys(t', j) && x !in TargetKeys(t, j);
          var i :| 0 <= i < |refs| && !IsTruthy(refs[i].id) && ids[i] == x;
          assert IsCreatedRow(t', j, x, owner, refs[i].name.value, now);
        }
      }
    } else {
      forall x | x in t'.tags ensures t'.tags[x].name != name {
        if x !in t.tags {
          assert x in TargetKeys(t', j) && x !in TargetKeys(t, j);
          var i :| 0 <= i < |refs| && !IsTruthy(refs[i].id) && ids[i] == x;
          assert IsCreatedRow(t', j, x, owner, refs[i].name.value, now);
        }
      }
    }
  }

  /** A good list resolves, to distinct ids of rows that exist afterwards. */
  lemma {:induction false} GoodRefsResolve(t: Tables, s: Serials, j: Junction, owner: UserId, refs: seq<Ref>, now: Time)
    requires Valid(t) && SerialsAhead(t, s) && GoodRefs(t, j, owner, refs)
    ensures var r := ResolveRefs(t, s, j, owner, refs, now);
      && r.Resolved? && Distinct(r.ids)
      && forall i :: 0 <= i < |r.ids| ==> r.ids[i] in TargetKeys(r.tables, j)
    decreases |refs|
  {
    if refs != [] {
      var pre := refs[..|refs| - 1];
      assert forall i :: 0 <= i < |pre| ==> pre[i] == refs[i];
      GoodRefsResolve(t, s, j, owner, pre, now);
      GoodRefResolvesLast(t, s, j, owner, refs, now);
    }
  }

  /** The inductive step of `GoodRefsResolve`: the last good reference
      resolves to a key that is present and not among the earlier ones. */
  lemma GoodRefResolvesLast(t: Tables, s: Serials, j: Junction, owner: UserId, refs: seq<Ref>, now: Time)
    requires Valid(t) && SerialsAhead(t, s) && GoodRefs(t, j, owner, refs) && refs != []
    requires var p := ResolveRefs(t, s, j, owner, refs[..|refs| - 1], now);
      && p.Resolved? && Distinct(p.ids)
      && forall i :: 0 <= i < |p.ids| ==> p.ids[i] in TargetKeys(p.tables, j)
    ensures var r := ResolveRefs(t, s, j, owner, refs, now);
      && r.Resolved? && Distinct(r.ids)
      && forall i :: 0 <= i < |r.ids| ==> r.ids[i] in TargetKeys(r.tables, j)
  {
    var p := ResolveRefs(t, s, j, owner, refs[..|refs| - 1], now);
    var q := ResolveRef(p.tables, p.serials, j, owner, refs[|refs| - 1], now);
    LastRefFresh(t, s, j, owner, refs, now);
    assert TargetKeys(p.tables, j) <= TargetKeys(q.tables, j);
    var r := ResolveRefs(t, s, j, owner, refs, now);
    assert r.ids == p.ids + q.ids;
  }

  /** The last good reference resolves, without error, to one key of the
      grown target table that no earlier reference resolved to. */
  lemma LastRefFresh(t: Tables, s: Serials, j: Junction, owner: UserId, refs: seq<Ref>, now: Time)
    requires Valid(t) && SerialsAhead(t, s) && GoodRefs(t, j, owner, refs) && refs != []
    requires ResolveRefs(t, s, j, owner, refs[..|refs| - 1], now).Resolved?
    ensures var p := ResolveRefs(t, s, j, owner, refs[..|refs| - 1], now);
      var q := ResolveRef(p.tables, p.serials, j, owner, refs[|refs| - 1], now);
      && q.Resolved? && |q.ids| == 1 && q.ids[0] in TargetKeys(q.tables, j)
      && TargetKeys(p.tables, j) <= TargetKeys(q.tables, j)
      && forall i :: 0 <= i < |p.ids| ==> p.ids[i] != q.ids[0]
  {
    var n := |refs| - 1;
    var pre, ref := refs[..n], refs[n];
    ResolveRefsResolves(t, s, j, owner, pre, now);
    ResolveRefsKeepsValid(t, s, j, owner, pre, now);
    var p := ResolveRefs(t, s, j, owner, pre, now);
    if IsTruthy(ref.id) {
      forall i | 0 <= i < n ensures p.ids[i] != ref.id.value {
        if IsTruthy(pre[i].id) {
          assert refs[i].id != refs[n].id;
        }
      }
    } else {
      var id := NextSerial(p.serials, j);
      FreeNameStaysFree(t, p.tables, j, owner, pre, p.ids, now, ref.name.value);
      assert id !in TargetKeys(p.tables, j);
      if j == BookmarkFolders {
        assert !FolderNameTaken(p.tables.folders, owner, ref.name.value, id);
      }
    }
  }

  /** The resolution loop of a transaction: references are taken in order, each
      name-only one draws the next serial of its table, and the first failing
      INSERT aborts. */
  method ResolveRefsInTx(t: Tables, s: Serials, j: Junction, owner: UserId, refs: seq<Ref>, now: Time)
    returns (r: Resolution)
    ensures r == ResolveRefs(t, s, j, owner, refs, now)
  {
    var tx, serials, ids := t, s, [];
    for i := 0 to |refs|
      invariant ResolveRefs(t, s, j, owner, refs[..i], now) == Resolved(tx, serials, ids)
    {
      assert refs[..i + 1][..i] == refs[..i];
      var ref := refs[i];
      if IsTruthy(ref.id) {
        ids := ids + [ref.id.value];
      } else {
        var id := NextSerial(serials, j);
        serials := Advance(serials, j);
        if ref.name.None? {
          UnresolvedSticks(t, s, j, owner, refs, now, i + 1);
          return Unresolved(serials, NotNullViolation);
        }
        var created := CreateTarget(tx, j, id, owner, ref.name.value, now);
        if created.Failure? {
          UnresolvedSticks(t, s, j, owner, refs, now, i + 1);
          return Unresolved(serials, created.error);
        }
        tx := created.value;
        ids := ids + [id];
      }
    }
    assert refs[..|refs|] == refs;
    return Resolved(tx, serials, ids);
  }

  /** Why a transaction rolled back. */
  datatype TxError = Db(cause: DbError) | InvalidRequest

  /** A transaction either commits its tables or rolls them back; the serials
      it drew stay drawn either way. */
  datatype TxOutcome =
    | Committed(tables: Tables, serials: Serials, folderIds: seq<Id>, tagIds: seq<Id>)
    | RolledBack(serials: Serials, error: TxError)

  /** The bulk junction INSERT, issued only when there is at least one row. */
  function LinkTargets(t: Tables, j: Junction, bookmarkId: Id, targets: seq<Id>, now: Time): Result<Tables, DbError> {
    if |targets| > 0 then InsertLinks(t, j, bookmarkId, targets, now) else Success(t)
  }

  /** The part both transactions share: resolve the folders and link them,
      then resolve the tags and link them. */
  function Reconcile(t: Tables, s: Serials, bookmarkId: Id, owner: UserId,
                     folderRefs: seq<Ref>, tagRefs: seq<Ref>, now: Time): TxOutcome {
    match ResolveRefs(t, s, BookmarkFolders, owner, folderRefs, now)
    case Unresolved(s1, e) => RolledBack(s1, Db(e))
    case Resolved(t1, s1, folderIds) =>
      match LinkTargets(t1, BookmarkFolders, bookmarkId, folderIds, now)
      case Failure(e) => RolledBack(s1, Db(e))
      case Success(t2) =>
        match ResolveRefs(t2, s1, BookmarkTags, owner, tagRefs, now)
        case Unresolved(s3, e) => RolledBack(s3, Db(e))
        case Resolved(t3, s3, tagIds) =>
          match LinkTargets(t3, BookmarkTags, bookmarkId, tagIds, now)
          case Failure(e) => RolledBack(s3, Db(e))
          case Success(t4) => Committed(t4, s3, folderIds, tagIds)
  }

  method ReconcileInTx(t: Tables, s: Serials, bookmarkId: Id, owner: UserId,
                       folderRefs: seq<Ref>, tagRefs: seq<Ref>, now: Time) returns (r: TxOutcome)
    ensures r == Reconcile(t, s, bookmarkId, owner, folderRefs, tagRefs, now)
  {
    var folders := ResolveRefsInTx(t, s, BookmarkFolders, owner, folderRefs, now);
    if folders.Unresolved? {
      return RolledBack(folders.serials, Db(folders.error));
    }
    var linked := LinkTargets(folders.tables, BookmarkFolders, bookmarkId, folders.ids, now);
    if linked.Failure? {
      return RolledBack(folders.serials, Db(linked.error));
    }
    var tags := ResolveRefsInTx(linked.value, folders.serials, BookmarkTags, owner, tagRefs, now);
    if tags.Unresolved? {
      return RolledBack(tags.serials, Db(tags.error));
    }
    var tagged := LinkTargets(tags.tables, BookmarkTags, bookmarkId, tags.ids, now);
    if tagged.Failure? {
      return RolledBack(tags.serials, Db(tagged.error));
    }
    return Committed(tagged.value, tags.serials, folders.ids, tags.ids);
  }

  /** Both target tables of `t` and `t'` agree on `j`'s target table. */
  predicate SameTargets(t: Tables, t': Tables, j: Junction) {
    match j
    case BookmarkFolders => t'.folders == t.folders
    case BookmarkTags => t'.tags == t.tags
  }

  lemma ResolvesFrame(t: Tables, t': Tables, u: Tables, u': Tables, j: Junction, owner: UserId,
                      refs: seq<Ref>, ids: seq<Id>, now: Time)
    requires Resolves(t, t', j, owner, refs, ids, now)
    requires SameTargets(t, u, j) && SameTargets(t', u', j)
    ensures Resolves(u, u', j, owner, refs, ids, now)
  {
    assert TargetKeys(u, j) == TargetKeys(t, j) && TargetKeys(u', j) == TargetKeys(t', j);
  }

  /** A successful junction INSERT adds exactly one row per target, every
      target exists, none repeats and none was linked before; nothing else
      changes. */
  lemma LinkTargetsEffect(t: Tables, j: Junction, bookmarkId: Id, targets: seq<Id>, now: Time)
    requires LinkTargets(t, j, bookmarkId, targets, now).Success?
    ensures var u := LinkTargets(t, j, bookmarkId, targets, now).value;
      && u == WithLinks(t, j, Links(t, j) + LinkRows(bookmarkId, targets, now))
      && Distinct(targets)
      && (forall i :: 0 <= i < |targets| ==> targets[i] in TargetKeys(t, j))
      && (forall i :: 0 <= i < |targets| ==> Link(bookmarkId, targets[i]) !in Links(t, j))
      && (|targets| > 0 ==> bookmarkId in t.bookmarks)
  {
    if |targets| == 0 {
      assert LinkRows(bookmarkId, targets, now) == map[];
      assert Links(t, j) + map[] == Links(t, j);
    }
  }

  /** A committed reconciliation leaves the bookmark rows alone and resolves
      each reference list as `Resolves` says. */
  lemma ReconcileResolves(t: Tables, s: Serials, bookmarkId: Id, owner: UserId,
                          folderRefs: seq<Ref>, tagRefs: seq<Ref>, now: Time)
    requires Reconcile(t, s, bookmarkId, owner, folderRefs, tagRefs, now).Committed?
    ensures var r := Reconcile(t, s, bookmarkId, owner, folderRefs, tagRefs, now);
      && r.tables.bookmarks == t.bookmarks
      && Resolves(t, r.tables, BookmarkFolders, owner, folderRefs, r.folderIds, now)
      && Resolves(t, r.tables, BookmarkTags, owner, tagRefs, r.tagIds, now)
  {
    var f := ResolveRefs(t, s, BookmarkFolders, owner, folderRefs, now);
    ResolveRefsResolves(t, s, BookmarkFolders, owner, folderRefs, now);
    var t2 := LinkTargets(f.tables, BookmarkFolders, bookmarkId, f.ids, now).value;
    var g := ResolveRefs(t2, f.serials, BookmarkTags, owner, tagRefs, now);
    ResolveRefsResolves(t2, f.serials, BookmarkTags, owner, tagRefs, now);
    var t4 := LinkTargets(g.tables, BookmarkTags, bookmarkId, g.ids, now).value;
    LinkTargetsEffect(f.tables, BookmarkFolders, bookmarkId, f.ids, now);
    LinkTargetsEffect(g.tables, BookmarkTags, bookmarkId, g.ids, now);
    assert SameTargets(f.tables, t4, BookmarkFolders);
    ResolvesFrame(t, f.tables, t, t4, BookmarkFolders, owner, folderRefs, f.ids, now);
    assert SameTargets(t, t2, BookmarkTags);
    ResolvesFrame(t2, g.tables, t, t4, BookmarkTags, owner, tagRefs, g.ids, now);
  }

  /** A committed reconciliation adds to each junction exactly one new row per
      resolved id: no id repeats, each names an existing row, and none was
      linked to the bookmark before. */
  lemma ReconcileLinks(t: Tables, s: Serials, bookmarkId: Id, owner: UserId,
                       folderRefs: seq<Ref>, tagRefs: seq<Ref>, now: Time)
    requires Reconcile(t, s, bookmarkId, owner, folderRefs, tagRefs, now).Committed?
    ensures var r := Reconcile(t, s, bookmarkId, owner, folderRefs, tagRefs, now);
      && Distinct(r.folderIds) && Distinct(r.tagIds)
      && (forall i :: 0 <= i < |r.folderIds| ==> r.folderIds[i] in r.tables.folders)
      && (forall i :: 0 <= i < |r.tagIds| ==> r.tagIds[i] in r.tables.tags)
      && (forall i :: 0 <= i < |r.folderIds| ==> Link(bookmarkId, r.folderIds[i]) !in t.bookmarkFolders)
      && (forall i :: 0 <= i < |r.tagIds| ==> Link(bookmarkId, r.tagIds[i]) !in t.bookmarkTags)
      && r.tables.bookmarkFolders == t.bookmarkFolders + LinkRows(bookmarkId, r.folderIds, now)
      && r.tables.bookmarkTags == t.bookmarkTags + LinkRows(bookmarkId, r.tagIds, now)
      && (|r.folderIds| + |r.tagIds| > 0 ==> bookmarkId in t.bookmarks)
  {
    var f := ResolveRefs(t, s, BookmarkFolders, owner, folderRefs, now);
    ResolveRefsResolves(t, s, BookmarkFolders, owner, folderRefs, now);
    var t2 := LinkTargets(f.tables, BookmarkFolders, bookmarkId, f.ids, now).value;
    var g := ResolveRefs(t2, f.serials, BookmarkTags, owner, tagRefs, now);
    ResolveRefsResolves(t2, f.serials, BookmarkTags, owner, tagRefs, now);
    LinkTargetsEffect(f.tables, BookmarkFolders, bookmarkId, f.ids, now);
    LinkTargetsEffect(g.tables, BookmarkTags, bookmarkId, g.ids, now);
  }

  /** A successful link step keeps every constraint and touches no entity
      table, so the sequences stay ahead. */
  lemma LinkTargetsKeepsValid(t: Tables, s: Serials, j: Junction, bookmarkId: Id, targets: seq<Id>, now: Time)
    requires Valid(t) && SerialsAhead(t, s)
    requires LinkTargets(t, j, bookmarkId, targets, now).Success?
    ensures var u := LinkTargets(t, j, bookmarkId, targets, now).value;
      Valid(u) && SerialsAhead(u, s)
  {
    var u := LinkTargets(t, j, bookmarkId, targets, now).value;
    assert u.bookmarks == t.bookmarks && u.folders == t.folders && u.tags == t.tags;
  }

  /** Reconciliation keeps every constraint and every sequence ahead of the ids
      in use when it commits, never moves a sequence backwards, and never
      moves the bookmark sequence. */
  lemma ReconcileKeepsValid(t: Tables, s: Serials, bookmarkId: Id, owner: UserId,
                            folderRefs: seq<Ref>, tagRefs: seq<Ref>, now: Time)
    ensures var r := Reconcile(t, s, bookmarkId, owner, folderRefs, tagRefs, now);
      SerialsNotBehind(s, r.serials) && r.serials.bookmark == s.bookmark
    ensures var r := Reconcile(t, s, bookmarkId, owner, folderRefs, tagRefs, now);
      r.Committed? && Valid(t) && SerialsAhead(t, s) ==> Valid(r.tables) && SerialsAhead(r.tables, r.serials)
  {
    var good := Valid(t) && SerialsAhead(t, s);
    var f := ResolveRefs(t, s, BookmarkFolders, owner, folderRefs, now);
    ResolveRefsKeepsValid(t, s, BookmarkFolders, owner, folderRefs, now);
    if f.Resolved? {
      var linked := LinkTargets(f.tables, BookmarkFolders, bookmarkId, f.ids, now);
      if linked.Success? {
        var t2 := linked.value;
        if good {
          LinkTargetsKeepsValid(f.tables, f.serials, BookmarkFolders, bookmarkId, f.ids, now);
        }
        var g := ResolveRefs(t2, f.serials, BookmarkTags, owner, tagRefs, now);
        ResolveRefsKeepsValid(t2, f.serials, BookmarkTags, owner, tagRefs, now);
        if g.Resolved? {
          var tagged := LinkTargets(g.tables, BookmarkTags, bookmarkId, g.ids, now);
          if tagged.Success? && good {
            LinkTargetsKeepsValid(g.tables, g.serials, BookmarkTags, bookmarkId, g.ids, now);
          }
        }
      }
    }
  }

  /** A reconciliation whose reference lists are bad rolls back. */
  lemma ReconcileAbortsOnBadRefs(t: Tables, s: Serials, bookmarkId: Id, owner: UserId,
                                 folderRefs: seq<Ref>, tagRefs: seq<Ref>, now: Time)
    requires BadRefs(t, BookmarkFolders, owner, folderRefs) || BadRefs(t, BookmarkTags, owner, tagRefs)
    ensures Reconcile(t, s, bookmarkId, owner, folderRefs, tagRefs, now).RolledBack?
  {
    var f := ResolveRefs(t, s, BookmarkFolders, owner, folderRefs, now);
    if BadRefs(t, BookmarkFolders, owner, folderRefs) {
      BadRefsAbort(t, s, BookmarkFolders, owner, folderRefs, now);
    } else if f.Resolved? {
      ResolveRefsResolves(t, s, BookmarkFolders, owner, folderRefs, now);
      var linked := LinkTargets(f.tables, BookmarkFolders, bookmarkId, f.ids, now);
      if linked.Success? {
        var t2 := linked.value;
        assert t2.tags == t.tags;
        assert BadRefs(t2, BookmarkTags, owner, tagRefs);
        BadRefsAbort(t2, f.serials, BookmarkTags, owner, tagRefs, now);
      }
    }
  }

  /** On a database that keeps its constraints, with the bookmark present and
      not yet linked to anything, reconciliation commits exactly when both
      reference lists are good. */
  lemma ReconcileCommitsIff(t: Tables, s: Serials, bookmarkId: Id, owner: UserId,
                            folderRefs: seq<Ref>, tagRefs: seq<Ref>, now: Time)
    requires Valid(t) && SerialsAhead(t, s) && bookmarkId in t.bookmarks
    requires forall l :: l in t.bookmarkFolders ==> l.bookmarkId != bookmarkId
    requires forall l :: l in t.bookmarkTags ==> l.bookmarkId != bookmarkId
    ensures Reconcile(t, s, bookmarkId, owner, folderRefs, tagRefs, now).Committed? <==>
      GoodRefs(t, BookmarkFolders, owner, folderRefs) && GoodRefs(t, BookmarkTags, owner, tagRefs)
  {
    if Reconcile(t, s, bookmarkId, owner, folderRefs, tagRefs, now).Committed? {
      CommittedRefsAreGood(t, s, bookmarkId, owner, folderRefs, tagRefs, now);
    }
    if GoodRefs(t, BookmarkFolders, owner, folderRefs) && GoodRefs(t, BookmarkTags, owner, tagRefs) {
      GoodRefsCommit(t, s, bookmarkId, owner, folderRefs, tagRefs, now);
    }
  }

  /** Whatever commits had good reference lists. */
  lemma CommittedRefsAreGood(t: Tables, s: Serials, bookmarkId: Id, owner: UserId,
                             folderRefs: seq<Ref>, tagRefs: seq<Ref>, now: Time)
    requires Reconcile(t, s, bookmarkId, owner, folderRefs, tagRefs, now).Committed?
    ensures GoodRefs(t, BookmarkFolders, owner, folderRefs) && GoodRefs(t, BookmarkTags, owner, tagRefs)
  {
    var r := Reconcile(t, s, bookmarkId, owner, folderRefs, tagRefs, now);
    ReconcileResolves(t, s, bookmarkId, owner, folderRefs, tagRefs, now);
    ReconcileLinks(t, s, bookmarkId, owner, folderRefs, tagRefs, now);
    ResolvesGoodIds(t, r.tables, BookmarkFolders, owner, folderRefs, r.folderIds, now);
    ResolvesGoodIds(t, r.tables, BookmarkTags, owner, tagRefs, r.tagIds, now);
    if BadRefs(t, BookmarkFolders, owner, folderRefs) || BadRefs(t, BookmarkTags, owner, tagRefs) {
      ReconcileAbortsOnBadRefs(t, s, bookmarkId, owner, folderRefs, tagRefs, now);
    }
  }

  /** Good reference lists commit, for a present bookmark with no links yet. */
  lemma GoodRefsCommit(t: Tables, s: Serials, bookmarkId: Id, owner: UserId,
                       folderRefs: seq<Ref>, tagRefs: seq<Ref>, now: Time)
    requires Valid(t) && SerialsAhead(t, s) && bookmarkId in t.bookmarks
    requires forall l :: l in t.bookmarkFolders ==> l.bookmarkId != bookmarkId
    requires forall l :: l in t.bookmarkTags ==> l.bookmarkId != bookmarkId
    requires GoodRefs(t, BookmarkFolders, owner, folderRefs) && GoodRefs(t, BookmarkTags, owner, tagRefs)
    ensures Reconcile(t, s, bookmarkId, owner, folderRefs, tagRefs, now).Committed?
  {
    var f := ResolveRefs(t, s, BookmarkFolders, owner, folderRefs, now);
    var t2, s1 := GoodRefsLink(t, s, BookmarkFolders, bookmarkId, owner, folderRefs, now);
    assert GoodRefs(t2, BookmarkTags, owner, tagRefs) by {
      assert TargetKeys(t2, BookmarkTags) == TargetKeys(t, BookmarkTags);
      assert forall name :: NameInUse(t2, BookmarkTags, owner, name) == NameInUse(t, BookmarkTags, owner, name);
    }
    var t4, s3 := GoodRefsLink(t2, s1, BookmarkTags, bookmarkId, owner, tagRefs, now);
  }

  /** One resolve-and-link step of a good list succeeds: it returns the tables
      after the link INSERT, and they keep every constraint, the bookmark, the
      other target table and the other junction. */
  lemma GoodRefsLink(t: Tables, s: Serials, j: Junction, bookmarkId: Id, owner: UserId, refs: seq<Ref>, now: Time)
    returns (u: Tables, s': Serials)
    requires Valid(t) && SerialsAhead(t, s) && bookmarkId in t.bookmarks
    requires forall l :: l in Links(t, j) ==> l.bookmarkId != bookmarkId
    requires GoodRefs(t, j, owner, refs)
    ensures var r := ResolveRefs(t, s, j, owner, refs, now);
      && r.Resolved? && r.serials == s'
      && LinkTargets(r.tables, j, bookmarkId, r.ids, now) == Success(u)
    ensures Valid(u) && SerialsAhead(u, s') && u.bookmarks == t.bookmarks
    ensures j == BookmarkFolders ==> u.tags == t.tags && u.bookmarkTags == t.bookmarkTags
    ensures j == BookmarkTags ==> u.folders == t.folders && u.bookmarkFolders == t.bookmarkFolders
  {
    GoodRefsResolve(t, s, j, owner, refs, now);
    ResolveRefsResolves(t, s, j, owner, refs, now);
    ResolveRefsKeepsValid(t, s, j, owner, refs, now);
    var r := ResolveRefs(t, s, j, owner, refs, now);
    assert Links(r.tables, j) == Links(t, j);
    var linked := LinkTargets(r.tables, j, bookmarkId, r.ids, now);
    LinkTargetsKeepsValid(r.tables, r.serials, j, bookmarkId, r.ids, now);
    LinkTargetsFrame(r.tables, j, bookmarkId, r.ids, now);
    u, s' := linked.value, r.serials;
  }

  /** Linking writes only the junction table it is given. */
  lemma LinkTargetsFrame(t: Tables, j: Junction, bookmarkId: Id, targets: seq<Id>, now: Time)
    requires LinkTargets(t, j, bookmarkId, targets, now).Success?
    ensures var u := LinkTargets(t, j, bookmarkId, targets, now).value;
      && u.bookmarks == t.bookmarks && u.folders == t.folders && u.tags == t.tags
      && (j == BookmarkFolders ==> u.bookmarkTags == t.bookmarkTags)
      && (j == BookmarkTags ==> u.bookmarkFolders == t.bookmarkFolders)
  {
  }

  /** Distinct ids, each of a row that exists after the resolution, make the
      references by id good. */
  lemma ResolvesGoodIds(t: Tables, t': Tables, j: Junction, owner: UserId, refs: seq<Ref>, ids: seq<Id>, now: Time)
    requires Resolves(t, t', j, owner, refs, ids, now) && Distinct(ids)
    requires forall i :: 0 <= i < |ids| ==> ids[i] in TargetKeys(t', j)
    ensures GoodIds(t, j, refs)
  {
    forall i | 0 <= i < |refs| && IsTruthy(refs[i].id) ensures refs[i].id.value in TargetKeys(t, j) {
      assert forall k :: 0 <= k < |refs| && !IsTruthy(refs[k].id) ==> k != i && ids[k] != ids[i];
    }
  }

  /** The `bookmark` object of an add or update request; `is_public` may be
      left out and then defaults to false. */
  datatype BookmarkInput = BookmarkInput(name: string, url: string, description: string, isPublic: Option<bool>)

  /** The request schema of both mutations: name and url non-empty, and every
      tag name that is given non-empty (folder names are unconstrained). */
  predicate ValidBookmarkRequest(b: BookmarkInput, tagRefs: seq<Ref>) {
    && b.name != "" && b.url != ""
    && forall i :: 0 <= i < |tagRefs| && tagRefs[i].name.Some? ==> tagRefs[i].name.value != ""
  }

  /** The row `addBookmark` inserts for `owner`. */
  function NewBookmark(owner: UserId, b: BookmarkInput, now: Time): Bookmark {
    Bookmark(b.name, b.url, b.description, b.isPublic.GetOr(false), owner, now, now)
  }

  /** The row `updateBookmark` writes over `row`. */
  function Edited(row: Bookmark, b: BookmarkInput): Bookmark {
    row.(name := b.name, url := b.url, description := b.description, isPublic := b.isPublic.GetOr(false))
  }

  /** The `addBookmark` transaction: insert the bookmark under the next serial,
      then reconcile its folders and tags. */
  function AddTx(t: Tables, s: Serials, owner: UserId, b: BookmarkInput,
                 folderRefs: seq<Ref>, tagRefs: seq<Ref>, now: Time): TxOutcome {
    var bookmarkId, s' := s.bookmark, s.(bookmark := s.bookmark + 1);
    match InsertBookmark(t, bookmarkId, NewBookmark(owner, b, now))
    case Failure(e) => RolledBack(s', Db(e))
    case Success(t') => Reconcile(t', s', bookmarkId, owner, folderRefs, tagRefs, now)
  }

  /** The `updateBookmark` transaction: the bookmark must exist; its four
      editable columns are overwritten, every link it had is deleted, and its
      folders and tags are reconciled from scratch. */
  function UpdateTx(t: Tables, s: Serials, owner: UserId, bookmarkId: Id, b: BookmarkInput,
                    folderRefs: seq<Ref>, tagRefs: seq<Ref>, now: Time): TxOutcome {
    if bookmarkId !in t.bookmarks then RolledBack(s, InvalidRequest)
    else match UpdateBookmarkRow(t, bookmarkId, Edited(t.bookmarks[bookmarkId], b))
      case Failure(e) => RolledBack(s, Db(e))
      case Success(t') => Reconcile(DetachBookmark(t', bookmarkId), s, bookmarkId, owner, folderRefs, tagRefs, now)
  }

  /** A committed add: the new bookmark got a key not in use and holds the
      request's fields, the owner and the transaction time; each reference
      list is resolved as `Resolves` says; the bookmark is linked to exactly the
      resolved folders and tags; no other link changes. */
  lemma AddCommitted(t: Tables, s: Serials, owner: UserId, b: BookmarkInput,
                     folderRefs: seq<Ref>, tagRefs: seq<Ref>, now: Time)
    requires Valid(t) && SerialsAhead(t, s)
    requires AddTx(t, s, owner, b, folderRefs, tagRefs, now).Committed?
    ensures var r, id := AddTx(t, s, owner, b, folderRefs, tagRefs, now), s.bookmark;
      && id !in t.bookmarks
      && r.tables.bookmarks == t.bookmarks[id := NewBookmark(owner, b, now)]
      && Resolves(t, r.tables, BookmarkFolders, owner, folderRefs, r.folderIds, now)
      && Resolves(t, r.tables, BookmarkTags, owner, tagRefs, r.tagIds, now)
      && (forall x :: Link(id, x) in r.tables.bookmarkFolders <==> x in r.folderIds)
      && (forall x :: Link(id, x) in r.tables.bookmarkTags <==> x in r.tagIds)
      && (forall l: Link :: l.bookmarkId != id ==> (l in r.tables.bookmarkFolders <==> l in t.bookmarkFolders))
      && (forall l: Link :: l.bookmarkId != id ==> (l in r.tables.bookmarkTags <==> l in t.bookmarkTags))
  {
    var id, s' := s.bookmark, s.(bookmark := s.bookmark + 1);
    var t' := InsertBookmark(t, id, NewBookmark(owner, b, now)).value;
    var r := Reconcile(t', s', id, owner, folderRefs, tagRefs, now);
    ReconcileResolves(t', s', id, owner, folderRefs, tagRefs, now);
    ReconcileLinks(t', s', id, owner, folderRefs, tagRefs, now);
    ResolvesFrame(t', r.tables, t, r.tables, BookmarkFolders, owner, folderRefs, r.folderIds, now);
    ResolvesFrame(t', r.tables, t, r.tables, BookmarkTags, owner, tagRefs, r.tagIds, now);
    forall x ensures Link(id, x) in r.tables.bookmarkFolders <==> x in r.folderIds {
      assert Link(id, x) !in t.bookmarkFolders;
      assert Link(id, x) in LinkKeys(id, r.folderIds) <==> x in r.folderIds;
    }
    forall x ensures Link(id, x) in r.tables.bookmarkTags <==> x in r.tagIds {
      assert Link(id, x) !in t.bookmarkTags;
      assert Link(id, x) in LinkKeys(id, r.tagIds) <==> x in r.tagIds;
    }
  }

  /** An add keeps every constraint and the sequences ahead of the ids in use
      when it commits; whether or not it commits, it has drawn one bookmark
      serial and no sequence moved backwards. */
  lemma AddKeepsValid(t: Tables, s: Serials, owner: UserId, b: BookmarkInput,
                      folderRefs: seq<Ref>, tagRefs: seq<Ref>, now: Time)
    ensures var r := AddTx(t, s, owner, b, folderRefs, tagRefs, now);
      SerialsNotBehind(s, r.serials) && r.serials.bookmark == s.bookmark + 1
    ensures var r := AddTx(t, s, owner, b, folderRefs, tagRefs, now);
      r.Committed? && Valid(t) && SerialsAhead(t, s) ==> Valid(r.tables) && SerialsAhead(r.tables, r.serials)
  {
    var id, s' := s.bookmark, s.(bookmark := s.bookmark + 1);
    var inserted := InsertBookmark(t, id, NewBookmark(owner, b, now));
    if inserted.Success? {
      ReconcileKeepsValid(inserted.value, s', id, owner, folderRefs, tagRefs, now);
    }
  }

  /** An add rolls back when the owner already has a bookmark with that url,
      or when either reference list is bad. */
  lemma AddAborts(t: Tables, s: Serials, owner: UserId, b: BookmarkInput,
                  folderRefs: seq<Ref>, tagRefs: seq<Ref>, now: Time)
    requires || (exists x :: x in t.bookmarks && t.bookmarks[x].createdBy == owner && t.bookmarks[x].url == b.url)
             || BadRefs(t, BookmarkFolders, owner, folderRefs)
             || BadRefs(t, BookmarkTags, owner, tagRefs)
    ensures AddTx(t, s, owner, b, folderRefs, tagRefs, now).RolledBack?
  {
    var id := s.bookmark;
    var inserted := InsertBookmark(t, id, NewBookmark(owner, b, now));
    if inserted.Success? {
      var t' := inserted.value;
      SameTargetsSameRefs(t, t', BookmarkFolders, owner, folderRefs);
      SameTargetsSameRefs(t, t', BookmarkTags, owner, tagRefs);
      ReconcileAbortsOnBadRefs(t', s.(bookmark := id + 1), id, owner, folderRefs, tagRefs, now);
    }
  }

  /** Reference lists are judged against the folder and tag tables only. */
  lemma SameTargetsSameRefs(t: Tables, t': Tables, j: Junction, owner: UserId, refs: seq<Ref>)
    requires t'.folders == t.folders && t'.tags == t.tags
    ensures BadRefs(t', j, owner, refs) == BadRefs(t, j, owner, refs)
    ensures GoodRefs(t', j, owner, refs) == GoodRefs(t, j, owner, refs)
  {
    assert TargetKeys(t', j) == TargetKeys(t, j);
    forall name ensures NameInUse(t', j, owner, name) == NameInUse(t, j, owner, name) {
    }
  }

  /** The row the add inserts leaves the database valid, the serials ahead,
      and no link yet pointing at the new key. */
  lemma InsertedBookmark(t: Tables, s: Serials, row: Bookmark)
    requires Valid(t) && SerialsAhead(t, s)
    requires InsertBookmark(t, s.bookmark, row).Success?
    ensures var t' := InsertBookmark(t, s.bookmark, row).value;
      && Valid(t') && SerialsAhead(t', s.(bookmark := s.bookmark + 1)) && s.bookmark in t'.bookmarks
      && t'.folders == t.folders && t'.tags == t.tags
      && (forall l :: l in t'.bookmarkFolders ==> l.bookmarkId != s.bookmark)
      && (forall l :: l in t'.bookmarkTags ==> l.bookmarkId != s.bookmark)
  {
  }

  /** On a database that keeps its constraints, an add commits exactly when
      the owner has no bookmark with that url and both reference lists are
      good; in particular an add with no folders and no tags commits whenever
      the url is free. */
  lemma AddCommitsIff(t: Tables, s: Serials, owner: UserId, b: BookmarkInput,
                      folderRefs: seq<Ref>, tagRefs: seq<Ref>, now: Time)
    requires Valid(t) && SerialsAhead(t, s)
    ensures AddTx(t, s, owner, b, folderRefs, tagRefs, now).Committed? <==>
      && !(exists x :: x in t.bookmarks && t.bookmarks[x].createdBy == owner && t.bookmarks[x].url == b.url)
      && GoodRefs(t, BookmarkFolders, owner, folderRefs)
      && GoodRefs(t, BookmarkTags, owner, tagRefs)
  {
    var id, s' := s.bookmark, s.(bookmark := s.bookmark + 1);
    var inserted := InsertBookmark(t, id, NewBookmark(owner, b, now));
    if inserted.Success? {
      var t' := inserted.value;
      InsertedBookmark(t, s, NewBookmark(owner, b, now));
      SameTargetsSameRefs(t, t', BookmarkFolders, owner, folderRefs);
      SameTargetsSameRefs(t, t', BookmarkTags, owner, tagRefs);
      ReconcileCommitsIff(t', s', id, owner, folderRefs, tagRefs, now);
    } else {
      assert id !in t.bookmarks;
    }
  }

  /** A committed update: the bookmark existed; only its name, url,
      description and visibility changed (its owner and timestamps did not);
      its links were replaced by exactly the resolved folders and tags; no
      other link and no other bookmark changed, and no folder or tag was
      removed. */
  lemma UpdateCommitted(t: Tables, s: Serials, owner: UserId, bookmarkId: Id, b: BookmarkInput,
                        folderRefs: seq<Ref>, tagRefs: seq<Ref>, now: Time)
    requires UpdateTx(t, s, owner, bookmarkId, b, folderRefs, tagRefs, now).Committed?
    ensures var r := UpdateTx(t, s, owner, bookmarkId, b, folderRefs, tagRefs, now);
      && bookmarkId in t.bookmarks
      && r.tables.bookmarks.Keys == t.bookmarks.Keys
      && (forall x :: x in t.bookmarks && x != bookmarkId ==> r.tables.bookmarks[x] == t.bookmarks[x])
      && var before, after := t.bookmarks[bookmarkId], r.tables.bookmarks[bookmarkId];
      && after.name == b.name && after.url == b.url && after.description == b.description
      && after.isPublic == b.isPublic.GetOr(false)
      && after.createdBy == before.createdBy && after.createdAt == before.createdAt
      && after.updatedAt == before.updatedAt
      && Resolves(t, r.tables, BookmarkFolders, owner, folderRefs, r.folderIds, now)
      && Resolves(t, r.tables, BookmarkTags, owner, tagRefs, r.tagIds, now)
      && (forall x :: Link(bookmarkId, x) in r.tables.bookmarkFolders <==> x in r.folderIds)
      && (forall x :: Link(bookmarkId, x) in r.tables.bookmarkTags <==> x in r.tagIds)
      && (forall l: Link :: l.bookmarkId != bookmarkId ==> (l in r.tables.bookmarkFolders <==> l in t.bookmarkFolders))
      && (forall l: Link :: l.bookmarkId != bookmarkId ==> (l in r.tables.bookmarkTags <==> l in t.bookmarkTags))
  {
    var t' := UpdateBookmarkRow(t, bookmarkId, Edited(t.bookmarks[bookmarkId], b)).value;
    var d := DetachBookmark(t', bookmarkId);
    var r := Reconcile(d, s, bookmarkId, owner, folderRefs, tagRefs, now);
    ReconcileResolves(d, s, bookmarkId, owner, folderRefs, tagRefs, now);
    ReconcileLinks(d, s, bookmarkId, owner, folderRefs, tagRefs, now);
    ResolvesFrame(d, r.tables, t, r.tables, BookmarkFolders, owner, folderRefs, r.folderIds, now);
    ResolvesFrame(d, r.tables, t, r.tables, BookmarkTags, owner, tagRefs, r.tagIds, now);
    assert Links(d, BookmarkFolders) == d.bookmarkFolders && Links(d, BookmarkTags) == d.bookmarkTags;
    forall x ensures Link(bookmarkId, x) in r.tables.bookmarkFolders <==> x in r.folderIds {
      assert Link(bookmarkId, x) !in d.bookmarkFolders;
      assert Link(bookmarkId, x) in LinkKeys(bookmarkId, r.folderIds) <==> x in r.folderIds;
    }
    forall x ensures Link(bookmarkId, x) in r.tables.bookmarkTags <==> x in r.tagIds {
      assert Link(bookmarkId, x) !in d.bookmarkTags;
      assert Link(bookmarkId, x) in LinkKeys(bookmarkId, r.tagIds) <==> x in r.tagIds;
    }
  }

  /** An update keeps every constraint and the sequences ahead of the ids in
      use when it commits, and never moves a sequence backwards. */
  lemma UpdateKeepsValid(t: Tables, s: Serials, owner: UserId, bookmarkId: Id, b: BookmarkInput,
                         folderRefs: seq<Ref>, tagRefs: seq<Ref>, now: Time)
    ensures var r := UpdateTx(t, s, owner, bookmarkId, b, folderRefs, tagRefs, now);
      SerialsNotBehind(s, r.serials) && r.serials.bookmark == s.bookmark
    ensures var r := UpdateTx(t, s, owner, bookmarkId, b, folderRefs, tagRefs, now);
      r.Committed? && Valid(t) && SerialsAhead(t, s) ==> Valid(r.tables) && SerialsAhead(r.tables, r.serials)
  {
    if bookmarkId in t.bookmarks {
      var updated := UpdateBookmarkRow(t, bookmarkId, Edited(t.bookmarks[bookmarkId], b));
      if updated.Success? {
        var d := DetachBookmark(updated.value, bookmarkId);
        ReconcileKeepsValid(d, s, bookmarkId, owner, folderRefs, tagRefs, now);
      }
    }
  }

  /** An update rolls back when the bookmark does not exist, when its owner
      has another bookmark with the new url, or when either reference list is
      bad. */
  lemma UpdateAborts(t: Tables, s: Serials, owner: UserId, bookmarkId: Id, b: BookmarkInput,
                     folderRefs: seq<Ref>, tagRefs: seq<Ref>, now: Time)
    requires || bookmarkId !in t.bookmarks
             || UrlTaken(t.bookmarks, t.bookmarks[bookmarkId].createdBy, b.url, bookmarkId)
             || BadRefs(t, BookmarkFolders, owner, folderRefs)
             || BadRefs(t, BookmarkTags, owner, tagRefs)
    ensures UpdateTx(t, s, owner, bookmarkId, b, folderRefs, tagRefs, now).RolledBack?
    ensures bookmarkId !in t.bookmarks ==>
      UpdateTx(t, s, owner, bookmarkId, b, folderRefs, tagRefs, now) == RolledBack(s, InvalidRequest)
  {
    if bookmarkId in t.bookmarks {
      var updated := UpdateBookmarkRow(t, bookmarkId, Edited(t.bookmarks[bookmarkId], b));
      if updated.Success? {
        var d := DetachBookmark(updated.value, bookmarkId);
        assert d.folders == t.folders && d.tags == t.tags;
        assert BadRefs(d, BookmarkFolders, owner, folderRefs) || BadRefs(d, BookmarkTags, owner, tagRefs);
        ReconcileAbortsOnBadRefs(d, s, bookmarkId, owner, folderRefs, tagRefs, now);
      }
    }
  }

  /** On a database that keeps its constraints, an update commits exactly when
      the bookmark exists, no other bookmark of its owner has the new url, and
      both reference lists are good. The bookmark's old links are deleted
      first, so resubmitting the folders and tags it already has commits. */
  lemma UpdateCommitsIff(t: Tables, s: Serials, owner: UserId, bookmarkId: Id, b: BookmarkInput,
                         folderRefs: seq<Ref>, tagRefs: seq<Ref>, now: Time)
    requires Valid(t) && SerialsAhead(t, s)
    ensures UpdateTx(t, s, owner, bookmarkId, b, folderRefs, tagRefs, now).Committed? <==>
      && bookmarkId in t.bookmarks
      && !UrlTaken(t.bookmarks, t.bookmarks[bookmarkId].createdBy, b.url, bookmarkId)
      && GoodRefs(t, BookmarkFolders, owner, folderRefs)
      && GoodRefs(t, BookmarkTags, owner, tagRefs)
  {
    if bookmarkId in t.bookmarks {
      var updated := UpdateBookmarkRow(t, bookmarkId, Edited(t.bookmarks[bookmarkId], b));
      if updated.Success? {
        var d := DetachBookmark(updated.value, bookmarkId);
        assert d.bookmarks.Keys == t.bookmarks.Keys;
        SameTargetsSameRefs(t, d, BookmarkFolders, owner, folderRefs);
        SameTargetsSameRefs(t, d, BookmarkTags, owner, tagRefs);
        assert Links(d, BookmarkFolders) == d.bookmarkFolders && Links(d, BookmarkTags) == d.bookmarkTags;
        ReconcileCommitsIff(d, s, bookmarkId, owner, folderRefs, tagRefs, now);
      }
    }
  }

  /** `getAllBookmarks`: the bookmark rows `user` owns, by id. */
  function GetAllBookmarks(t: Tables, user: UserId): (r: map<Id, Bookmark>)
    ensures r.Keys <= t.bookmarks.Keys
    ensures forall id :: id in r ==> r[id] == t.bookmarks[id] && r[id].createdBy == user
  {
    map id | id in t.bookmarks && t.bookmarks[id].createdBy == user :: t.bookmarks[id]
  }

  datatype Access = All | Public | Private

  /** The `getFilteredBookmarks` request: `access` defaults to `All` and
      `tags` to the empty list. */
  datatype BookmarkFilter = BookmarkFilter(folderId: Option<Id>, access: Access, tags: seq<Id>)

  /** A bookmark as the query returns it: every column but the owner, with the
      `{id, name}` of each linked tag and folder. The database returns the
      related rows in no promised order, so they are sets here. */
  datatype BookmarkView = BookmarkView(
    id: Id, name: string, url: string, description: string, isPublic: bool,
    createdAt: Time, updatedAt: Time, tags: set<NamedRef>, folders: set<NamedRef>)

  function View(t: Tables, id: Id): BookmarkView
    requires id in t.bookmarks
  {
    var b := t.bookmarks[id];
    BookmarkView(id, b.name, b.url, b.description, b.isPublic, b.createdAt, b.updatedAt,
      set l | l in t.bookmarkTags && l.bookmarkId == id && l.targetId in t.tags ::
        NamedRef(l.targetId, t.tags[l.targetId].name),
      set l | l in t.bookmarkFolders && l.bookmarkId == id && l.targetId in t.folders ::
        NamedRef(l.targetId, t.folders[l.targetId].name))
  }

  /** The WHERE clause as written: owner, visibility unless `All`, and two
      `id IN (subquery)` conditions, the tag one skipped for an empty list. */
  predicate InWhereClause(t: Tables, user: UserId, f: BookmarkFilter, id: Id)
    requires id in t.bookmarks
  {
    && t.bookmarks[id].createdBy == user
    && (f.access == All || t.bookmarks[id].isPublic == (f.access == Public))
    && (f.folderId.None? ||
        id in (set l | l in t.bookmarkFolders && l.targetId == f.folderId.value :: l.bookmarkId))
    && (|f.tags| == 0 ||
        id in (set l | l in t.bookmarkTags && l.targetId in f.tags :: l.bookmarkId))
  }

  function FilteredViews(t: Tables, user: UserId, f: BookmarkFilter): set<BookmarkView> {
    set id | id in t.bookmarks && InWhereClause(t, user, f, id) :: View(t, id)
  }

  /** `getFilteredBookmarks`: the selected bookmarks, newest first. */
  ghost function GetFilteredBookmarks(t: Tables, user: UserId, f: BookmarkFilter): (r: seq<BookmarkView>)
    ensures Distinct(r) && Descending(r, (v: BookmarkView) => v.createdAt)
  {
    OrderByDesc(FilteredViews(t, user, f), (v: BookmarkView) => v.createdAt)
  }

  /** What the filter means for one bookmark: it is the user's; `Public` and
      `Private` keep only public and only private bookmarks; a folder id keeps
      the bookmarks in that folder; a non-empty tag list keeps the bookmarks
      carrying at least one of those tags. */
  predicate Selected(t: Tables, user: UserId, f: BookmarkFilter, id: Id)
    requires id in t.bookmarks
  {
    var b := t.bookmarks[id];
    && b.createdBy == user
    && (f.access == Public ==> b.isPublic)
    && (f.access == Private ==> !b.isPublic)
    && (f.folderId.Some? ==> Link(id, f.folderId.value) in t.bookmarkFolders)
    && (|f.tags| > 0 ==> exists x :: x in f.tags && Link(id, x) in t.bookmarkTags)
  }

  lemma WhereClauseMeaning(t: Tables, user: UserId, f: BookmarkFilter, id: Id)
    requires id in t.bookmarks
    ensures InWhereClause(t, user, f, id) <==> Selected(t, user, f, id)
  {
    if f.folderId.Some? && Link(id, f.folderId.value) in t.bookmarkFolders {
      var l := Link(id, f.folderId.value);
      assert l.bookmarkId in (set l | l in t.bookmarkFolders && l.targetId == f.folderId.value :: l.bookmarkId);
    }
    if |f.tags| > 0 && exists x :: x in f.tags && Link(id, x) in t.bookmarkTags {
      var x :| x in f.tags && Link(id, x) in t.bookmarkTags;
      var l := Link(id, x);
      assert l.bookmarkId in (set l | l in t.bookmarkTags && l.targetId in f.tags :: l.bookmarkId);
    }
  }

  /** The result lists each selected bookmark exactly once, as its view, and
      nothing else; it is newest first. */
  lemma FilteredBookmarksListed(t: Tables, user: UserId, f: BookmarkFilter)
    ensures var r := GetFilteredBookmarks(t, user, f);
      && (forall v :: v in r ==> v.id in t.bookmarks && v == View(t, v.id) && Selected(t, user, f, v.id))
      && (forall id :: id in t.bookmarks && Selected(t, user, f, id) ==> View(t, id) in r)
      && (forall i, k :: 0 <= i < k < |r| ==> r[i].id != r[k].id && r[i].createdAt >= r[k].createdAt)
  {
    var r := GetFilteredBookmarks(t, user, f);
    var vs := FilteredViews(t, user, f);
    assert Elements(r) == vs;
    forall v | v in r
      ensures v.id in t.bookmarks && v == View(t, v.id) && Selected(t, user, f, v.id)
    {
      assert v in vs;
      var id :| id in t.bookmarks && InWhereClause(t, user, f, id) && v == View(t, id);
      WhereClauseMeaning(t, user, f, id);
    }
    forall id | id in t.bookmarks && Selected(t, user, f, id) ensures View(t, id) in r {
      WhereClauseMeaning(t, user, f, id);
      assert View(t, id) in vs;
    }
    forall i, k | 0 <= i < k < |r| ensures r[i].id != r[k].id && r[i].createdAt >= r[k].createdAt {
      assert r[i] in r && r[k] in r;
    }
  }

  /** With no filter at all the query lists exactly the bookmarks
      `getAllBookmarks` returns. */
  lemma UnfilteredIsAll(t: Tables, user: UserId)
    ensures var r := GetFilteredBookmarks(t, user, BookmarkFilter(None, All, []));
      forall id :: id in GetAllBookmarks(t, user) <==> id in t.bookmarks && View(t, id) in r
  {
    FilteredBookmarksListed(t, user, BookmarkFilter(None, All, []));
  }
}
