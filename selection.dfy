/** The entries of the client-side tag and folder selection stores, the
    removal rule both stores share, and the projection of a selection onto the
    references a bookmark request carries. */
module Selection {
  import opened Wrappers
  import opened Seqs
  import opened Schema
  import opened Api

  /** A selected tag or folder: a row fetched from the server (id set,
      `isNew` unset), or a name typed by the user (no id, `isNew` set). */
  datatype Selected = Selected(id: Option<Id>, name: string, isNew: bool)

  /** Whether removing `removed` takes `e` out: by id when both ids are
      truthy, by name otherwise. */
  predicate Matches(e: Selected, removed: Selected) {
    if IsTruthy(e.id) && IsTruthy(removed.id) then e.id == removed.id else e.name == removed.name
  }

  /** The removal filter of both stores: keep the entries `removed` does not
      match, in their order. */
  function Remove(entries: seq<Selected>, removed: Selected): (r: seq<Selected>)
    ensures IsSubsequence(r, entries)
    ensures forall e :: e in r <==> e in entries && !Matches(e, removed)
  {
    var keep := (e: Selected) => !Matches(e, removed);
    FilterIsSubsequence(entries, keep);
    forall e ensures e in Filter(entries, keep) <==> e in entries && keep(e) {
      FilterMembership(entries, keep, e);
    }
    Filter(entries, keep)
  }

  /** Every copy of a kept entry stays, and no copy of a matching one. */
  lemma RemoveCounts(entries: seq<Selected>, removed: Selected)
    ensures forall e ::
      multiset(Remove(entries, removed))[e] == if Matches(e, removed) then 0 else multiset(entries)[e]
  {
    forall e {
      FilterCount(entries, (e: Selected) => !Matches(e, removed), e);
    }
  }

  /** Removing twice is removing once. */
  lemma RemoveIdempotent(entries: seq<Selected>, removed: Selected)
    ensures Remove(Remove(entries, removed), removed) == Remove(entries, removed)
  {
    FilterIdempotent(entries, (e: Selected) => !Matches(e, removed));
  }

  /** Removing an entry nothing matches changes nothing. */
  lemma RemoveAbsent(entries: seq<Selected>, removed: Selected)
    requires forall i :: 0 <= i < |entries| ==> !Matches(entries[i], removed)
    ensures Remove(entries, removed) == entries
  {
    FilterKeepsAll(entries, (e: Selected) => !Matches(e, removed));
  }

  /** The reference one entry becomes in a request: `{id}` for a row from the
      server, `{name}` for everything else. */
  function ToRef(e: Selected): Ref {
    if IsTruthy(e.id) && !e.isNew then Ref(e.id, None) else Ref(None, Some(e.name))
  }

  /** The `get...FromStore` projection: one reference per entry, in order. A
      reference carries a truthy id exactly when its entry is a server row,
      and otherwise carries the entry's name. */
  function ToRefs(entries: seq<Selected>): (r: seq<Ref>)
    ensures |r| == |entries|
    ensures forall i :: 0 <= i < |r| ==>
      (IsTruthy(r[i].id) <==> IsTruthy(entries[i].id) && !entries[i].isNew)
    ensures forall i :: 0 <= i < |r| && IsTruthy(r[i].id) ==>
      r[i].id == entries[i].id && r[i].name.None?
    ensures forall i :: 0 <= i < |r| && !IsTruthy(r[i].id) ==>
      r[i].id.None? && r[i].name == Some(entries[i].name)
  {
    seq(|entries|, i requires 0 <= i < |entries| => ToRef(entries[i]))
  }

  /** Appending to the store appends one reference to the projection. */
  lemma ToRefsAppend(entries: seq<Selected>, e: Selected)
    ensures ToRefs(entries + [e]) == ToRefs(entries) + [ToRef(e)]
  {
  }
}
