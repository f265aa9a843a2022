/** The rules the tag input and the folder input of the bookmark form share:
    which fetched rows are suggested for the typed text, what a submitted name
    adds to the selection, the 20-folder quota, and the keyboard transition
    over the input text, the highlighted suggestion and the selection. */
module Autocomplete {
  import opened Wrappers
  import opened Text
  import opened Seqs
  import opened Schema
  import opened Selection

  const MaxSuggestions := 5
  const MaxFoldersAllowed := 20

  /** A tag or folder row as the input fetched it. */
  datatype DbEntry = DbEntry(id: Id, name: string)

  /** Some selected entry has `name`, ignoring case. */
  predicate IsSelectedName(selected: seq<Selected>, name: string) {
    exists i :: 0 <= i < |selected| && SameIgnoringCase(selected[i].name, name)
  }

  /** A fetched row is suggested for `input` when its name contains the
      untrimmed input, ignoring case, and it is not selected yet. */
  predicate IsSuggestion(e: DbEntry, selected: seq<Selected>, input: string) {
    Contains(Lower(e.name), Lower(input)) && !IsSelectedName(selected, e.name)
  }

  /** `filteredSuggestions`: nothing for blank input; otherwise the first five
      matching rows, in the order they were fetched. The fetched rows carry
      distinct ids, so no row repeats, and then no matching row that comes
      before a suggested one is left out. */
  function Suggestions(db: seq<DbEntry>, selected: seq<Selected>, input: string): (r: seq<DbEntry>)
    ensures |r| <= MaxSuggestions
    ensures Trim(input) == "" ==> r == []
    ensures IsSubsequence(r, db)
    ensures forall e :: e in r ==> IsSuggestion(e, selected, input)
    ensures Trim(input) != "" && |r| < MaxSuggestions ==>
      forall e :: e in db && IsSuggestion(e, selected, input) ==> e in r
    ensures Distinct(db) ==> forall i, k :: 0 <= i < k < |db| && IsSuggestion(db[i], selected, input) && db[k] in r ==> db[i] in r
  {
    if Trim(input) == "" then []
    else
      var p := (e: DbEntry) => IsSuggestion(e, selected, input);
      var matching := Filter(db, p);
      FilterIsSubsequence(db, p);
      forall e ensures e in matching <==> e in db && p(e) {
        FilterMembership(db, p, e);
      }
      var r := Take(matching, MaxSuggestions);
      PrefixIsSubsequence(matching, |r|);
      SubsequenceTransitive(r, matching, db);
      forall e | e in r ensures p(e) {
        SubsequenceMembers(r, matching, e);
      }
      if Distinct(db) then
        (forall i, k | 0 <= i < k < |db| && p(db[i]) && db[k] in r ensures db[i] in r {
          TakeFilterKeepsEarlier(db, p, MaxSuggestions, i, k);
        }
        r)
      else r
  }

  /** `dbTags.find` / `dbFolders.find` by name, ignoring case: the first such
      row. */
  function FindByName(db: seq<DbEntry>, name: string): (r: Option<DbEntry>)
    ensures r.None? <==> forall i :: 0 <= i < |db| ==> !SameIgnoringCase(db[i].name, name)
    ensures r.Some? ==>
      exists i :: (&& 0 <= i < |db| && db[i] == r.value
                   && SameIgnoringCase(db[i].name, name)
                   && forall k :: 0 <= k < i ==> !SameIgnoringCase(db[k].name, name))
  {
    if db == [] then None
    else if SameIgnoringCase(db[0].name, name) then Some(db[0])
    else
      var r := FindByName(db[1..], name);
      r
  }

  /** Some fetched row has `name`, ignoring case. */
  predicate InDb(db: seq<DbEntry>, name: string) {
    exists i :: 0 <= i < |db| && SameIgnoringCase(db[i].name, name)
  }

  /** The entry a fetched row becomes in the store. */
  function FromDb(e: DbEntry): Selected {
    Selected(Some(e.id), e.name, false)
  }

  /** `canTagBeAdded`: refuses a blank name or one already selected (ignoring
      case); otherwise adds the first fetched row of that name if there is
      one, or else a new tag with the trimmed name. */
  function TagToAdd(selected: seq<Selected>, db: seq<DbEntry>, name: string): (r: Option<Selected>)
    ensures r.None? <==> Trim(name) == "" || IsSelectedName(selected, Trim(name))
    ensures r.Some? ==> SameIgnoringCase(r.value.name, Trim(name))
    ensures r.Some? ==> (r.value.isNew <==> !InDb(db, Trim(name)))
    ensures r.Some? && r.value.isNew ==> r.value == Selected(None, Trim(name), true)
    ensures r.Some? && !r.value.isNew ==>
      exists i :: (&& 0 <= i < |db| && r.value == FromDb(db[i])
                   && SameIgnoringCase(db[i].name, Trim(name))
                   && forall k :: 0 <= k < i ==> !SameIgnoringCase(db[k].name, Trim(name)))
  {
    var trimmed := Trim(name);
    if trimmed == "" || IsSelectedName(selected, trimmed) then None
    else match FindByName(db, trimmed)
      case Some(e) => Some(FromDb(e))
      case None => Some(Selected(None, trimmed, true))
  }

  /** `newFoldersCount`: selected folders with no fetched row of the same
      name, ignoring case. */
  function NewFoldersCount(db: seq<DbEntry>, selected: seq<Selected>): nat {
    |Filter(selected, (f: Selected) => !InDb(db, f.name))|
  }

  /** `remainingFolderSlots`: what is left of the quota of 20 after the fetched
      folders and the new selected ones, never below zero. */
  function RemainingFolderSlots(db: seq<DbEntry>, selected: seq<Selected>): (r: nat)
    ensures r <= MaxFoldersAllowed
    ensures r == 0 <==> |db| + NewFoldersCount(db, selected) >= MaxFoldersAllowed
    ensures r > 0 ==> r == MaxFoldersAllowed - |db| - NewFoldersCount(db, selected)
  {
    var left := MaxFoldersAllowed - |db| - NewFoldersCount(db, selected);
    if left > 0 then left else 0
  }

  /** `canFolderBeAdded`: as for tags, except that a name with no fetched row
      is refused once no slot remains; a fetched folder is added whatever the
      quota says. */
  function FolderToAdd(selected: seq<Selected>, db: seq<DbEntry>, name: string): (r: Option<Selected>)
    ensures r.None? <==>
      || Trim(name) == "" || IsSelectedName(selected, Trim(name))
      || (!InDb(db, Trim(name)) && RemainingFolderSlots(db, selected) == 0)
    ensures r.Some? ==> SameIgnoringCase(r.value.name, Trim(name))
    ensures r.Some? ==> (r.value.isNew <==> !InDb(db, Trim(name)))
    ensures r.Some? && r.value.isNew ==> r.value == Selected(None, Trim(name), true)
    ensures r.Some? && !r.value.isNew ==>
      exists i :: (&& 0 <= i < |db| && r.value == FromDb(db[i])
                   && SameIgnoringCase(db[i].name, Trim(name))
                   && forall k :: 0 <= k < i ==> !SameIgnoringCase(db[k].name, Trim(name)))
  {
    var trimmed := Trim(name);
    if trimmed == "" || IsSelectedName(selected, trimmed) then None
    else match FindByName(db, trimmed)
      case Some(e) => Some(FromDb(e))
      case None =>
        if RemainingFolderSlots(db, selected) == 0 then None
        else Some(Selected(None, trimmed, true))
  }

  /** Adding a new folder uses up one slot; adding a fetched one uses none. */
  lemma FolderAddUsesSlot(selected: seq<Selected>, db: seq<DbEntry>, name: string)
    requires FolderToAdd(selected, db, name).Some?
    ensures var e := FolderToAdd(selected, db, name).value;
      && NewFoldersCount(db, selected + [e]) == NewFoldersCount(db, selected) + (if e.isNew then 1 else 0)
      && (e.isNew ==> RemainingFolderSlots(db, selected + [e]) == RemainingFolderSlots(db, selected) - 1)
      && (!e.isNew ==> RemainingFolderSlots(db, selected + [e]) == RemainingFolderSlots(db, selected))
  {
    var e := FolderToAdd(selected, db, name).value;
    var p := (f: Selected) => !InDb(db, f.name);
    FilterAppend(selected, [e], p);
    assert p(e) <==> e.isNew by {
      if !e.isNew {
        var i :| 0 <= i < |db| && e == FromDb(db[i]);
        assert SameIgnoringCase(db[i].name, e.name);
      } else {
        assert e.name == Trim(name);
      }
    }
  }

  /** No two selected entries have the same name, ignoring case. */
  predicate NoCaseDuplicates(selected: seq<Selected>) {
    Pairwise(selected, (a: Selected, b: Selected) => !SameIgnoringCase(a.name, b.name))
  }

  /** Which of the two inputs. */
  datatype Kind = Tags | Folders

  function EntryToAdd(kind: Kind, selected: seq<Selected>, db: seq<DbEntry>, name: string): Option<Selected> {
    match kind
    case Tags => TagToAdd(selected, db, name)
    case Folders => FolderToAdd(selected, db, name)
  }

  /** Whatever either input adds keeps the selection free of case-insensitive
      duplicates. */
  lemma EntryToAddKeepsNoCaseDuplicates(kind: Kind, selected: seq<Selected>, db: seq<DbEntry>, name: string)
    requires NoCaseDuplicates(selected) && EntryToAdd(kind, selected, db, name).Some?
    ensures NoCaseDuplicates(selected + [EntryToAdd(kind, selected, db, name).value])
  {
    var e := EntryToAdd(kind, selected, db, name).value;
    var s := selected + [e];
    forall i, j | 0 <= i < j < |s| ensures !SameIgnoringCase(s[i].name, s[j].name) {
      if j == |selected| {
        assert SameIgnoringCase(e.name, Trim(name));
        assert !SameIgnoringCase(selected[i].name, Trim(name));
      } else {
        assert s[i] == selected[i] && s[j] == selected[j];
      }
    }
  }

  /** ArrowDown: the next suggestion, wrapping to the first. */
  function NextIndex(index: int, n: nat): int {
    if index < n - 1 then index + 1 else 0
  }

  /** ArrowUp: the previous suggestion, wrapping to the last. */
  function PrevIndex(index: int, n: nat): int {
    if index > 0 then index - 1 else n - 1
  }

  /** From no highlight (-1) or any highlight up to `n`, both arrows land on a
      suggestion, and on a suggestion each arrow undoes the other. */
  lemma CursorCycles(index: int, n: nat)
    requires n > 0 && -1 <= index <= n
    ensures 0 <= NextIndex(index, n) < n && 0 <= PrevIndex(index, n) < n
    ensures 0 <= index < n ==> PrevIndex(NextIndex(index, n), n) == index
    ensures 0 <= index < n ==> NextIndex(PrevIndex(index, n), n) == index
  {
  }

  datatype Key = ArrowDown | ArrowUp | Enter | Backspace | OtherKey

  /** The state of an input: its text, the highlighted suggestion (-1 for
      none) and the selection in its store. */
  datatype InputState = InputState(inputValue: string, index: int, selected: seq<Selected>)

  /** Submitting `name`: on success the entry is appended and the text and
      highlight are cleared; on refusal nothing changes. */
  function TryAdd(kind: Kind, db: seq<DbEntry>, st: InputState, name: string): InputState {
    match EntryToAdd(kind, st.selected, db, name)
    case None => st
    case Some(e) => InputState("", -1, st.selected + [e])
  }

  /** `handleKeyDown`: arrows move the highlight while there are suggestions;
      Enter submits the highlighted suggestion, or else the typed text when it
      is not blank; Backspace on empty text removes the last selected entry. */
  function KeyDown(kind: Kind, db: seq<DbEntry>, st: InputState, key: Key): InputState {
    var suggestions := Suggestions(db, st.selected, st.inputValue);
    var n := |suggestions|;
    if n > 0 && key == ArrowDown then st.(index := NextIndex(st.index, n))
    else if n > 0 && key == ArrowUp then st.(index := PrevIndex(st.index, n))
    else if key == Enter then
      if 0 <= st.index < n then TryAdd(kind, db, st, suggestions[st.index].name)
      else if Trim(st.inputValue) != "" then TryAdd(kind, db, st, st.inputValue)
      else st
    else if key == Backspace && st.inputValue == "" && |st.selected| > 0 then
      st.(selected := Selection.Remove(st.selected, st.selected[|st.selected| - 1]))
    else st
  }

  /** The text change handler: new text, no highlight. */
  function OnChange(st: InputState, value: string): InputState {
    st.(inputValue := value, index := -1)
  }

  /** What one key press can do: move the highlight onto a suggestion, add one
      entry and clear the input, remove entries from the end of an empty input,
      or nothing. */
  lemma KeyDownOutcomes(kind: Kind, db: seq<DbEntry>, st: InputState, key: Key)
    requires -1 <= st.index <= |Suggestions(db, st.selected, st.inputValue)|
    ensures var st', n := KeyDown(kind, db, st, key), |Suggestions(db, st.selected, st.inputValue)|;
      || st' == st
      || (key in {ArrowDown, ArrowUp} && n > 0 && st' == st.(index := st'.index) && 0 <= st'.index < n)
      || (key == Enter && st'.inputValue == "" && st'.index == -1 &&
          |st'.selected| == |st.selected| + 1 && st'.selected[..|st.selected|] == st.selected)
      || (key == Backspace && st.inputValue == "" && st' == st.(selected := st'.selected) &&
          IsSubsequence(st'.selected, st.selected) && |st'.selected| < |st.selected|)
  {
    var n := |Suggestions(db, st.selected, st.inputValue)|;
    if n > 0 && key in {ArrowDown, ArrowUp} {
      CursorCycles(st.index, n);
    } else if key == Enter {
      KeyDownEnter(kind, db, st);
    } else if key == Backspace && st.inputValue == "" && |st.selected| > 0 {
      BackspaceShortens(st.selected);
    }
  }

  /** Enter with no suggestions to move through submits, or does nothing. */
  lemma KeyDownEnter(kind: Kind, db: seq<DbEntry>, st: InputState)
    ensures var st' := KeyDown(kind, db, st, Enter);
      || st' == st
      || (st'.inputValue == "" && st'.index == -1 &&
          |st'.selected| == |st.selected| + 1 && st'.selected[..|st.selected|] == st.selected)
  {
    var suggestions := Suggestions(db, st.selected, st.inputValue);
    if 0 <= st.index < |suggestions| {
      TryAddOutcome(kind, db, st, suggestions[st.index].name);
    } else if Trim(st.inputValue) != "" {
      TryAddOutcome(kind, db, st, st.inputValue);
    }
  }

  /** Removing the last entry leaves a strictly shorter in-order sublist. */
  lemma BackspaceShortens(selected: seq<Selected>)
    requires |selected| > 0
    ensures var r := Selection.Remove(selected, selected[|selected| - 1]);
      IsSubsequence(r, selected) && |r| < |selected|
  {
    var last := selected[|selected| - 1];
    var r := Selection.Remove(selected, last);
    assert last !in r;
    SubsequenceLength(r, selected);
    if |r| == |selected| {
      SubsequenceOfSameLength(r, selected);
    }
  }

  /** A submission either changes nothing or appends one entry and clears the
      text and the highlight. */
  lemma TryAddOutcome(kind: Kind, db: seq<DbEntry>, st: InputState, name: string)
    ensures var st' := TryAdd(kind, db, st, name);
      || st' == st
      || (st'.inputValue == "" && st'.index == -1 &&
          |st'.selected| == |st.selected| + 1 && st'.selected[..|st.selected|] == st.selected)
  {
    var added := EntryToAdd(kind, st.selected, db, name);
    if added.Some? {
      assert (st.selected + [added.value])[..|st.selected|] == st.selected;
    }
  }

  /** Every key keeps the selection free of case-insensitive duplicates. */
  lemma KeyDownKeepsNoCaseDuplicates(kind: Kind, db: seq<DbEntry>, st: InputState, key: Key)
    requires NoCaseDuplicates(st.selected)
    ensures NoCaseDuplicates(KeyDown(kind, db, st, key).selected)
  {
    var suggestions := Suggestions(db, st.selected, st.inputValue);
    var n := |suggestions|;
    if n > 0 && key in {ArrowDown, ArrowUp} {
    } else if key == Enter {
      var name := if 0 <= st.index < n then suggestions[st.index].name else st.inputValue;
      if EntryToAdd(kind, st.selected, db, name).Some? {
        EntryToAddKeepsNoCaseDuplicates(kind, st.selected, db, name);
      }
    } else if key == Backspace && st.inputValue == "" && |st.selected| > 0 {
      var r := Selection.Remove(st.selected, st.selected[|st.selected| - 1]);
      SubsequencePairwise(r, st.selected, (a: Selected, b: Selected) => !SameIgnoringCase(a.name, b.name));
    }
  }

  /** The folder input never lets the new folders outgrow the slots the
      fetched folders leave. */
  predicate WithinQuota(db: seq<DbEntry>, selected: seq<Selected>) {
    |db| + NewFoldersCount(db, selected) <= MaxFoldersAllowed || NewFoldersCount(db, selected) == 0
  }

  lemma KeyDownKeepsQuota(db: seq<DbEntry>, st: InputState, key: Key)
    requires WithinQuota(db, st.selected)
    ensures WithinQuota(db, KeyDown(Folders, db, st, key).selected)
  {
    var suggestions := Suggestions(db, st.selected, st.inputValue);
    var n := |suggestions|;
    if n > 0 && key in {ArrowDown, ArrowUp} {
    } else if key == Enter {
      var name := if 0 <= st.index < n then suggestions[st.index].name else st.inputValue;
      if FolderToAdd(st.selected, db, name).Some? {
        FolderAddUsesSlot(st.selected, db, name);
      }
    } else if key == Backspace && st.inputValue == "" && |st.selected| > 0 {
      var r := Selection.Remove(st.selected, st.selected[|st.selected| - 1]);
      SubsequenceFilterLength(r, st.selected, (f: Selected) => !InDb(db, f.name));
    }
  }
}
