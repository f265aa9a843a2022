/** The folder input of the bookmark form: its text, the highlighted suggestion,
    the folders fetched from the server, and the folder store it edits. */
module FoldersInput {
  import opened Wrappers
  import opened Text
  import opened Selection
  import opened Autocomplete
  import opened FoldersStore

  class FoldersInput {
    var inputValue: string
    var selectedSuggestionIndex: int
    const dbFolders: seq<DbEntry>
    const store: FolderStore

    /** The input as the keyboard transition sees it. */
    function State(): InputState
      reads this, store
    {
      InputState(inputValue, selectedSuggestionIndex, store.selectedFolders)
    }

    constructor (store: FolderStore, dbFolders: seq<DbEntry>)
      ensures this.store == store && this.dbFolders == dbFolders
      ensures inputValue == "" && selectedSuggestionIndex == -1
    {
      this.store := store;
      this.dbFolders := dbFolders;
      inputValue := "";
      selectedSuggestionIndex := -1;
    }

    /** `canFolderBeAdded`: adds what `FolderToAdd` decides to the store, the
        20-folder quota included, and says whether it added anything. */
    method CanBeAdded(name: string) returns (added: bool)
      modifies store
      ensures var e := FolderToAdd(old(store.selectedFolders), dbFolders, name);
        && added == e.Some?
        && store.selectedFolders == (if e.Some? then old(store.selectedFolders) + [e.value] else old(store.selectedFolders))
    {
      var trimmed := Trim(name);
      if trimmed == "" {
        return false;
      }
      if IsSelectedName(store.selectedFolders, trimmed) {
        return false;
      }
      var existing := FindByName(dbFolders, trimmed);
      if existing.Some? {
        store.Add(FromDb(existing.value));
        return true;
      }
      if RemainingFolderSlots(dbFolders, store.selectedFolders) == 0 {
        return false;
      }
      store.Add(Selected(None, trimmed, true));
      return true;
    }

    /** `handleKeyDown` */
    method HandleKeyDown(key: Key)
      modifies this, store
      ensures State() == KeyDown(Folders, dbFolders, old(State()), key)
    {
      var suggestions := Suggestions(dbFolders, store.selectedFolders, inputValue);
      var n := |suggestions|;
      if n > 0 {
        if key == ArrowDown {
          selectedSuggestionIndex := NextIndex(selectedSuggestionIndex, n);
          return;
        }
        if key == ArrowUp {
          selectedSuggestionIndex := PrevIndex(selectedSuggestionIndex, n);
          return;
        }
      }
      if key == Enter {
        if 0 <= selectedSuggestionIndex < n {
          var added := CanBeAdded(suggestions[selectedSuggestionIndex].name);
          if added {
            inputValue := "";
            selectedSuggestionIndex := -1;
          }
        } else if Trim(inputValue) != "" {
          var added := CanBeAdded(inputValue);
          if added {
            inputValue := "";
            selectedSuggestionIndex := -1;
          }
        }
      } else if key == Backspace && inputValue == "" && |store.selectedFolders| > 0 {
        store.Remove(store.selectedFolders[|store.selectedFolders| - 1]);
      }
    }

    /** Typing: new text, no highlighted suggestion. */
    method OnChange(value: string)
      modifies this
      ensures State() == Autocomplete.OnChange(old(State()), value)
    {
      inputValue := value;
      selectedSuggestionIndex := -1;
    }

    /** A click on the `i`-th suggestion submits its name. */
    method ClickSuggestion(i: nat)
      requires i < |Suggestions(dbFolders, store.selectedFolders, inputValue)|
      modifies this, store
      ensures State() == TryAdd(Folders, dbFolders, old(State()), old(Suggestions(dbFolders, store.selectedFolders, inputValue))[i].name)
    {
      var suggestion := Suggestions(dbFolders, store.selectedFolders, inputValue)[i];
      var added := CanBeAdded(suggestion.name);
      if added {
        inputValue := "";
        selectedSuggestionIndex := -1;
      }
    }
  }
}
