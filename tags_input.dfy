/** The tag input of the bookmark form: its text, the highlighted suggestion,
    the tags fetched from the server, and the tag store it edits. */
module TagsInput {
  import opened Wrappers
  import opened Text
  import opened Selection
  import opened Autocomplete
  import opened TagsStore

  class TagsInput {
    var inputValue: string
    var selectedSuggestionIndex: int
    const dbTags: seq<DbEntry>
    const store: TagStore

    /** The input as the keyboard transition sees it. */
    function State(): InputState
      reads this, store
    {
      InputState(inputValue, selectedSuggestionIndex, store.selectedTags)
    }

    constructor (store: TagStore, dbTags: seq<DbEntry>)
      ensures this.store == store && this.dbTags == dbTags
      ensures inputValue == "" && selectedSuggestionIndex == -1
    {
      this.store := store;
      this.dbTags := dbTags;
      inputValue := "";
      selectedSuggestionIndex := -1;
    }

    /** `canTagBeAdded`: adds what `TagToAdd` decides to the store and says
        whether it added anything. */
    method CanBeAdded(name: string) returns (added: bool)
      modifies store
      ensures var e := TagToAdd(old(store.selectedTags), dbTags, name);
        && added == e.Some?
        && store.selectedTags == (if e.Some? then old(store.selectedTags) + [e.value] else old(store.selectedTags))
    {
      var trimmed := Trim(name);
      if trimmed == "" {
        return false;
      }
      if IsSelectedName(store.selectedTags, trimmed) {
        return false;
      }
      var existing := FindByName(dbTags, trimmed);
      if existing.Some? {
        store.Add(FromDb(existing.value));
        return true;
      }
      store.Add(Selected(None, trimmed, true));
      return true;
    }

    /** `handleKeyDown` */
    method HandleKeyDown(key: Key)
      modifies this, store
      ensures State() == KeyDown(Tags, dbTags, old(State()), key)
    {
      var suggestions := Suggestions(dbTags, store.selectedTags, inputValue);
      var n := |suggestions|;
      if n > 0 {
        if key == ArrowDown {
          selectedSuggestionIndex := NextIndex(selectedSuggestionIndex, n);
          return;
        }
        if key == ArrowUp {
          selectedSuggestionIndex := PrevIndex(selectedSuggestionIndex, n);
          return;
        }
      }
      if key == Enter {
        if 0 <= selectedSuggestionIndex < n {
          var added := CanBeAdded(suggestions[selectedSuggestionIndex].name);
          if added {
            inputValue := "";
            selectedSuggestionIndex := -1;
          }
        } else if Trim(inputValue) != "" {
          var added := CanBeAdded(inputValue);
          if added {
            inputValue := "";
            selectedSuggestionIndex := -1;
          }
        }
      } else if key == Backspace && inputValue == "" && |store.selectedTags| > 0 {
        store.Remove(store.selectedTags[|store.selectedTags| - 1]);
      }
    }

    /** Typing: new text, no highlighted suggestion. */
    method OnChange(value: string)
      modifies this
      ensures State() == Autocomplete.OnChange(old(State()), value)
    {
      inputValue := value;
      selectedSuggestionIndex := -1;
    }

    /** A click on the `i`-th suggestion submits its name. */
    method ClickSuggestion(i: nat)
      requires i < |Suggestions(dbTags, store.selectedTags, inputValue)|
      modifies this, store
      ensures State() == TryAdd(Tags, dbTags, old(State()), old(Suggestions(dbTags, store.selectedTags, inputValue))[i].name)
    {
      var suggestion := Suggestions(dbTags, store.selectedTags, inputValue)[i];
      var added := CanBeAdded(suggestion.name);
      if added {
        inputValue := "";
        selectedSuggestionIndex := -1;
      }
    }
  }
}
