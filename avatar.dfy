/** The initials shown in the header avatar when the user has no picture:
    the first letter of each space-separated word of the user's name, upper
    case. */
module Avatar {
  import opened Wrappers
  import opened Text

  /** `s.split(sep)`: the pieces between separators, empty pieces included;
      the empty string splits into one empty piece. */
  function Split(s: string, sep: char): (r: seq<string>)
    ensures |r| >= 1
    ensures forall i :: 0 <= i < |r| ==> sep !in r[i]
    decreases |s|
  {
    if s == [] then [""]
    else
      var rest := Split(s[1..], sep);
      if s[0] == sep then [""] + rest
      else [[s[0]] + rest[0]] + rest[1..]
  }

  /** `pieces.join(sep)` */
  function Join(pieces: seq<string>, sep: char): string
    decreases |pieces|
  {
    if pieces == [] then ""
    else if |pieces| == 1 then pieces[0]
    else pieces[0] + [sep] + Join(pieces[1..], sep)
  }

  /** Joining the pieces with the separator gives back the split string. */
  lemma {:induction false} SplitJoin(s: string, sep: char)
    ensures Join(Split(s, sep), sep) == s
    decreases |s|
  {
    if s != [] {
      var rest := Split(s[1..], sep);
      SplitJoin(s[1..], sep);
      if s[0] == sep {
        assert Split(s, sep)[1..] == rest;
      } else {
        var r := Split(s, sep);
        assert r[0] == [s[0]] + rest[0] && r[1..] == rest[1..];
        if |rest| == 1 {
          assert Join(rest, sep) == rest[0];
        } else {
          assert Join(rest, sep) == rest[0] + [sep] + Join(rest[1..], sep);
          assert Join(r, sep) == r[0] + [sep] + Join(r[1..], sep);
        }
        assert s == [s[0]] + s[1..];
      }
    }
  }

  /** `pieces.map(w => w[0]).join("")`: an empty piece gives `undefined`,
      which `join` writes as nothing. */
  function FirstLetters(pieces: seq<string>): string
    decreases |pieces|
  {
    if pieces == [] then ""
    else (if pieces[0] == "" then "" else [pieces[0][0]]) + FirstLetters(pieces[1..])
  }

  /** How many pieces are not empty. */
  function NonEmptyCount(pieces: seq<string>): nat
    decreases |pieces|
  {
    if pieces == [] then 0 else (if pieces[0] == "" then 0 else 1) + NonEmptyCount(pieces[1..])
  }

  /** The letters of `s` that start a word, a word start being a non-space
      letter at the beginning or right after a space; `atStart` says whether
      the letter before `s` (if any) was a space. */
  function WordStarts(s: string, atStart: bool): string
    decreases |s|
  {
    if s == [] then ""
    else (if s[0] != ' ' && atStart then [s[0]] else "") + WordStarts(s[1..], s[0] == ' ')
  }

  /** `initials`: absent when the name is. */
  function Initials(name: Option<string>): (r: Option<string>)
    ensures r.None? <==> name.None?
  {
    if name.None? then None else Some(Upper(FirstLetters(Split(name.value, ' '))))
  }

  lemma {:induction false} FirstLettersAreWordStarts(s: string)
    ensures FirstLetters(Split(s, ' ')) == WordStarts(s, true)
    ensures FirstLetters(Split(s, ' ')[1..]) == WordStarts(s, false)
    decreases |s|
  {
    if s != [] {
      FirstLettersAreWordStarts(s[1..]);
      var r := Split(s, ' ');
      var rest := Split(s[1..], ' ');
      if s[0] == ' ' {
        assert r[1..] == rest;
      } else {
        assert r[0] == [s[0]] + rest[0] && r[1..] == rest[1..];
      }
    }
  }

  lemma {:induction false} FirstLettersCount(pieces: seq<string>)
    ensures |FirstLetters(pieces)| == NonEmptyCount(pieces)
    decreases |pieces|
  {
    if pieces != [] {
      FirstLettersCount(pieces[1..]);
    }
  }

  /** The initials are the upper-cased word starts of the name, one for each
      non-empty piece: runs of spaces add nothing. */
  lemma InitialsMeaning(name: string)
    ensures Initials(Some(name)) == Some(Upper(WordStarts(name, true)))
    ensures |Initials(Some(name)).value| == NonEmptyCount(Split(name, ' '))
  {
    FirstLettersAreWordStarts(name);
    FirstLettersCount(Split(name, ' '));
  }
}
