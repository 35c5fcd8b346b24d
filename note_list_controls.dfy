/** The search box of `src/components/note-list-controls.tsx`: a client-side filter over the
    notes `getNotes()` handed to it, on title and content only. */
module NoteListControls {
  import opened Wrappers
  import opened Seqs
  import opened Text
  import opened NoteData

  /** The note's lower-cased title or content contains the lower-cased search string. */
  predicate MatchesSearch(n: Note, search: string) {
    Includes(Lower(n.title), Lower(search)) || Includes(Lower(n.content), Lower(search))
  }

  /** `filteredNotes`. */
  function FilteredNotes(notes: seq<Note>, search: string): (r: seq<Note>) {
    Filter(notes, (n: Note) => MatchesSearch(n, search))
  }

  /** The filtered list keeps exactly the matching notes, each as often as before, in the
      original order. */
  lemma FilteredNotesCorrect(notes: seq<Note>, search: string)
    ensures forall n :: n in FilteredNotes(notes, search) <==> n in notes && MatchesSearch(n, search)
    ensures forall n :: multiset(FilteredNotes(notes, search))[n] ==
              if MatchesSearch(n, search) then multiset(notes)[n] else 0
    ensures IsSubsequence(FilteredNotes(notes, search), notes)
  {
    FilterCorrect(notes, (n: Note) => MatchesSearch(n, search));
  }

  /** The initial, empty search shows every note. */
  lemma EmptySearchKeepsAll(notes: seq<Note>)
    ensures FilteredNotes(notes, "") == notes
  {
    forall i | 0 <= i < |notes| ensures MatchesSearch(notes[i], "") {
      IncludesEmpty(Lower(notes[i].title));
    }
    FilterKeepsAll(notes, (n: Note) => MatchesSearch(n, ""));
  }

  /** A note that matches the search only through a tag is hidden here, although the store's
      query would return it. */
  lemma TagsAreNotSearched(n: Note, search: string, i: int)
    requires !Includes(Lower(n.title), Lower(search)) && !Includes(Lower(n.content), Lower(search))
    requires 0 <= i < |n.tags| && Includes(Lower(n.tags[i]), Lower(search))
    ensures FilteredNotes([n], search) == []
    ensures Selected([n], Some(search)) == [n]
  {
    IncludesEmpty(Lower(n.title));
    assert search != "";
    SelectedMember([n], Some(search));
    assert Matches(n, Lower(search));
    assert [n][1..] == [];
  }

  /** Filtering the newest-first list `getNotes()` returns keeps it newest first. */
  lemma {:induction false} FilteredStaysNewestFirst(notes: seq<Note>, search: string)
    requires NewestFirst(notes)
    ensures NewestFirst(FilteredNotes(notes, search))
  {
    if notes != [] {
      var p := (n: Note) => MatchesSearch(n, search);
      var rest := FilteredNotes(notes[1..], search);
      FilteredStaysNewestFirst(notes[1..], search);
      forall k | 0 <= k < |rest| ensures notes[0].updatedAt >= rest[k].updatedAt {
        FilterMember(notes[1..], p, rest[k]);
        var m :| 0 <= m < |notes[1..]| && notes[1..][m] == rest[k];
        assert notes[m + 1] == rest[k];
      }
      assert FilteredNotes(notes, search) == (if p(notes[0]) then [notes[0]] else []) + rest;
    }
  }
}
