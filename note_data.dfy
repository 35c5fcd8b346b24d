/** The in-memory note store of `src/lib/data.ts`: a module-level list of notes that
    `createNote`, `updateNote` and `deleteNote` change in place, and the two read-only
    queries `getNotes` (search, then newest first) and `getNote`. */
module NoteData {
  import opened Wrappers
  import opened Seqs
  import opened Text

  /** Milliseconds since the epoch: the value `new Date(iso).getTime()` gives for the
      ISO-8601 strings the source stores. */
  type Timestamp = int

  datatype Note = Note(
    id: string,
    title: string,
    content: string,
    tags: seq<string>,
    createdAt: Timestamp,
    updatedAt: Timestamp)

  /** What `createNote` is given: a note without its id and timestamps. */
  datatype NoteFields = NoteFields(title: string, content: string, tags: seq<string>)

  /** What `updateNote` is given: any subset of the editable fields. */
  datatype NotePatch = NotePatch(title: Option<string>, content: Option<string>, tags: Option<seq<string>>)

  const DayMillis: int := 24 * 60 * 60 * 1000

  // Contents of the sample notes the store starts with.
  const MeetingContent: string :=
    "Discussed Q3 goals and roadmap. Key takeaways: focus on user acquisition and improve onboarding flow. Action items assigned to John and Jane."
  const IdeasContent: string :=
    "New feature ideas for the app: dark mode, collaborative editing, and voice commands for navigation. Need to prioritize and create mockups."
  const GroceryContent: string :=
    "Milk, bread, eggs, cheese, apples, bananas, chicken breast."

  // ---------------------------------------------------------------------------
  // getNotes: the search predicate and the newest-first order

  /** The note's title, content or one of its tags contains the (already lower-cased) query,
      each compared after lower-casing. */
  predicate Matches(n: Note, lowerQuery: string) {
    || Includes(Lower(n.title), lowerQuery)
    || Includes(Lower(n.content), lowerQuery)
    || exists i :: 0 <= i < |n.tags| && Includes(Lower(n.tags[i]), lowerQuery)
  }

  /** `if (query)`: an absent query and the empty string both mean "no filter". */
  predicate HasQuery(query: Option<string>) {
    query.Some? && query.value != ""
  }

  /** The notes that survive the search, in store order. */
  function Selected(ns: seq<Note>, query: Option<string>): (r: seq<Note>) {
    if HasQuery(query) then Filter(ns, (n: Note) => Matches(n, Lower(query.value))) else ns
  }

  /** With a non-empty query a note is selected iff it matches the lower-cased query;
      without one every note is selected, in order and with its multiplicity. */
  lemma SelectedMember(ns: seq<Note>, query: Option<string>)
    ensures forall n :: n in Selected(ns, query) <==>
              n in ns && (HasQuery(query) ==> Matches(n, Lower(query.value)))
    ensures !HasQuery(query) ==> Selected(ns, query) == ns
  {
    if HasQuery(query) {
      var lq := Lower(query.value);
      forall n ensures n in Selected(ns, query) <==> n in ns && Matches(n, lq) {
        FilterMember(ns, (m: Note) => Matches(m, lq), n);
      }
    }
  }

  ghost predicate NewestFirst(s: seq<Note>) {
    forall i, j :: 0 <= i < j < |s| ==> s[i].updatedAt >= s[j].updatedAt
  }

  /** Places `x` before the first note that is not newer than it. */
  function Insert(x: Note, s: seq<Note>): (r: seq<Note>) {
    if s == [] then [x]
    else if s[0].updatedAt <= x.updatedAt then [x] + s
    else [s[0]] + Insert(x, s[1..])
  }

  /** The comparator sort `(a, b) => b.updatedAt - a.updatedAt`, written as an insertion sort. */
  function SortNewestFirst(s: seq<Note>): (r: seq<Note>) {
    if s == [] then [] else Insert(s[0], SortNewestFirst(s[1..]))
  }

  lemma {:induction false} InsertPermutes(x: Note, s: seq<Note>)
    ensures multiset(Insert(x, s)) == multiset(s) + multiset{x}
  {
    if s != [] && s[0].updatedAt > x.updatedAt {
      InsertPermutes(x, s[1..]);
      assert s == [s[0]] + s[1..];
    }
  }

  /** Inserting a note no newer than a bound into notes no newer than it keeps the bound. */
  lemma {:induction false} InsertBounded(x: Note, s: seq<Note>, bound: Timestamp)
    requires x.updatedAt <= bound
    requires forall k :: 0 <= k < |s| ==> s[k].updatedAt <= bound
    ensures |Insert(x, s)| == |s| + 1
    ensures forall k :: 0 <= k < |Insert(x, s)| ==> Insert(x, s)[k].updatedAt <= bound
  {
    if s != [] && s[0].updatedAt > x.updatedAt {
      InsertBounded(x, s[1..], bound);
    }
  }

  lemma {:induction false} InsertNewestFirst(x: Note, s: seq<Note>)
    requires NewestFirst(s)
    ensures NewestFirst(Insert(x, s))
  {
    if s == [] {
    } else if s[0].updatedAt <= x.updatedAt {
      var r := [x] + s;
      forall i, j | 0 <= i < j < |r| ensures r[i].updatedAt >= r[j].updatedAt {
        if i > 0 {
          assert r[i] == s[i - 1] && r[j] == s[j - 1];
        }
      }
    } else {
      var tail := s[1..];
      var rest := Insert(x, tail);
      InsertNewestFirst(x, tail);
      InsertBounded(x, tail, s[0].updatedAt);
      var r := [s[0]] + rest;
      forall i, j | 0 <= i < j < |r| ensures r[i].updatedAt >= r[j].updatedAt {
        if i > 0 {
          assert r[i] == rest[i - 1] && r[j] == rest[j - 1];
        } else {
          assert r[j] == rest[j - 1];
        }
      }
      assert Insert(x, s) == r;
    }
  }

  /** The sort returns a rearrangement of its input, newest first. */
  lemma {:induction false} SortNewestFirstCorrect(s: seq<Note>)
    ensures multiset(SortNewestFirst(s)) == multiset(s)
    ensures NewestFirst(SortNewestFirst(s))
    ensures forall n :: n in SortNewestFirst(s) <==> n in s
  {
    if s != [] {
      SortNewestFirstCorrect(s[1..]);
      InsertPermutes(s[0], SortNewestFirst(s[1..]));
      InsertNewestFirst(s[0], SortNewestFirst(s[1..]));
      assert s == [s[0]] + s[1..];
    }
    forall n ensures n in SortNewestFirst(s) <==> n in s {
      assert n in SortNewestFirst(s) <==> n in multiset(SortNewestFirst(s));
      assert n in s <==> n in multiset(s);
    }
  }

  /** Ties keep their order, so a list that is already newest first comes back unchanged. */
  lemma {:induction false} SortKeepsOrdered(s: seq<Note>)
    requires NewestFirst(s)
    ensures SortNewestFirst(s) == s
  {
    if s != [] {
      SortKeepsOrdered(s[1..]);
      assert s == [s[0]] + s[1..];
    }
  }

  // ---------------------------------------------------------------------------
  // getNote, updateNote, deleteNote: looking notes up by id

  /** `notes.findIndex(n => n.id === id)`: the first index with that id, or -1. */
  function FindIndex(ns: seq<Note>, id: string): (k: int)
    ensures -1 <= k < |ns|
    ensures k == -1 <==> forall i :: 0 <= i < |ns| ==> ns[i].id != id
    ensures 0 <= k ==> ns[k].id == id && forall j :: 0 <= j < k ==> ns[j].id != id
  {
    if ns == [] then -1
    else if ns[0].id == id then 0
    else
      var k := FindIndex(ns[1..], id);
      if k == -1 then -1 else k + 1
  }

  /** `{ ...note, ...data, updatedAt: now }`: supplied fields override, the id and the
      creation time stay, the modification time becomes `now`. */
  function ApplyPatch(n: Note, patch: NotePatch, now: Timestamp): (r: Note)
    ensures r.id == n.id && r.createdAt == n.createdAt && r.updatedAt == now
    ensures r.title == (if patch.title.Some? then patch.title.value else n.title)
    ensures r.content == (if patch.content.Some? then patch.content.value else n.content)
    ensures r.tags == (if patch.tags.Some? then patch.tags.value else n.tags)
  {
    n.(title := patch.title.GetOr(n.title),
       content := patch.content.GetOr(n.content),
       tags := patch.tags.GetOr(n.tags),
       updatedAt := now)
  }

  /** `notes.filter(n => n.id !== id)`. */
  function WithoutId(ns: seq<Note>, id: string): (r: seq<Note>) {
    Filter(ns, (n: Note) => n.id != id)
  }

  /** Deletion removes every note with the id, keeps every other note with its multiplicity
      and in its order, and shortens the list exactly when some note had the id. */
  lemma WithoutIdCorrect(ns: seq<Note>, id: string)
    ensures forall n :: n in WithoutId(ns, id) ==> n.id != id
    ensures forall n: Note :: n.id != id ==> multiset(WithoutId(ns, id))[n] == multiset(ns)[n]
    ensures IsSubsequence(WithoutId(ns, id), ns)
    ensures |WithoutId(ns, id)| < |ns| <==> exists i :: 0 <= i < |ns| && ns[i].id == id
  {
    var p := (n: Note) => n.id != id;
    FilterCorrect(ns, p);
    FilterShortens(ns, p);
  }

  /** No two notes share an id. `uuidv4` makes this hold in practice; the store never checks it. */
  predicate UniqueIds(ns: seq<Note>) {
    forall i, j :: 0 <= i < j < |ns| ==> ns[i].id != ns[j].id
  }

  lemma UniqueIdsWithoutId(ns: seq<Note>, id: string)
    requires UniqueIds(ns)
    ensures UniqueIds(WithoutId(ns, id))
  {
    var r := WithoutId(ns, id);
    WithoutIdCorrect(ns, id);
    forall i, j | 0 <= i < j < |r| ensures r[i].id != r[j].id {
      SubsequenceUniqueIds(r, ns, i, j);
    }
  }

  lemma {:induction false} SubsequenceUniqueIds(a: seq<Note>, b: seq<Note>, i: int, j: int)
    requires IsSubsequence(a, b) && UniqueIds(b)
    requires 0 <= i < j < |a|
    ensures a[i].id != a[j].id
    decreases |b|
  {
    if IsSubsequence(a, b[1..]) {
      SubsequenceUniqueIds(a, b[1..], i, j);
    } else if i == 0 {
      SubsequenceMember(a[1..], b[1..], j - 1);
      var k :| 0 <= k < |b[1..]| && b[1..][k] == a[j];
      assert b[k + 1] == a[j] && a[0] == b[0];
    } else {
      SubsequenceUniqueIds(a[1..], b[1..], i - 1, j - 1);
    }
  }

  lemma {:induction false} SubsequenceMember(a: seq<Note>, b: seq<Note>, i: int)
    requires IsSubsequence(a, b) && 0 <= i < |a|
    ensures exists k :: 0 <= k < |b| && b[k] == a[i]
    decreases |b|
  {
    if IsSubsequence(a, b[1..]) {
      SubsequenceMember(a, b[1..], i);
      var k :| 0 <= k < |b[1..]| && b[1..][k] == a[i];
      assert b[k + 1] == a[i];
    } else if i == 0 {
      assert b[0] == a[0];
    } else {
      SubsequenceMember(a[1..], b[1..], i - 1);
      var k :| 0 <= k < |b[1..]| && b[1..][k] == a[1..][i - 1];
      assert b[k + 1] == a[i];
    }
  }

  // ---------------------------------------------------------------------------
  // The store

  class NoteStore {
    /** The module-level `notes` array, front first. */
    var notes: seq<Note>

    /** The three sample notes the module starts with, dated two days ago, one day ago
        and now. */
    constructor (now: Timestamp)
      ensures notes == [
        Note("1", "Meeting Notes", MeetingContent, ["meeting", "q3", "roadmap"],
             now - 2 * DayMillis, now - 2 * DayMillis),
        Note("2", "Brainstorming Ideas", IdeasContent, ["ideas", "features", "brainstorming"],
             now - DayMillis, now - DayMillis),
        Note("3", "Grocery List", GroceryContent, ["personal", "shopping"], now, now)]
      ensures UniqueIds(notes)
    {
      var meeting := Note("1", "Meeting Notes", MeetingContent,
          ["meeting", "q3", "roadmap"], now - 2 * DayMillis, now - 2 * DayMillis);
      var ideas := Note("2", "Brainstorming Ideas", IdeasContent,
          ["ideas", "features", "brainstorming"], now - DayMillis, now - DayMillis);
      var groceries := Note("3", "Grocery List", GroceryContent,
          ["personal", "shopping"], now, now);
      assert meeting.id[0] != ideas.id[0] && meeting.id[0] != groceries.id[0] && ideas.id[0] != groceries.id[0];
      notes := [meeting, ideas, groceries];
    }

    /** `getNotes(query)`: the notes matching a non-empty query (all notes otherwise),
        newest first. It sorts a copy, so the store is not changed. */
    function GetNotes(query: Option<string>): (r: seq<Note>)
      reads this
      ensures multiset(r) == multiset(Selected(notes, query))
      ensures NewestFirst(r)
      ensures forall n :: n in r <==> n in notes && (HasQuery(query) ==> Matches(n, Lower(query.value)))
      ensures !HasQuery(query) ==> multiset(r) == multiset(notes)
    {
      var sel := Selected(notes, query);
      SortNewestFirstCorrect(sel);
      SelectedMember(notes, query);
      SortNewestFirst(sel)
    }

    /** `getNote(id)`: a copy of the first note with that id, or null. */
    function GetNote(id: string): (r: Option<Note>)
      reads this
      ensures r.None? <==> forall i :: 0 <= i < |notes| ==> notes[i].id != id
      ensures r.Some? ==> r.value.id == id
      ensures r.Some? ==>
                exists k :: 0 <= k < |notes| && notes[k] == r.value && (forall j :: 0 <= j < k ==> notes[j].id != id)
    {
      var k := FindIndex(notes, id);
      if k == -1 then None else Some(notes[k])
    }

    /** `createNote(data)`: the new note, with a fresh id and both timestamps `now`, goes to
        the front; the other notes move back one place unchanged. */
    method CreateNote(data: NoteFields, freshId: string, now: Timestamp) returns (n: Note)
      modifies this
      ensures n == Note(freshId, data.title, data.content, data.tags, now, now)
      ensures notes == [n] + old(notes)
      ensures |notes| == |old(notes)| + 1
      ensures forall i :: 0 <= i < |old(notes)| ==> notes[i + 1] == old(notes)[i]
      ensures old(UniqueIds(notes)) && (forall m :: m in old(notes) ==> m.id != freshId) ==> UniqueIds(notes)
    {
      n := Note(freshId, data.title, data.content, data.tags, now, now);
      ghost var before := notes;
      notes := [n] + notes;
      if UniqueIds(before) && forall m :: m in before ==> m.id != freshId {
        forall i, j | 0 <= i < j < |notes| ensures notes[i].id != notes[j].id {
          assert notes[j] == before[j - 1];
          if i > 0 {
            assert notes[i] == before[i - 1];
          }
        }
      }
    }

    /** `updateNote(id, data)`: null and no change for an unknown id; otherwise the first note
        with the id is replaced by the patched note, which is returned. */
    method UpdateNote(id: string, patch: NotePatch, now: Timestamp) returns (r: Option<Note>)
      modifies this
      ensures var k := FindIndex(old(notes), id);
        if k == -1 then r.None? && notes == old(notes)
        else r == Some(ApplyPatch(old(notes)[k], patch, now)) && notes == old(notes)[k := r.value]
      ensures |notes| == |old(notes)|
      ensures old(UniqueIds(notes)) ==> UniqueIds(notes)
    {
      var k := FindIndex(notes, id);
      if k == -1 {
        return None;
      }
      var updated := ApplyPatch(notes[k], patch, now);
      notes := notes[k := updated];
      r := Some(updated);
    }

    /** `deleteNote(id)`: drops every note with the id; reports whether the list got shorter. */
    method DeleteNote(id: string) returns (deleted: bool)
      modifies this
      ensures notes == WithoutId(old(notes), id)
      ensures deleted <==> exists i :: 0 <= i < |old(notes)| && old(notes)[i].id == id
      ensures old(UniqueIds(notes)) ==> UniqueIds(notes)
    {
      var initialLength := |notes|;
      WithoutIdCorrect(notes, id);
      if UniqueIds(notes) {
        UniqueIdsWithoutId(notes, id);
      }
      notes := WithoutId(notes, id);
      deleted := |notes| < initialLength;
    }
  }
}
