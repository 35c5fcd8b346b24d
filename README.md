# VoiceNotes core, modelled in Dafny

VoiceNotes is a note-taking web application. Users create, edit, search, tag and delete short
notes. They can dictate content through the browser's speech recognition and ask a hosted
language model for tags. This project models the parts of it that hold logic:

- **The note store** (`src/lib/data.ts`) is a module-level list of notes. The model is the class
  `NoteData.NoteStore` with a `seq<Note>` field. `CreateNote`, `UpdateNote` and `DeleteNote`
  change that field. `GetNotes` (search, then newest first) and `GetNote` are functions that
  read it. Timestamps are integers: the milliseconds `Date.getTime()` gives for the ISO strings
  the source stores.
- **The dictation button** (`src/components/recorder.tsx`) is the class `Dictation.Recorder`.
  Its fields are the `isRecording` state, the recognition ref, the final-transcript ref, and
  logs of the texts emitted to `onTranscriptChange` and of the alerts shown. `Toggle` creates
  and starts a `Dictation.Recognition` object. `OnResult`, `OnError` and `OnEnd` are the
  handlers it installs. The `for` loop of `onresult` is the method `ProcessResults`, proved
  against `FinalText` and `InterimText`.
- **The note editor** (`src/components/note-editor.tsx`) is the class `NoteEditor.Editor` with
  the form fields, the `isGeneratingTags` flag, a toast log and a log of generation requests.
  Its tag merge (`Array.from(new Set(..))`) and tag removal are the functions `MergeTags` and
  `WithoutTag`.
- **The list search** (`src/components/note-list-controls.tsx`) is the function
  `NoteListControls.FilteredNotes`.
- **The server actions** (`src/lib/actions.ts`) are `Actions.SaveNote` and `Actions.RemoveNote`.
  They run over a `NoteStore`, validate with `Actions.Validate`, and return a `Response`: a
  form-state reply or a redirect.

`Seqs` holds the generic filter, de-duplication and subsequence facts. `Text` holds ASCII
lower-casing and `includes`. `Wrappers` holds `Option` and `Result`.

The inputs the source takes from the environment are parameters:
- `uuidv4()` is `freshId`;
- the clock is `now`;
- browser support for speech recognition is `supported`;
- the tag generator's answer is a `Generation` value;
- the speech provider's events are the arguments of the handlers.

`Dictation.DictationScenario` drives a recorder through one session. The note starts as
"Hello ". The provider sends an interim "wor", then a final "world", then an interim "next".
Its verified assertions establish that the emitted texts are "Hello wor", "Hello world " and
"Hello world next", and that a re-render with the unchanged "Hello " keeps "Hello world ".

The dictation component has no separate stopping state. The code behaves as follows:
- `toggleRecording` while recording only calls `stop()`; `isRecording` stays true until `onend`;
- `onend` is the only handler that clears `isRecording`;
- `onerror` only logs, so an error changes no state;
- there is no cleanup on unmount;
- every handler writes the same refs, whichever recognition delivered the event;
- each final result is appended with a trailing space, so "Hello " followed by the final result
  "world" gives "Hello world ".

## Model

| member | source | states |
|---|---|---|
| `Text.IncludesIff` | src/lib/data.ts:42-44 | `includes` holds exactly when the needle occurs at some position of the haystack (so the empty needle is always included) |
| `Text.Lower` | src/lib/data.ts:39 | lower-casing keeps the length and maps each character through the ASCII case mapping |
| `NoteData.SelectedMember` | src/lib/data.ts:37-46 | with a non-empty query, a note is selected iff its lower-cased title, content or some tag contains the lower-cased query; with no query or `''`, the selection is the whole store |
| `NoteData.SortNewestFirstCorrect` | src/lib/data.ts:47 | the sort returns a permutation of its input, ordered by `updatedAt` non-increasing |
| `NoteData.SortKeepsOrdered` | src/lib/data.ts:47 | the sort is stable on ties: a list already newest first comes back unchanged |
| `NoteData.NoteStore.GetNotes` | src/lib/data.ts:35-48 | the result is a permutation of the selected notes, newest first; a note is in it iff it is stored and matches the non-empty query; without a query it holds every stored note; the store is only read |
| `NoteData.FindIndex` | src/lib/data.ts:71-74 | `findIndex` returns the first index whose id matches, or -1 exactly when no note has the id |
| `NoteData.NoteStore.GetNote` | src/lib/data.ts:50-54 | `None` exactly when no note has the id; otherwise the note at the first index with that id |
| `NoteData.NoteStore.constructor` | src/lib/data.ts:5-30 | the store starts with exactly the three sample notes: "Meeting Notes", "Brainstorming Ideas" and "Grocery List" with ids "1", "2", "3", their contents and tags, dated two days ago, one day ago and now; the ids are distinct |
| `NoteData.NoteStore.CreateNote` | src/lib/data.ts:56-67 | the new note has the fresh id, the given fields and `createdAt == updatedAt == now`; it is put at index 0; the store grows by one; the old notes move back one place unchanged; unique ids are kept when the id is fresh |
| `NoteData.ApplyPatch` | src/lib/data.ts:75-79 | the patched note keeps `id` and `createdAt`, takes each supplied field, keeps each absent one, and gets `updatedAt == now` |
| `NoteData.NoteStore.UpdateNote` | src/lib/data.ts:69-82 | an unknown id returns `None` and leaves the store unchanged; otherwise only the first index with the id is replaced, by the patched note, which is returned; the length is kept; unique ids are kept |
| `NoteData.WithoutIdCorrect` | src/lib/data.ts:86-88 | deleting removes every note with the id, keeps every other note with its multiplicity and order, and shortens the list iff some note had the id |
| `NoteData.UniqueIdsWithoutId` | src/lib/data.ts:87 | deleting keeps the ids of the remaining notes distinct |
| `NoteData.NoteStore.DeleteNote` | src/lib/data.ts:84-89 | the store becomes the notes without the id; the result is true iff some note had the id; unique ids are kept |
| `Dictation.EarlierResultsIgnored` | src/components/recorder.tsx:61 | the loop starts at `resultIndex`: two result lists that agree from that index on give the same final and interim texts, whatever precedes it |
| `Dictation.ResultIndexSplits` | src/components/recorder.tsx:61 | for an index inside the list, the text of all results is the text of those before `resultIndex` followed by the text of the new ones, so each result is counted once across events |
| `Dictation.ProcessResults` | src/components/recorder.tsx:60-67 | the loop's final transcript is the old one followed by `FinalText` of the new results; its interim transcript is `InterimText` of the new results |
| `Dictation.TextsSplitByFinality` | src/components/recorder.tsx:61-66 | the appended final text is each final result's transcript followed by a space, in order; the interim text is the other results' transcripts concatenated in order |
| `Dictation.FinalTextAppend` | src/components/recorder.tsx:61-64 | processing results in two chunks appends the same final text as processing them at once |
| `Dictation.InterimTextAppend` | src/components/recorder.tsx:61-66 | the interim text of two chunks is the concatenation of their interim texts |
| `Dictation.UniformResults` | src/components/recorder.tsx:60-68 | when all new results are final no interim text is emitted; when none is final the final transcript does not change |
| `Dictation.ScenarioInterim` | src/components/recorder.tsx:59-69 | over the final transcript "Hello ", an interim "wor" leaves the final transcript as it was and emits "Hello wor" |
| `Dictation.ScenarioFinal` | src/components/recorder.tsx:59-69 | the same result delivered as final "world" makes the final transcript "Hello world " (trailing space) and leaves no interim text |
| `Dictation.ScenarioResumed` | src/components/recorder.tsx:59-69 | an event with `resultIndex` 1 over ["world" final, "next" interim] appends nothing to "Hello world " and emits "Hello world next" |
| `Dictation.Recorder.constructor` | src/components/recorder.tsx:35-42 | a recorder starts not recording, with no recognition, and with the final transcript and the effect's last dependency value equal to `initialTranscript` |
| `Dictation.Recorder.SetInitialTranscript` | src/components/recorder.tsx:40-42 | a re-render re-seeds the final transcript with `initialTranscript` only when it differs from the value the effect last ran with; an unchanged prop keeps the dictated final transcript; nothing else changes |
| `Dictation.Recorder.Toggle` | src/components/recorder.tsx:44-83 | while recording, only `stop()` is called on the current recognition (its settings and start count are kept) and `isRecording` stays true; when not recording and unsupported, one alert is added and nothing else changes; when supported, a fresh recognition with continuous, interim results and `en-US` is stored and started once, and `isRecording` becomes true |
| `Dictation.Recorder.OnResult` | src/components/recorder.tsx:59-69 | the final transcript grows by the new final text (the old one stays a prefix); the emitted text is the new final transcript followed by the new interim text; nothing else changes |
| `Dictation.Recorder.OnError` | src/components/recorder.tsx:71-73 | an error event changes no state |
| `Dictation.Recorder.OnEnd` | src/components/recorder.tsx:75-77 | the end event sets `isRecording` to false and changes nothing else |
| `NoteEditor.MergeTagsCorrect` | src/components/note-editor.tsx:81 | the merged tags have no duplicates, are exactly the union of current and generated tags, follow first-occurrence order in current-then-generated, and keep distinct current tags as their prefix |
| `NoteEditor.WithoutTagCorrect` | src/components/note-editor.tsx:96-101 | removing a tag drops every copy of it and keeps the other tags with their multiplicity, in order |
| `NoteEditor.Editor.constructor` | src/components/note-editor.tsx:49-56 | the form starts from the note's title, content and tags, or from empty ones for a new note |
| `NoteEditor.Editor.HandleTranscriptChange` | src/components/note-editor.tsx:63-65 | the content becomes exactly the transcript; nothing else changes |
| `NoteEditor.Editor.RemoveTag` | src/components/note-editor.tsx:96-102 | the tags become the old tags without the removed one; nothing else changes |
| `NoteEditor.Editor.GenerateTags` | src/components/note-editor.tsx:67-94 | empty content adds the "Cannot generate tags" toast, sends no request and leaves tags and flag alone; otherwise the content is sent once, returned tags are merged into the current ones, a thrown call adds the error toast and keeps the tags, and the flag ends false either way |
| `NoteListControls.FilteredNotesCorrect` | src/components/note-list-controls.tsx:17-21 | a note is kept iff its lower-cased title or content contains the lower-cased search; kept notes keep their multiplicity and order (a subsequence) |
| `NoteListControls.EmptySearchKeepsAll` | src/components/note-list-controls.tsx:14-21 | the initial empty search keeps every note |
| `NoteListControls.TagsAreNotSearched` | src/components/note-list-controls.tsx:17-21 | a note that matches only through a tag is hidden by this filter but returned by the store's query |
| `NoteListControls.FilteredStaysNewestFirst` | src/components/note-list.tsx:5-6 | filtering the newest-first list that `getNotes()` hands over keeps it newest first |
| `Actions.Validate` | src/lib/actions.ts:25-37 | validation succeeds iff the title is present and non-empty and the content is present; a failure reports exactly those fields; success carries the fields and the id only when it is non-empty |
| `Actions.SaveNote` | src/lib/actions.ts:23-62 | invalid input answers 'Validation failed.' with the field errors and leaves the store alone; no id creates a note at the front and redirects to it; an unknown id answers 'Failed to update note. Note not found.' and leaves the store alone; a known id replaces the first note with it by that note with the submitted title, content and tags, the same id and `createdAt`, and `updatedAt == now`, and redirects to `/notes/` followed by the id |
| `Actions.RemoveNote` | src/lib/actions.ts:64-76 | a missing or empty id answers 'Note ID is required.' and deletes nothing; otherwise every note with the id is deleted and the response redirects to `/notes` |

## Left out

- `delay`/`setTimeout` and `await`: every store operation and handler runs as one atomic step, so interleavings of concurrent requests or events are not modelled.
- `uuidv4`, `Date` and ISO-8601 formatting, `formatDistanceToNow`: the id and the clock are parameters, and timestamps are integers.
- Unicode `toLowerCase`: only ASCII letters are lower-cased.
- `NoteData.NoteStore.GetNotes`: states the permutation and the newest-first order, and (through `SortKeepsOrdered`) that an ordered selection is returned as is, but not the full tie order of the stable `Array.prototype.sort` on unordered input.
- `NoteEditor.Editor.GenerateTags`: merges with the tags held when the answer arrives; the source merges with `currentTags` from the render that created the handler, so a tag removed during the await would come back. The model has no await, so this is not visible.
- `Dictation.Recorder.OnResult`: `emitted` is one log, while the source calls the `onTranscriptChange` captured by the render that started the recognition.
- The speech provider itself (microphone, event production, errors thrown by `start()` on a running recognition) is outside the model. Its events are the handler arguments, and `Recognition` only counts `start()` and `stop()` calls.
- `console.error` in `onerror` and in the tag-generation failure path is console output and is not modelled.
- The "Database error" replies of `saveNote` and `removeNote`: the store model never throws, so those catch branches cannot be taken.
- The fallback `redirect('/notes')` in `saveNote` cannot be reached: a saved note is always present at that point.
- `revalidatePath` is a cache call and is not modelled. `redirect` is a `Redirect` response.
- `FormData` entries that are files rather than strings, and zod's own error message texts: field errors are modelled as flags.
- The editor's `NoteSchema` (note-editor.tsx:31-35) goes only to `zodResolver`. The form submits through `formAction`, never through `handleSubmit`, so the server-side `Actions.Validate` is the title rule that decides.
- React rendering, `isDirty`, the JSX and the `alert`/toast UI: toasts and alerts are logs of values.
- `src/ai/flows/generate-tags.ts` and `src/ai/flows/summarize-notes.ts` are prompt templates around a hosted model; the tag generator's answer is the `Generation` parameter.
- `src/components/logo.tsx`, `src/components/note-list.tsx` and the pages under `src/app` only render or pass data through.
