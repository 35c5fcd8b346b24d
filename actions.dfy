/** The server actions of `src/lib/actions.ts`: `saveNote` validates the submitted form and
    then creates or updates a note in the store; `removeNote` checks the id and deletes. Both
    end in a redirect when they succeed, and otherwise answer with a form state message. */
module Actions {
  import opened Wrappers
  import opened NoteData

  /** The fields `saveNote` reads from the form. A missing field (`formData.get` returning
      null) is `None`; the hidden id input of a new note submits the empty string. */
  datatype FormInput = FormInput(id: Option<string>, title: Option<string>, content: Option<string>, tags: seq<string>)

  /** Which fields `NoteSchema` rejected. */
  datatype FieldErrors = FieldErrors(title: bool, content: bool)

  /** A form that passed validation: the id, if non-empty, and the note fields. */
  datatype ValidForm = ValidForm(id: Option<string>, fields: NoteFields)

  /** What an action hands back: a form state, or a redirect. */
  datatype Response = Reply(message: string, errors: Option<FieldErrors>) | Redirect(path: string)

  const ValidationFailed: string := "Validation failed."
  const NoteNotFound: string := "Failed to update note. Note not found."
  const IdRequired: string := "Note ID is required."
  const NotesPath: string := "/notes"

  /** `z.string().min(1)`: a present title of at least one character. */
  predicate TitleValid(title: Option<string>) {
    title.Some? && |title.value| >= 1
  }

  /** `NoteSchema.safeParse`: the title must be a non-empty string and the content a string;
      `rawId || undefined` turns an empty id into no id. */
  function Validate(form: FormInput): (r: Result<ValidForm, FieldErrors>)
    ensures r.Success? <==> TitleValid(form.title) && form.content.Some?
    ensures r.Failure? ==> r.error == FieldErrors(!TitleValid(form.title), form.content.None?)
    ensures r.Success? ==> r.value.fields == NoteFields(form.title.value, form.content.value, form.tags)
    ensures r.Success? ==> (r.value.id.Some? <==> form.id.Some? && form.id.value != "")
    ensures r.Success? && r.value.id.Some? ==> r.value.id == form.id
  {
    if !TitleValid(form.title) || form.content.None? then
      Failure(FieldErrors(!TitleValid(form.title), form.content.None?))
    else
      var id := if form.id.Some? && form.id.value != "" then form.id else None;
      Success(ValidForm(id, NoteFields(form.title.value, form.content.value, form.tags)))
  }

  /** The `updateNote` argument `saveNote` builds: every editable field is supplied. */
  function FullPatch(fields: NoteFields): (p: NotePatch) {
    NotePatch(Some(fields.title), Some(fields.content), Some(fields.tags))
  }

  /** The page of one note. */
  function NotePath(id: string): (path: string) {
    NotesPath + "/" + id
  }

  /** `saveNote`: validation errors, a new note, an update, or "not found". `freshId` and
      `now` stand for `uuidv4()` and the clock. */
  method SaveNote(store: NoteStore, form: FormInput, freshId: string, now: Timestamp) returns (resp: Response)
    modifies store
    ensures Validate(form).Failure? ==>
      resp == Reply(ValidationFailed, Some(Validate(form).error)) && store.notes == old(store.notes)
    ensures Validate(form).Success? && Validate(form).value.id.None? ==>
      var f := Validate(form).value.fields;
      && store.notes == [Note(freshId, f.title, f.content, f.tags, now, now)] + old(store.notes)
      && resp == Redirect(NotePath(freshId))
    ensures Validate(form).Success? && Validate(form).value.id.Some? ==>
      var v := Validate(form).value;
      var k := FindIndex(old(store.notes), v.id.value);
      if k == -1 then
        resp == Reply(NoteNotFound, None) && store.notes == old(store.notes)
      else
        && store.notes == old(store.notes)[k := ApplyPatch(old(store.notes)[k], FullPatch(v.fields), now)]
        && store.notes[k].id == v.id.value && store.notes[k].createdAt == old(store.notes)[k].createdAt
        && store.notes[k].title == v.fields.title && store.notes[k].content == v.fields.content
        && store.notes[k].tags == v.fields.tags && store.notes[k].updatedAt == now
        && resp == Redirect(NotePath(v.id.value))
  {
    var validated := Validate(form);
    if validated.Failure? {
      return Reply(ValidationFailed, Some(validated.error));
    }
    var id, data := validated.value.id, validated.value.fields;
    var savedNote: Note;
    if id.Some? {
      var updated := store.UpdateNote(id.value, FullPatch(data), now);
      if updated.None? {
        return Reply(NoteNotFound, None);
      }
      savedNote := updated.value;
    } else {
      savedNote := store.CreateNote(data, freshId, now);
    }
    resp := Redirect(NotePath(savedNote.id));
  }

  /** `removeNote`: a missing or empty id is refused; otherwise every note with the id is
      deleted and the browser goes back to the list. */
  method RemoveNote(store: NoteStore, id: Option<string>) returns (resp: Response)
    modifies store
    ensures id.None? || id.value == "" ==> resp == Reply(IdRequired, None) && store.notes == old(store.notes)
    ensures id.Some? && id.value != "" ==>
      store.notes == WithoutId(old(store.notes), id.value) && resp == Redirect(NotesPath)
  {
    if id.None? || id.value == "" {
      return Reply(IdRequired, None);
    }
    var _ := store.DeleteNote(id.value);
    resp := Redirect(NotesPath);
  }
}
