/** The note editor of `src/components/note-editor.tsx`: its form state (title, content, tags),
    the `isGeneratingTags` flag, and the handlers that dictation, tag generation and tag
    removal call. */
module NoteEditor {
  import opened Wrappers
  import opened Seqs
  import opened NoteData

  /** `Array.from(new Set([...currentTags, ...generated]))`. */
  function MergeTags(current: seq<string>, generated: seq<string>): (merged: seq<string>) {
    Dedup(current + generated)
  }

  /** The merged list has no repeats, holds exactly the tags of both lists, orders them by
      first occurrence in current-then-generated, and keeps distinct current tags as its
      prefix. */
  lemma MergeTagsCorrect(current: seq<string>, generated: seq<string>)
    ensures NoDuplicates(MergeTags(current, generated))
    ensures forall t :: t in MergeTags(current, generated) <==> t in current || t in generated
    ensures forall i, j :: 0 <= i < j < |MergeTags(current, generated)| ==>
              FirstIndex(current + generated, MergeTags(current, generated)[i]) <
              FirstIndex(current + generated, MergeTags(current, generated)[j])
    ensures NoDuplicates(current) ==>
              |current| <= |MergeTags(current, generated)| &&
              MergeTags(current, generated)[..|current|] == current
  {
    var all := current + generated;
    DedupNoDuplicates(all);
    DedupMember(all);
    DedupOrder(all);
    DedupPrefix(current, generated);
    if NoDuplicates(current) {
      DedupOfDistinct(current);
    }
  }

  /** `currentTags.filter(tag => tag !== tagToRemove)`. */
  function WithoutTag(tags: seq<string>, tagToRemove: string): (r: seq<string>) {
    Filter(tags, (t: string) => t != tagToRemove)
  }

  /** Every copy of the removed tag goes; every other tag stays, as often and in the order
      it was. */
  lemma WithoutTagCorrect(tags: seq<string>, tagToRemove: string)
    ensures tagToRemove !in WithoutTag(tags, tagToRemove)
    ensures forall t :: t != tagToRemove ==> multiset(WithoutTag(tags, tagToRemove))[t] == multiset(tags)[t]
    ensures IsSubsequence(WithoutTag(tags, tagToRemove), tags)
  {
    FilterCorrect(tags, (t: string) => t != tagToRemove);
  }

  datatype Toast = Toast(title: string, description: string)

  const EmptyContentToast: Toast := Toast("Cannot generate tags", "Note content is empty.")
  const GenerationFailedToast: Toast := Toast("Error", "Failed to generate tags. Please try again.")

  /** How the call to the tag generator ended: it threw, or it returned an object whose
      `tags` field may be missing. An empty array is present (and truthy in JavaScript). */
  datatype Generation = Threw | Returned(tags: Option<seq<string>>)

  class Editor {
    var title: string
    var content: string
    var tags: seq<string>
    var isGeneratingTags: bool
    /** Every toast shown, oldest first. */
    var toasts: seq<Toast>
    /** The note contents sent to the tag generator, oldest first. */
    var generationRequests: seq<string>

    /** `useForm`'s default values: the note's fields, or empty ones for a new note. */
    constructor (note: Option<Note>)
      ensures note.Some? ==> title == note.value.title && content == note.value.content && tags == note.value.tags
      ensures note.None? ==> title == "" && content == "" && tags == []
      ensures !isGeneratingTags && toasts == [] && generationRequests == []
    {
      match note {
        case Some(n) => title, content, tags := n.title, n.content, n.tags;
        case None => title, content, tags := "", "", [];
      }
      isGeneratingTags, toasts, generationRequests := false, [], [];
    }

    /** `handleTranscriptChange`: the content becomes exactly the dictated transcript. */
    method HandleTranscriptChange(transcript: string)
      modifies this
      ensures content == transcript
      ensures title == old(title) && tags == old(tags) && isGeneratingTags == old(isGeneratingTags)
      ensures toasts == old(toasts) && generationRequests == old(generationRequests)
    {
      content := transcript;
    }

    /** `removeTag`. */
    method RemoveTag(tagToRemove: string)
      modifies this
      ensures tags == WithoutTag(old(tags), tagToRemove)
      ensures tagToRemove !in tags
      ensures title == old(title) && content == old(content) && isGeneratingTags == old(isGeneratingTags)
      ensures toasts == old(toasts) && generationRequests == old(generationRequests)
    {
      WithoutTagCorrect(tags, tagToRemove);
      tags := WithoutTag(tags, tagToRemove);
    }

    /** `handleGenerateTags`, with the generator's answer given as `outcome`. Empty content:
        a toast, and nothing else happens. Otherwise the content is sent, returned tags are
        merged into the current ones, a failure shows a toast, and the flag ends false. */
    method GenerateTags(outcome: Generation)
      modifies this
      ensures title == old(title) && content == old(content)
      ensures old(content) == "" ==>
        && toasts == old(toasts) + [EmptyContentToast]
        && generationRequests == old(generationRequests)
        && tags == old(tags) && isGeneratingTags == old(isGeneratingTags)
      ensures old(content) != "" ==>
        && generationRequests == old(generationRequests) + [old(content)]
        && !isGeneratingTags
      ensures old(content) != "" && outcome.Returned? ==>
        && toasts == old(toasts)
        && tags == (if outcome.tags.Some? then MergeTags(old(tags), outcome.tags.value) else old(tags))
      ensures old(content) != "" && outcome.Threw? ==>
        toasts == old(toasts) + [GenerationFailedToast] && tags == old(tags)
    {
      if content == "" {
        toasts := toasts + [EmptyContentToast];
        return;
      }
      isGeneratingTags := true;
      generationRequests := generationRequests + [content];
      match outcome {
        case Threw =>
          toasts := toasts + [GenerationFailedToast];
        case Returned(generated) =>
          if generated.Some? {
            tags := MergeTags(tags, generated.value);
          }
      }
      isGeneratingTags := false;
    }
  }
}
