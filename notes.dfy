/**
 * The notes service: owner-scoped create/read/update/delete over the notes
 * table, plus the two operations that store text produced by the
 * generative provider (a new note with a derived title, and a summary of
 * an existing note).
 */
module Notes {
  import opened Wrappers
  import opened Markdown
  import Auth

  /** The owner of a note: the id of a user, as the access token's `sub` carries it. */
  type UserId = Auth.UserId

  /** Row key. The table generates it; here it comes from a counter. */
  type NoteId = nat

  /** A row of the notes table (timestamps left out). */
  datatype Note = Note(title: string, content: string, userId: UserId, summarize: Option<string>)

  /** The columns the read queries select: id, title and content (no owner, no summary). */
  datatype NoteView = NoteView(id: NoteId, title: string, content: string)

  /** The `SET` part of an update: a column is written when its field is present. */
  datatype NotePatch = NotePatch(title: Option<string>, content: Option<string>, summarize: Option<string>)

  /** The body of an update request: title and/or content. */
  function EditPatch(title: Option<string>, content: Option<string>): NotePatch {
    NotePatch(title, content, None)
  }

  /** `SET summarize = $summary`: the only column aiSummarizeNote writes. */
  function SummaryPatch(summary: string): NotePatch {
    NotePatch(None, None, Some(summary))
  }

  /** What the provider call gives back: a transport or provider failure, or a response whose text may be absent. */
  datatype ProviderReply = Unavailable | Generated(text: Option<string>)

  /** Failures of the AI operations. */
  datatype NotesError =
    | ProviderFailed
      /** Destructuring `note` from a lookup that found nothing. */
    | NoteMissing

  /** Response bodies of the operations. */
  datatype Ack = Ack(success: bool, message: string)
  datatype SummaryOutcome = Summarized(summary: string) | NotSummarized

  const UpdatedMessage: string := "Note Updated Successfuly!"
  const DeletedMessage: string := "Note Deleted Successfully!"

  function ViewOf(id: NoteId, n: Note): NoteView {
    NoteView(id, n.title, n.content)
  }

  /** The row `WHERE id = $id AND userId = $userId` selects. */
  predicate Owns(notes: map<NoteId, Note>, id: NoteId, userId: UserId) {
    id in notes && notes[id].userId == userId
  }

  /** Writes the columns the patch sets. */
  function Apply(n: Note, patch: NotePatch): Note {
    Note(patch.title.GetOr(n.title), patch.content.GetOr(n.content), n.userId,
         if patch.summarize.Some? then patch.summarize else n.summarize)
  }

  /** A summary patch writes the summary and leaves title, content and owner as they were. */
  lemma SummaryPatchWritesOnlySummary(n: Note, summary: string)
    ensures Apply(n, SummaryPatch(summary)) == n.(summarize := Some(summary))
  {
  }

  /** An edit patch keeps the owner and the summary. */
  lemma EditPatchKeepsOwnerAndSummary(n: Note, title: Option<string>, content: Option<string>)
    ensures Apply(n, EditPatch(title, content)).userId == n.userId
    ensures Apply(n, EditPatch(title, content)).summarize == n.summarize
  {
  }

  /** `UPDATE notes SET ... WHERE id = $id AND userId = $userId`, row by row. */
  function UpdateWhere(notes: map<NoteId, Note>, id: NoteId, userId: UserId, patch: NotePatch): map<NoteId, Note> {
    map k | k in notes :: if k == id && notes[k].userId == userId then Apply(notes[k], patch) else notes[k]
  }

  /** `DELETE FROM notes WHERE id = $id AND userId = $userId`, row by row. */
  function DeleteWhere(notes: map<NoteId, Note>, id: NoteId, userId: UserId): map<NoteId, Note> {
    map k | k in notes && !(k == id && notes[k].userId == userId) :: notes[k]
  }

  /**
   * The update statement changes at most the one row whose id and owner
   * both match, and nothing when no row matches.
   */
  lemma UpdateWhereTouchesOnlyOwnedRow(notes: map<NoteId, Note>, id: NoteId, userId: UserId, patch: NotePatch)
    ensures UpdateWhere(notes, id, userId, patch)
      == if Owns(notes, id, userId) then notes[id := Apply(notes[id], patch)] else notes
  {
    var r := UpdateWhere(notes, id, userId, patch);
    if Owns(notes, id, userId) {
      assert r.Keys == notes[id := Apply(notes[id], patch)].Keys;
    } else {
      assert r.Keys == notes.Keys;
    }
  }

  /** The delete statement removes at most the one row whose id and owner both match. */
  lemma DeleteWhereTouchesOnlyOwnedRow(notes: map<NoteId, Note>, id: NoteId, userId: UserId)
    ensures DeleteWhere(notes, id, userId) == if Owns(notes, id, userId) then notes - {id} else notes
  {
    var r := DeleteWhere(notes, id, userId);
    if Owns(notes, id, userId) {
      assert r.Keys == (notes - {id}).Keys;
    } else {
      assert r.Keys == notes.Keys;
    }
  }

  /**
   * The summary gate: the trimmed provider text (absent text read as "")
   * is written only when it is not empty.
   */
  function SummaryGate(text: Option<string>): (r: Option<string>)
    ensures r.None? <==> AllWhitespace(text.GetOr(""))
    ensures r.Some? ==> r.value != [] && Trimmed(r.value) && IsTrimOf(text.GetOr(""), r.value)
  {
    var summary := Trim(text.GetOr(""));
    TrimEmptyIffBlank(text.GetOr(""));
    if summary != [] then Some(summary) else None
  }

  /** The row aiCreateNote inserts: the trimmed provider text and the title derived from it. */
  function GeneratedNote(text: Option<string>, userId: UserId): (n: Note)
    ensures IsTrimOf(text.GetOr(""), n.content)
    ensures n.title != [] && Trim(n.title) == n.title
    ensures forall c :: c in n.title ==> !IsLineTerminator(c)
    ensures n.userId == userId && n.summarize.None?
  {
    var markdown := Trim(text.GetOr(""));
    TitleIsOneNonEmptyLine(markdown);
    Note(DeriveTitle(markdown), markdown, userId, None)
  }

  class NotesService {
    var notes: map<NoteId, Note>
    /** The next id the table hands out. */
    var nextId: NoteId

    /** Every stored id was handed out already, so nextId is fresh. */
    ghost predicate Valid()
      reads this
    {
      forall id :: id in notes ==> id < nextId
    }

    constructor ()
      ensures Valid() && notes == map[]
    {
      notes := map[];
      nextId := 0;
    }

    /** `INSERT ... RETURNING`: a fresh id, so no existing row changes. */
    method Insert(row: Note) returns (id: NoteId)
      requires Valid()
      modifies this
      ensures Valid()
      ensures id !in old(notes) && notes == old(notes)[id := row]
    {
      id := nextId;
      notes := notes[id := row];
      nextId := nextId + 1;
    }

    /** createNote: inserts a note with the given title and content for the owner, without a summary. */
    method CreateNote(title: string, content: string, userId: UserId) returns (id: NoteId, row: Note)
      requires Valid()
      modifies this
      ensures Valid()
      ensures row == Note(title, content, userId, None)
      ensures id !in old(notes) && notes == old(notes)[id := row]
    {
      row := Note(title, content, userId, None);
      id := Insert(row);
    }

    /** getAllNotes: exactly the notes the user owns, in the selected columns. */
    method GetAllNotes(userId: UserId) returns (rows: set<NoteView>)
      ensures forall v :: v in rows <==> Owns(notes, v.id, userId) && v == ViewOf(v.id, notes[v.id])
    {
      rows := set k | k in notes && notes[k].userId == userId :: ViewOf(k, notes[k]);
    }

    /** getNoteById: the note when both id and owner match, else nothing (`undefined`). */
    method GetNoteById(id: NoteId, userId: UserId) returns (note: Option<NoteView>)
      ensures note.Some? <==> Owns(notes, id, userId)
      ensures note.Some? ==> note.value == ViewOf(id, notes[id])
    {
      if id in notes && notes[id].userId == userId {
        note := Some(ViewOf(id, notes[id]));
      } else {
        note := None;
      }
    }

    /** updateNote: patches only the row with that id and owner; reports success even when none matched. */
    method UpdateNote(id: NoteId, userId: UserId, title: Option<string>, content: Option<string>) returns (ack: Ack)
      requires Valid()
      modifies this
      ensures Valid()
      ensures notes == if Owns(old(notes), id, userId)
                       then old(notes)[id := Apply(old(notes)[id], EditPatch(title, content))]
                       else old(notes)
      ensures ack == Ack(true, UpdatedMessage)
    {
      UpdateWhereTouchesOnlyOwnedRow(notes, id, userId, EditPatch(title, content));
      notes := UpdateWhere(notes, id, userId, EditPatch(title, content));
      ack := Ack(true, UpdatedMessage);
    }

    /** deleteNote: removes only the row with that id and owner; reports success even when none matched. */
    method DeleteNote(id: NoteId, userId: UserId) returns (ack: Ack)
      requires Valid()
      modifies this
      ensures Valid()
      ensures notes == if Owns(old(notes), id, userId) then old(notes) - {id} else old(notes)
      ensures ack == Ack(true, DeletedMessage)
    {
      DeleteWhereTouchesOnlyOwnedRow(notes, id, userId);
      notes := DeleteWhere(notes, id, userId);
      ack := Ack(true, DeletedMessage);
    }

    /**
     * aiCreateNote: a provider failure propagates and writes nothing;
     * otherwise one note is inserted whose content is the trimmed provider
     * text and whose title comes from its first heading.
     */
    method AiCreateNote(text: string, userId: UserId, reply: ProviderReply)
      returns (r: Result<(NoteId, Note), NotesError>)
      requires text != []
      requires Valid()
      modifies this
      ensures Valid()
      ensures reply.Unavailable? ==> r == Failure(ProviderFailed) && notes == old(notes)
      ensures reply.Generated? ==>
        && r.Success?
        && r.value.0 !in old(notes)
        && r.value.1 == Note(DeriveTitle(Trim(reply.text.GetOr(""))), Trim(reply.text.GetOr("")), userId, None)
        && notes == old(notes)[r.value.0 := r.value.1]
    {
      if reply.Unavailable? {
        return Failure(ProviderFailed);
      }
      var row := GeneratedNote(reply.text, userId);
      var id := Insert(row);
      r := Success((id, row));
    }

    /**
     * aiSummarizeNote: a note the user does not own fails before the
     * provider is asked; a non-blank reply is trimmed and written to the
     * summary column of that note only; a blank one writes nothing and
     * reports "not summarized".
     */
    method AiSummarizeNote(noteId: NoteId, userId: UserId, reply: ProviderReply)
      returns (r: Result<SummaryOutcome, NotesError>)
      requires Valid()
      modifies this
      ensures Valid()
      ensures !Owns(old(notes), noteId, userId) ==> r == Failure(NoteMissing) && notes == old(notes)
      ensures Owns(old(notes), noteId, userId) && reply.Unavailable? ==>
        r == Failure(ProviderFailed) && notes == old(notes)
      ensures Owns(old(notes), noteId, userId) && reply.Generated? ==>
        match SummaryGate(reply.text)
        case None => r == Success(NotSummarized) && notes == old(notes)
        case Some(summary) =>
          && r == Success(Summarized(summary))
          && notes == old(notes)[noteId := old(notes)[noteId].(summarize := Some(summary))]
    {
      var found := GetNoteById(noteId, userId);
      if found.None? {
        return Failure(NoteMissing);
      }
      if reply.Unavailable? {
        return Failure(ProviderFailed);
      }
      var summary := SummaryGate(reply.text);
      if summary.None? {
        return Success(NotSummarized);
      }
      UpdateWhereTouchesOnlyOwnedRow(notes, noteId, userId, SummaryPatch(summary.value));
      SummaryPatchWritesOnlySummary(notes[noteId], summary.value);
      notes := UpdateWhere(notes, noteId, userId, SummaryPatch(summary.value));
      r := Success(Summarized(summary.value));
    }
  }
}
