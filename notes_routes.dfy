/**
 * The notes routes of server/src/routes/notes.ts over the notes collection.
 * Every handler runs after `authenticate`, so `caller` is the id of the
 * account the middleware attached; every read, update and delete is scoped to
 * the caller's own notes. `now` is the server clock in milliseconds.
 */
module NotesRoutes {
  import opened Wrappers
  import opened Text
  import opened ObjectIds
  import opened NoteModel

  datatype NoteError = TitleRequired | NotFound | Internal

  /** The reply of a handler that answers with one note, or a failure. */
  datatype NoteResult = Done(note: Note) | Error(error: NoteError)

  /** The HTTP status of a failure. */
  function ErrorStatus(e: NoteError): (code: nat)
    ensures code == 400 <==> e == TitleRequired
    ensures code == 404 <==> e == NotFound
    ensures code == 500 <==> e == Internal
  {
    match e
    case TitleRequired => 400
    case NotFound => 404
    case Internal => 500
  }

  /** `!title?.trim()`: no title, or one of whitespace only. */
  predicate TitleMissing(title: Option<string>) {
    title.None? || Trim(title.value) == ""
  }

  /** `given?.trim() || current`: the trimmed new value, unless it is missing or blank. */
  function KeepUnlessBlank(current: string, given: Option<string>): (r: string)
    ensures given.None? || Blank(given.value) ==> r == current
    ensures given.Some? && !Blank(given.value) ==> r == Trim(given.value) && r != ""
  {
    if given.Some? && Trim(given.value) != "" then Trim(given.value) else current
  }

  /** `content?.trim() || ''`. */
  function TrimmedOrEmpty(content: Option<string>): (r: string)
    ensures content.None? ==> r == ""
    ensures content.Some? ==> r == Trim(content.value)
    ensures |r| <= (if content.Some? then |content.value| else 0)
  {
    if content.Some? then Trim(content.value) else ""
  }

  /** The note the update handler saves: title and content revised, updatedAt set, nothing else touched. */
  function Revised(n: Note, title: Option<string>, content: Option<string>, now: nat): (m: Note)
    ensures m.id == n.id && m.userId == n.userId && m.createdAt == n.createdAt && m.updatedAt == now
    ensures m.title == KeepUnlessBlank(n.title, title) && m.content == KeepUnlessBlank(n.content, content)
  {
    n.(title := KeepUnlessBlank(n.title, title), content := KeepUnlessBlank(n.content, content), updatedAt := now)
  }

  /** The result of `Note.findOne({ _id: noteId, userId: caller })`. */
  datatype NoteLookup = BadId | NoMatch | Match(id: NoteId, note: Note)

  /**
   * The owner-scoped lookup: a string that is not an id fails the cast; a
   * note that does not exist and one that belongs to another user are alike
   * not found.
   */
  function FindOwned(notes: map<NoteId, Note>, noteId: string, caller: nat): (r: NoteLookup)
    ensures r == BadId <==> ParseId(noteId).None?
    ensures r.Match? <==>
      ParseId(noteId).Some? && ParseId(noteId).value in notes && notes[ParseId(noteId).value].userId == caller
    ensures r.Match? ==> ParseId(noteId) == Some(r.id) && r.note == notes[r.id] && r.note.userId == caller
  {
    match ParseId(noteId)
    case None => BadId
    case Some(k) => if k in notes && notes[k].userId == caller then Match(k, notes[k]) else NoMatch
  }

  /** Looking a note up by its id string finds it exactly when the caller owns it. */
  lemma FindOwnedById(notes: map<NoteId, Note>, k: NoteId, caller: nat)
    ensures FindOwned(notes, IdString(k), caller) ==
      if k in notes && notes[k].userId == caller then Match(k, notes[k]) else NoMatch
  {
    ParseIdString(k);
  }

  /** The notes of one user. */
  ghost function OwnedNotes(notes: map<NoteId, Note>, caller: nat): set<Note> {
    set k | k in notes && notes[k].userId == caller :: notes[k]
  }

  /** The notes of one user among those with an id in `done`. */
  ghost function Collected(notes: map<NoteId, Note>, caller: nat, done: set<NoteId>): set<Note> {
    set k | k in notes && k in done && notes[k].userId == caller :: notes[k]
  }

  /** One more id considered adds at most its own note, which was not collected yet. */
  lemma CollectStep(notes: map<NoteId, Note>, caller: nat, done: set<NoteId>, k: NoteId)
    requires k in notes && k !in done && forall j :: j in notes ==> notes[j].id == j
    ensures multiset(Collected(notes, caller, done + {k})) ==
      if notes[k].userId == caller then multiset(Collected(notes, caller, done)) + multiset{notes[k]}
      else multiset(Collected(notes, caller, done))
  {
    var before := Collected(notes, caller, done);
    var after := Collected(notes, caller, done + {k});
    if notes[k].userId == caller {
      assert notes[k] !in before;
      assert after == before + {notes[k]};
    } else {
      assert after == before;
    }
  }

  /** The `Note` model: the stored notes by id, and the next id to assign. */
  class NoteCollection {
    var notes: map<NoteId, Note>
    var nextId: NoteId

    ghost predicate Valid()
      reads this
    {
      forall k :: k in notes ==> k < nextId && notes[k].id == k && NoteValid(notes[k])
    }

    constructor ()
      ensures Valid() && notes == map[] && nextId == 0
    {
      notes := map[];
      nextId := 0;
    }

    /** GET /: exactly the caller's notes, each once, newest first. */
    method List(caller: nat) returns (r: seq<Note>)
      requires Valid()
      ensures SortedByNewest(r)
      ensures multiset(r) == multiset(OwnedNotes(notes, caller))
    {
      r := [];
      var pending := notes.Keys;
      ghost var done: set<NoteId> := {};
      while pending != {}
        invariant pending <= notes.Keys && done == notes.Keys - pending
        invariant SortedByNewest(r)
        invariant multiset(r) == multiset(Collected(notes, caller, done))
        decreases pending
      {
        var k :| k in pending;
        CollectStep(notes, caller, done, k);
        if notes[k].userId == caller {
          InsertKeepsOrder(r, notes[k]);
          r := InsertByNewest(r, notes[k]);
        }
        pending := pending - {k};
        done := done + {k};
      }
      assert Collected(notes, caller, done) == OwnedNotes(notes, caller);
    }

    /** POST /: a blank title is refused; otherwise the trimmed fields are saved for the caller, if the schema admits them. */
    method Create(caller: nat, title: Option<string>, content: Option<string>, now: nat) returns (r: NoteResult)
      requires Valid()
      modifies this
      ensures Valid()
      ensures TitleMissing(title) ==>
        r == Error(TitleRequired) && notes == old(notes) && nextId == old(nextId)
      ensures !TitleMissing(title) ==>
        var n := Note(old(nextId), Trim(title.value), TrimmedOrEmpty(content), caller, now, now);
        if |n.title| <= MaxTitleLength && |n.content| <= MaxContentLength then
          && r == Done(n) && old(nextId) !in old(notes)
          && notes == old(notes)[old(nextId) := n] && nextId == old(nextId) + 1
        else
          r == Error(Internal) && notes == old(notes) && nextId == old(nextId)
    {
      if title.None? || Trim(title.value) == "" {
        return Error(TitleRequired);
      }
      var note := NewNote(nextId, Trim(title.value), Some(TrimmedOrEmpty(content)), caller, now);
      TrimIdempotent(title.value);
      if !NoteValid(note) {
        return Error(Internal);
      }
      notes := notes[nextId := note];
      nextId := nextId + 1;
      return Done(note);
    }

    /**
     * PUT /:id: the caller's note gets the new title and content where they
     * are not blank, and updatedAt; the schema's length rules apply.
     */
    method Update(caller: nat, noteId: string, title: Option<string>, content: Option<string>, now: nat)
      returns (r: NoteResult)
      requires Valid()
      modifies this
      ensures Valid() && nextId == old(nextId)
      ensures FindOwned(old(notes), noteId, caller) == BadId ==> r == Error(Internal) && notes == old(notes)
      ensures FindOwned(old(notes), noteId, caller) == NoMatch ==> r == Error(NotFound) && notes == old(notes)
      ensures FindOwned(old(notes), noteId, caller).Match? ==>
        var k := FindOwned(old(notes), noteId, caller).id;
        var m := Revised(old(notes)[k], title, content, now);
        if NoteValid(m) then r == Done(m) && notes == old(notes)[k := m]
        else r == Error(Internal) && notes == old(notes)
    {
      var found := FindOwned(notes, noteId, caller);
      if found.BadId? {
        return Error(Internal);
      }
      if found.NoMatch? {
        return Error(NotFound);
      }
      var note := found.note;
      // The title path's trim setter changes nothing here (RevisedTitleTrimmed).
      note := note.(title := KeepUnlessBlank(note.title, title));
      note := note.(content := KeepUnlessBlank(note.content, content));
      note := note.(updatedAt := now);
      assert note == Revised(found.note, title, content, now);
      if !NoteValid(note) {
        return Error(Internal);
      }
      Store(found.id, note);
      return Done(note);
    }

    /** `save()` of an existing note that passed validation. */
    method Store(k: NoteId, n: Note)
      requires Valid() && k in notes && n.id == k && NoteValid(n)
      modifies this
      ensures Valid() && nextId == old(nextId) && notes == old(notes)[k := n]
    {
      notes := notes[k := n];
    }

    /** DELETE /:id: removes the caller's note with that id and nothing else. */
    method Delete(caller: nat, noteId: string) returns (r: NoteResult)
      requires Valid()
      modifies this
      ensures Valid() && nextId == old(nextId)
      ensures FindOwned(old(notes), noteId, caller) == BadId ==> r == Error(Internal) && notes == old(notes)
      ensures FindOwned(old(notes), noteId, caller) == NoMatch ==> r == Error(NotFound) && notes == old(notes)
      ensures FindOwned(old(notes), noteId, caller).Match? ==>
        var k := FindOwned(old(notes), noteId, caller).id;
        r == Done(old(notes)[k]) && notes == old(notes) - {k}
    {
      var found := FindOwned(notes, noteId, caller);
      if found.BadId? {
        return Error(Internal);
      }
      if found.NoMatch? {
        return Error(NotFound);
      }
      notes := notes - {found.id};
      return Done(found.note);
    }

    /** GET /:id: the caller's note with that id. */
    method Get(caller: nat, noteId: string) returns (r: NoteResult)
      requires Valid()
      ensures ParseId(noteId).None? ==> r == Error(Internal)
      ensures r.Done? <==>
        ParseId(noteId).Some? && ParseId(noteId).value in notes && notes[ParseId(noteId).value].userId == caller
      ensures r.Done? ==> r.note == notes[ParseId(noteId).value] && r.note.userId == caller
      ensures ParseId(noteId).Some? && !r.Done? ==> r == Error(NotFound)
    {
      var found := FindOwned(notes, noteId, caller);
      if found.BadId? {
        return Error(Internal);
      }
      if found.NoMatch? {
        return Error(NotFound);
      }
      return Done(found.note);
    }
  }

  /** A note of another user can be neither read, changed nor deleted by the caller: it is not found. */
  lemma OthersNotesHidden(notes: map<NoteId, Note>, k: NoteId, caller: nat)
    requires k in notes && notes[k].userId != caller
    ensures FindOwned(notes, IdString(k), caller) == NoMatch
  {
    FindOwnedById(notes, k, caller);
  }

  /** Deleting one note leaves every other note exactly as it was and never touches another user's notes. */
  lemma DeleteKeepsOthers(notes: map<NoteId, Note>, k: NoteId, caller: nat)
    requires k in notes && notes[k].userId == caller
    ensures forall j :: j in notes && j != k ==> j in notes - {k} && (notes - {k})[j] == notes[j]
    ensures forall other :: other != caller ==> OwnedNotes(notes - {k}, other) == OwnedNotes(notes, other)
  {
    forall other | other != caller
      ensures OwnedNotes(notes - {k}, other) == OwnedNotes(notes, other)
    {
      var rest := notes - {k};
      assert forall j :: j in rest && rest[j].userId == other <==> j in notes && notes[j].userId == other;
    }
  }

  /** The title setter's trim leaves a revised title as it is: the stored title and a trimmed new one are trimmed. */
  lemma RevisedTitleTrimmed(n: Note, title: Option<string>)
    requires NoteValid(n)
    ensures Trim(KeepUnlessBlank(n.title, title)) == KeepUnlessBlank(n.title, title)
  {
    if title.Some? && Trim(title.value) != "" {
      TrimIdempotent(title.value);
    } else {
      TrimmedIsFixpoint(n.title);
    }
  }

  /** A blank field in an update keeps the stored value; a non-blank one replaces it, trimmed. */
  lemma UpdateFallsBack(n: Note, title: Option<string>, content: Option<string>, now: nat)
    ensures title.None? || Blank(title.value) ==> Revised(n, title, content, now).title == n.title
    ensures content.None? || Blank(content.value) ==> Revised(n, title, content, now).content == n.content
    ensures title.Some? && !Blank(title.value) ==> Revised(n, title, content, now).title == Trim(title.value)
  {
  }
}
