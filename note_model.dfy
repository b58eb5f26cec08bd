/**
 * The note record of server/src/models/Note.ts: its fields, the schema's
 * rules on them as a validity predicate, and the `createdAt` descending order
 * in which a user's notes are listed.
 */
module NoteModel {
  import opened Wrappers
  import opened Text

  type NoteId = nat

  /** `maxlength: 100` on the title. */
  const MaxTitleLength: nat := 100
  /** `maxlength: 5000` on the content. */
  const MaxContentLength: nat := 5000

  /**
   * A stored note. `userId` is the owning account's id, so the required rule
   * on it holds by construction; the timestamps are milliseconds.
   */
  datatype Note = Note(id: NoteId, title: string, content: string, userId: nat, createdAt: nat, updatedAt: nat)

  /** The schema's rules: the title is required, trimmed and at most 100 long; the content at most 5000 long. */
  predicate NoteValid(n: Note) {
    && n.title != "" && IsTrimmed(n.title) && |n.title| <= MaxTitleLength
    && |n.content| <= MaxContentLength
  }

  /** `new Note({ title, content, userId })` saved at `now`: the trim setter on the title, both timestamps set. */
  function NewNote(id: NoteId, title: string, content: Option<string>, userId: nat, now: nat): (n: Note)
    ensures n.id == id && n.userId == userId && n.createdAt == now && n.updatedAt == now
    ensures IsTrimmed(n.title) && (n.title == "" <==> Blank(title))
    ensures content.None? ==> n.content == ""
    ensures content.Some? ==> n.content == content.value
  {
    Note(id, Trim(title), content.GetOr(""), userId, now, now)
  }

  /** Newest first: `sort({ createdAt: -1 })`. */
  predicate SortedByNewest(s: seq<Note>) {
    forall i, j :: 0 <= i < j < |s| ==> s[i].createdAt >= s[j].createdAt
  }

  /** Insert a note into a newest-first sequence, ahead of the notes no newer than it. */
  function InsertByNewest(s: seq<Note>, n: Note): (r: seq<Note>)
    ensures multiset(r) == multiset(s) + multiset{n}
  {
    if s == [] || s[0].createdAt <= n.createdAt then
      [n] + s
    else
      assert s == [s[0]] + s[1..];
      [s[0]] + InsertByNewest(s[1..], n)
  }

  /** Inserting keeps a sequence newest first. */
  lemma {:induction false} InsertKeepsOrder(s: seq<Note>, n: Note)
    requires SortedByNewest(s)
    ensures SortedByNewest(InsertByNewest(s, n))
  {
    if s == [] || s[0].createdAt <= n.createdAt {
      ConsSorted(n, s);
    } else {
      InsertKeepsOrder(s[1..], n);
      InsertBounded(s[1..], n, s[0].createdAt);
      ConsSorted(s[0], InsertByNewest(s[1..], n));
    }
  }

  /** Inserting a note no newer than a bound into notes no newer than it gives notes no newer than it. */
  lemma InsertBounded(s: seq<Note>, n: Note, bound: nat)
    requires forall i :: 0 <= i < |s| ==> s[i].createdAt <= bound
    requires n.createdAt <= bound
    ensures forall i :: 0 <= i < |InsertByNewest(s, n)| ==> InsertByNewest(s, n)[i].createdAt <= bound
  {
    var r := InsertByNewest(s, n);
    forall i | 0 <= i < |r|
      ensures r[i].createdAt <= bound
    {
      assert r[i] in multiset(r);
      if r[i] != n {
        assert r[i] in multiset(s);
      }
    }
  }

  /** A note no older than every note of a newest-first sequence can go in front of it. */
  lemma ConsSorted(x: Note, s: seq<Note>)
    requires SortedByNewest(s)
    requires forall i :: 0 <= i < |s| ==> s[i].createdAt <= x.createdAt
    ensures SortedByNewest([x] + s)
  {
    var r := [x] + s;
    forall i, j | 0 <= i < j < |r|
      ensures r[i].createdAt >= r[j].createdAt
    {
      assert r[j] == s[j - 1];
      if i > 0 {
        assert r[i] == s[i - 1];
      }
    }
  }
}
