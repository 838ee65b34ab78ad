/**
 * The `Note` model: the stored document, the schema's setters, defaults and
 * validators, and the owner query `Note.find({ user }).sort({ createdAt: -1 })`.
 * The collection is a map from note id to document.
 */
module NoteModel {
  import opened Wrappers
  import opened Text

  const NoteValidationFailedMessage := "Note validation failed"

  datatype Note = Note(
    title: string,
    content: string,
    tags: seq<string>,
    owner: UserId,
    isPinned: bool,
    createdAt: int,
    updatedAt: int)

  type NoteStore = map<NoteId, Note>

  /** A document together with its `_id`, as queries return it. */
  datatype Entry = Entry(id: NoteId, note: Note)

  /** What the schema guarantees of a saved document: `title` and `content` required and trimmed, `title` at most 100. */
  predicate NoteSchemaValid(n: Note) {
    && n.title != "" && Trimmed(n.title) && |n.title| <= 100
    && n.content != "" && Trimmed(n.content)
  }

  predicate NotesInvariant(store: NoteStore) {
    forall id :: id in store ==> NoteSchemaValid(store[id])
  }

  /**
   * Casting and validating a document on `create` or `save`: `trim` on the two
   * strings, `tags` defaulting to `[]` and `isPinned` to `false`, then the
   * `required`/`maxlength` validators. A validation error is thrown.
   */
  function CastNote(
    title: string, content: string, tags: Option<seq<string>>, owner: UserId,
    isPinned: Option<bool>, createdAt: int, updatedAt: int): (r: Result<Note, string>)
    ensures r.Success? ==> NoteSchemaValid(r.value)
    ensures r.Success? ==>
              && r.value.title == Trim(title) && r.value.content == Trim(content)
              && r.value.tags == (if tags.Some? then tags.value else [])
              && r.value.isPinned == (isPinned.Some? && isPinned.value)
              && r.value.owner == owner
              && r.value.createdAt == createdAt && r.value.updatedAt == updatedAt
    ensures r.Failure? <==> Trim(title) == "" || |Trim(title)| > 100 || Trim(content) == ""
    ensures r.Failure? ==> r.error == NoteValidationFailedMessage
  {
    var n := Note(Trim(title), Trim(content), tags.GetOr([]), owner, isPinned.GetOr(false), createdAt, updatedAt);
    if NoteSchemaValid(n) then Success(n) else Failure(NoteValidationFailedMessage)
  }

  /**
   * The schema's guarantee is exactly what casting leaves alone: a note is
   * schema-valid iff casting its own fields gives it back unchanged.
   */
  lemma ValidNoteRecasts(n: Note)
    ensures NoteSchemaValid(n) <==>
              CastNote(n.title, n.content, Some(n.tags), n.owner, Some(n.isPinned), n.createdAt, n.updatedAt) == Success(n)
  {
    if NoteSchemaValid(n) {
      TrimOfTrimmed(n.title);
      TrimOfTrimmed(n.content);
    }
  }

  // ---------------------------------------------------------------------------
  // Note.find({ user: owner }).sort({ createdAt: -1 })

  /** Non-increasing `createdAt`: the order of `sort({ createdAt: -1 })`. */
  predicate NewestFirst(es: seq<Entry>) {
    forall i, j :: 0 <= i < j < |es| ==> es[i].note.createdAt >= es[j].note.createdAt
  }

  predicate DistinctIds(es: seq<Entry>) {
    forall i, j :: 0 <= i < j < |es| ==> es[i].id != es[j].id
  }

  /** The least element of a non-empty set of ids, found by removing one element at a time. */
  ghost function LeastOf(keys: set<NoteId>): (m: NoteId)
    requires keys != {}
    ensures m in keys
    ensures forall k :: k in keys ==> m <= k
    decreases |keys|
  {
    var x :| x in keys;
    var rest := keys - {x};
    if rest == {} then
      assert forall k :: k in keys ==> k == x || k in rest;
      x
    else
      var m := LeastOf(rest);
      assert forall k :: k in keys ==> k == x || k in rest;
      if x < m then x else m
  }

  function MinKey(keys: set<NoteId>): (m: NoteId)
    requires keys != {}
    ensures m in keys && forall k :: k in keys ==> m <= k
  {
    var least := LeastOf(keys);
    var m :| m in keys && forall k :: k in keys ==> m <= k;
    m
  }

  /** The ids of a collection in increasing order: a deterministic enumeration of the map. */
  function KeysAscending(keys: set<NoteId>): (r: seq<NoteId>)
    ensures forall i, j :: 0 <= i < j < |r| ==> r[i] < r[j]
    ensures forall k :: k in r <==> k in keys
    decreases |keys|
  {
    if keys == {} then []
    else
      var m := MinKey(keys);
      [m] + KeysAscending(keys - {m})
  }

  /** `store[id]` is a note of `owner`, and `e` pairs it with its id. */
  predicate OwnedEntry(store: NoteStore, owner: UserId, e: Entry) {
    e.id in store && store[e.id] == e.note && e.note.owner == owner
  }

  /** The entries, among `ids`, owned by `owner`, in the order of `ids`. */
  function OwnedEntries(store: NoteStore, ids: seq<NoteId>, owner: UserId): (r: seq<Entry>)
    requires forall i :: 0 <= i < |ids| ==> ids[i] in store
    ensures forall i :: 0 <= i < |r| ==> OwnedEntry(store, owner, r[i]) && r[i].id in ids
    ensures forall i :: 0 <= i < |ids| && store[ids[i]].owner == owner ==> Entry(ids[i], store[ids[i]]) in r
  {
    if ids == [] then []
    else
      var rest := OwnedEntries(store, ids[1..], owner);
      var head := Entry(ids[0], store[ids[0]]);
      assert forall i :: 1 <= i < |ids| ==> ids[i] == ids[1..][i - 1];
      if head.note.owner == owner then [head] + rest else rest
  }

  /** Over strictly increasing ids, the selected entries have distinct ids. */
  lemma {:induction false} OwnedEntriesDistinct(store: NoteStore, ids: seq<NoteId>, owner: UserId)
    requires forall i :: 0 <= i < |ids| ==> ids[i] in store
    requires forall i, j :: 0 <= i < j < |ids| ==> ids[i] < ids[j]
    ensures DistinctIds(OwnedEntries(store, ids, owner))
    decreases |ids|
  {
    if ids != [] {
      var tail := ids[1..];
      assert forall i :: 0 <= i < |tail| ==> tail[i] == ids[i + 1];
      assert forall x :: x in tail ==> ids[0] < x;
      OwnedEntriesDistinct(store, tail, owner);
      var rest := OwnedEntries(store, tail, owner);
      var r := OwnedEntries(store, ids, owner);
      if store[ids[0]].owner == owner {
        var head := Entry(ids[0], store[ids[0]]);
        assert r == [head] + rest;
        forall x | x in rest
          ensures x.id != head.id
        {
          assert x.id in tail;
        }
        ConsKeepsDistinct(head, rest);
      }
    }
  }

  lemma ConsKeepsDistinct(head: Entry, rest: seq<Entry>)
    requires DistinctIds(rest)
    requires forall x :: x in rest ==> x.id != head.id
    ensures DistinctIds([head] + rest)
  {
    var r := [head] + rest;
    forall i, j | 0 <= i < j < |r|
      ensures r[i].id != r[j].id
    {
      assert r[j] == rest[j - 1];
      if i > 0 {
        assert r[i] == rest[i - 1];
      }
    }
  }

  /** Inserts `e` into a newest-first list, before the first entry not newer than it. */
  function InsertNewestFirst(es: seq<Entry>, e: Entry): (r: seq<Entry>)
    requires NewestFirst(es)
    ensures NewestFirst(r)
    ensures forall x :: x in r ==> x in es || x == e
  {
    if es == [] || e.note.createdAt >= es[0].note.createdAt then
      [e] + es
    else
      var rest := InsertNewestFirst(es[1..], e);
      assert forall x :: x in es[1..] ==> x in es;
      assert forall x :: x in es ==> x.note.createdAt <= es[0].note.createdAt;
      [es[0]] + rest
  }

  /** Insertion adds exactly one occurrence of `e` and loses nothing. */
  lemma {:induction false} InsertPermutes(es: seq<Entry>, e: Entry)
    requires NewestFirst(es)
    ensures multiset(InsertNewestFirst(es, e)) == multiset(es) + multiset{e}
  {
    if es != [] && e.note.createdAt < es[0].note.createdAt {
      InsertPermutes(es[1..], e);
      assert es == [es[0]] + es[1..];
    }
  }

  /** Insertion keeps ids distinct when the inserted id is new. */
  lemma {:induction false} InsertKeepsDistinct(es: seq<Entry>, e: Entry)
    requires NewestFirst(es) && DistinctIds(es)
    requires forall x :: x in es ==> x.id != e.id
    ensures DistinctIds(InsertNewestFirst(es, e))
  {
    if es != [] && e.note.createdAt < es[0].note.createdAt {
      assert forall x :: x in es[1..] ==> x in es;
      InsertKeepsDistinct(es[1..], e);
      var rest := InsertNewestFirst(es[1..], e);
      forall x | x in rest
        ensures x.id != es[0].id
      {
        if x != e {
          var k :| 0 <= k < |es[1..]| && es[1..][k] == x;
          assert es[k + 1] == x;
        }
      }
      assert DistinctIds(es[1..]) by {
        assert forall i :: 0 <= i < |es[1..]| ==> es[1..][i] == es[i + 1];
      }
      ConsKeepsDistinct(es[0], rest);
    } else {
      ConsKeepsDistinct(e, es);
    }
  }

  /** Insertion sort on `createdAt`, newest first. */
  function SortNewestFirst(es: seq<Entry>): (r: seq<Entry>)
    ensures NewestFirst(r)
  {
    if es == [] then []
    else InsertNewestFirst(SortNewestFirst(es[1..]), es[0])
  }

  /** Sorting permutes its input. */
  lemma {:induction false} SortPermutes(es: seq<Entry>)
    ensures multiset(SortNewestFirst(es)) == multiset(es)
  {
    if es != [] {
      SortPermutes(es[1..]);
      InsertPermutes(SortNewestFirst(es[1..]), es[0]);
      assert es == [es[0]] + es[1..];
    }
  }

  /** Sorting keeps ids distinct. */
  lemma {:induction false} SortKeepsDistinct(es: seq<Entry>)
    requires DistinctIds(es)
    ensures DistinctIds(SortNewestFirst(es))
  {
    if es != [] {
      SortKeepsDistinct(es[1..]);
      var sorted := SortNewestFirst(es[1..]);
      SortPermutes(es[1..]);
      forall x | x in sorted
        ensures x.id != es[0].id
      {
        assert x in multiset(es[1..]);
        var k :| 0 <= k < |es[1..]| && es[1..][k] == x;
        assert es[k + 1] == x;
      }
      InsertKeepsDistinct(sorted, es[0]);
    }
  }

  /**
   * `Note.find({ user: owner }).sort({ createdAt: -1 })`: every note of `owner`
   * exactly once, and nothing else, newest first. The order among notes created
   * at the same instant is not specified by the query; this one is deterministic.
   */
  function FindByOwner(store: NoteStore, owner: UserId): (r: seq<Entry>)
    ensures forall e :: e in r <==> OwnedEntry(store, owner, e)
    ensures DistinctIds(r)
    ensures NewestFirst(r)
  {
    var ids := KeysAscending(store.Keys);
    var owned := OwnedEntries(store, ids, owner);
    var r := SortNewestFirst(owned);
    OwnedEntriesDistinct(store, ids, owner);
    SortPermutes(owned);
    SortKeepsDistinct(owned);
    forall e
      ensures e in r <==> OwnedEntry(store, owner, e)
    {
      assert e in r <==> e in multiset(owned);
      if OwnedEntry(store, owner, e) {
        var i :| 0 <= i < |ids| && ids[i] == e.id;
      }
    }
    r
  }
}
