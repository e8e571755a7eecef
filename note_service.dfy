/** The note mutation service: ownership-checked reads, owner stamping on
    create, deletion, and update with the rebuilding of the two-way
    Note<->Tag relation. The note and tag repositories are maps held by the
    service object; the identity of the caller is an explicit argument. */
module NoteServices {
  import opened Wrappers
  import opened Entities

  /** What both repositories guarantee: every entity is stored under its own
      id, and the id generator of the note repository is ahead of every note
      id in use, including ids that a tag still remembers. */
  ghost predicate StoreValid(notes: map<NoteId, Note>, tags: map<TagId, Tag>, nextId: NoteId) {
    && (forall id :: id in notes ==> notes[id].id == id && id < nextId)
    && (forall t :: t in tags ==> tags[t].id == t)
    && (forall t, n :: t in tags && n in tags[t].notes ==> n < nextId)
  }

  /** The two sides of the Note<->Tag relation agree: a note's tags exist and
      list the note, and a tag that lists a stored note is one of its tags.
      A tag may still list the id of a deleted note. */
  ghost predicate LinksSymmetric(notes: map<NoteId, Note>, tags: map<TagId, Tag>) {
    && (forall n, t :: n in notes && t in notes[n].tags ==> t in tags && n in tags[t].notes)
    && (forall t, n :: t in tags && n in tags[t].notes && n in notes ==> t in notes[n].tags)
  }

  /** `a` is `b` except, at most, for whether `noteId` is one of its notes. */
  predicate SameTagExcept(a: Tag, b: Tag, noteId: NoteId) {
    a.id == b.id && a.name == b.name && a.userId == b.userId
    && a.notes - {noteId} == b.notes - {noteId}
  }

  predicate NoDuplicates(s: seq<TagId>) {
    forall i, j :: 0 <= i < j < |s| ==> s[i] != s[j]
  }

  /** validateOwnership: only the owner of a note may access it. */
  function ValidateOwnership(note: Note, currentUser: UserId): (r: Outcome)
    ensures r == Pass <==> note.userId == currentUser
    ensures r != Pass ==> r == Fail(NotAuthorized)
  {
    if note.userId == currentUser then Pass else Fail(NotAuthorized)
  }

  /** The hash set persistentTags that updateNote fills from the payload's
      tag ids: each id once, in the order of first occurrence. */
  function Distinct(ids: seq<TagId>): (r: seq<TagId>)
    ensures forall t :: t in r <==> t in ids
    ensures NoDuplicates(r)
    ensures |r| <= |ids|
  {
    if |ids| == 0 then []
    else
      var last := ids[|ids| - 1];
      var p := Distinct(ids[..|ids| - 1]);
      assert ids == ids[..|ids| - 1] + [last];
      if last in p then p else p + [last]
  }

  /** The stored note after updateNote has applied a payload to it: the
      mutable fields come from the payload, the notebook only when the payload
      names one, the tags only when the payload carries a tag set, and then
      exactly the payload's tags; identity, owner and to-do items are never
      touched. */
  function Updated(existing: Note, u: NoteUpdate): (n: Note)
    ensures n.id == existing.id && n.userId == existing.userId && n.todos == existing.todos
    ensures n.title == u.title && n.content == u.content
    ensures n.favorite == u.favorite && n.archived == u.archived
    ensures u.notebook.Some? ==> n.notebook == u.notebook
    ensures u.notebook.None? ==> n.notebook == existing.notebook
    ensures u.tags.Some? ==> NoDuplicates(n.tags) && forall t :: t in n.tags <==> t in u.tags.value
    ensures u.tags.None? ==> n.tags == existing.tags
  {
    existing.(
      title := u.title,
      content := u.content,
      favorite := u.favorite,
      archived := u.archived,
      notebook := if u.notebook.Some? then u.notebook else existing.notebook,
      tags := if u.tags.Some? then Distinct(u.tags.value) else existing.tags)
  }

  /** The tag store after the note `noteId` has been removed from the notes of
      every tag in `from`. */
  function Unlink(tags: map<TagId, Tag>, noteId: NoteId, from: seq<TagId>): (r: map<TagId, Tag>)
    ensures r.Keys == tags.Keys
    ensures forall t :: t in r ==> SameTagExcept(r[t], tags[t], noteId)
    ensures forall t :: t in r ==> (noteId in r[t].notes <==> noteId in tags[t].notes && t !in from)
  {
    map t | t in tags :: if t in from then tags[t].(notes := tags[t].notes - {noteId}) else tags[t]
  }

  /** The tag store after the note `noteId` has been added to the notes of
      every stored tag in `to`. */
  function Link(tags: map<TagId, Tag>, noteId: NoteId, to: seq<TagId>): (r: map<TagId, Tag>)
    ensures r.Keys == tags.Keys
    ensures forall t :: t in r ==> SameTagExcept(r[t], tags[t], noteId)
    ensures forall t :: t in r ==> (noteId in r[t].notes <==> noteId in tags[t].notes || t in to)
  {
    map t | t in tags :: if t in to then tags[t].(notes := tags[t].notes + {noteId}) else tags[t]
  }

  /** The tag store after updateNote's tag handling for the note `noteId`,
      whose tags were `previous`: untouched without a payload tag set;
      otherwise the note is unlinked from its previous tags and then linked
      into each new one, and no other membership changes. */
  function Retagged(tags: map<TagId, Tag>, noteId: NoteId, previous: seq<TagId>, u: NoteUpdate): (r: map<TagId, Tag>)
    ensures r.Keys == tags.Keys
    ensures forall t :: t in r ==> SameTagExcept(r[t], tags[t], noteId)
    ensures u.tags.None? ==> r == tags
    ensures u.tags.Some? ==> forall t :: t in r ==>
      (noteId in r[t].notes <==> t in u.tags.value || (noteId in tags[t].notes && t !in previous))
  {
    if u.tags.Some? then Link(Unlink(tags, noteId, previous), noteId, Distinct(u.tags.value)) else tags
  }

  /** updateNote keeps the Note<->Tag relation symmetric, with or without a
      payload tag set, provided every payload tag exists. */
  lemma UpdateKeepsLinksSymmetric(notes: map<NoteId, Note>, tags: map<TagId, Tag>, id: NoteId, u: NoteUpdate)
    requires id in notes
    requires LinksSymmetric(notes, tags)
    requires u.tags.Some? ==> forall t :: t in u.tags.value ==> t in tags
    ensures LinksSymmetric(notes[id := Updated(notes[id], u)], Retagged(tags, id, notes[id].tags, u))
  {
    var notes', tags' := notes[id := Updated(notes[id], u)], Retagged(tags, id, notes[id].tags, u);
    forall n, t | n in notes' && t in notes'[n].tags
      ensures t in tags' && n in tags'[t].notes
    {
      if n != id {
        assert n in tags[t].notes;
        assert n in tags'[t].notes - {id};
      }
    }
    forall t, n | t in tags' && n in tags'[t].notes && n in notes'
      ensures t in notes'[n].tags
    {
      if n != id {
        assert n in tags[t].notes - {id};
      }
    }
  }

  /** The note is removed from the notes of each previous tag, one tag at a
      time. */
  method UnlinkAll(tags: map<TagId, Tag>, noteId: NoteId, previous: seq<TagId>) returns (staged: map<TagId, Tag>)
    ensures staged == Unlink(tags, noteId, previous)
  {
    staged := tags;
    for i := 0 to |previous|
      invariant staged == Unlink(tags, noteId, previous[..i])
    {
      var t := previous[i];
      assert previous[..i + 1] == previous[..i] + [t];
      if t in staged {
        staged := staged[t := staged[t].(notes := staged[t].notes - {noteId})];
      }
    }
    assert previous[..|previous|] == previous;
  }

  /** Each payload tag id is looked up in the tag repository, in order; the
      first one missing aborts with its id. Otherwise the result is the set of
      resolved tags. `looked` lists the lookups made. */
  method ResolveTags(tags: map<TagId, Tag>, ids: seq<TagId>) returns (r: Result<seq<TagId>>, ghost looked: seq<TagId>)
    ensures r.Ok? <==> forall t :: t in ids ==> t in tags
    ensures r.Ok? ==> r.value == Distinct(ids) && looked == ids
    ensures r.Err? ==> && 0 < |looked| <= |ids| && looked == ids[..|looked|]
                       && r.error == TagNotFound(looked[|looked| - 1])
                       && looked[|looked| - 1] !in tags
                       && forall t :: t in looked[..|looked| - 1] ==> t in tags
    ensures r.Err? ==> && r.error.TagNotFound?
                       && exists k :: && 0 <= k < |ids| && ids[k] == r.error.tagId && ids[k] !in tags
                                      && forall i :: 0 <= i < k ==> ids[i] in tags
  {
    var persistent: seq<TagId> := [];
    looked := [];
    for i := 0 to |ids|
      invariant persistent == Distinct(ids[..i]) && looked == ids[..i]
      invariant forall t :: t in ids[..i] ==> t in tags
    {
      var t := ids[i];
      assert ids[..i + 1] == ids[..i] + [t];
      assert ids[..i + 1][..i] == ids[..i];
      looked := looked + [t];
      if t !in tags {
        assert forall j :: 0 <= j < i ==> ids[j] in ids[..i];
        return Err(TagNotFound(t)), looked;
      }
      if t !in persistent {
        persistent := persistent + [t];
      }
    }
    assert ids[..|ids|] == ids;
    r := Ok(persistent);
  }

  /** The note is added to the notes of each resolved tag, one tag at a
      time. */
  method LinkAll(tags: map<TagId, Tag>, noteId: NoteId, resolved: seq<TagId>) returns (staged: map<TagId, Tag>)
    requires forall t :: t in resolved ==> t in tags
    ensures staged == Link(tags, noteId, resolved)
  {
    staged := tags;
    for i := 0 to |resolved|
      invariant staged == Link(tags, noteId, resolved[..i])
    {
      var t := resolved[i];
      assert resolved[..i + 1] == resolved[..i] + [t];
      staged := staged[t := staged[t].(notes := staged[t].notes + {noteId})];
    }
    assert resolved[..|resolved|] == resolved;
  }

  /** The note service over its two repositories. */
  class NoteService {
    /** The note repository, by id. */
    var notes: map<NoteId, Note>
    /** The tag repository, by id. */
    var tags: map<TagId, Tag>
    /** The id the note repository gives the next note it inserts. */
    var nextId: NoteId
    /** Every note handed to the note repository's save, in order. */
    ghost var savedLog: seq<Note>
    /** Every id looked up in the tag repository, in order. */
    ghost var tagLookups: seq<TagId>

    ghost predicate Valid()
      reads this
    {
      StoreValid(notes, tags, nextId)
    }

    constructor (notes0: map<NoteId, Note>, tags0: map<TagId, Tag>, nextId0: NoteId)
      requires StoreValid(notes0, tags0, nextId0)
      ensures Valid()
      ensures notes == notes0 && tags == tags0 && nextId == nextId0
      ensures savedLog == [] && tagLookups == []
    {
      notes, tags, nextId := notes0, tags0, nextId0;
      savedLog, tagLookups := [], [];
    }

    /** Whether every tag id of the payload is in the tag repository. */
    predicate TagsResolvable(u: NoteUpdate)
      reads this
    {
      u.tags.Some? ==> forall t :: t in u.tags.value ==> t in tags
    }

    /** getNoteById: not found, not the caller's, or exactly the stored note. */
    function GetNoteById(id: NoteId, currentUser: UserId): (r: Result<Note>)
      reads this
      ensures r == Err(NoteNotFound) <==> id !in notes
      ensures r == Err(NotAuthorized) <==> id in notes && notes[id].userId != currentUser
      ensures r.Ok? <==> id in notes && notes[id].userId == currentUser
      ensures r.Ok? ==> r.value == notes[id]
    {
      if id !in notes then Err(NoteNotFound)
      else match ValidateOwnership(notes[id], currentUser)
        case Pass => Ok(notes[id])
        case Fail(e) => Err(e)
    }

    /** getNotesForCurrentUser: the caller's notes that are not archived. */
    function NotesForCurrentUser(currentUser: UserId): (r: set<Note>)
      reads this
      ensures forall id :: id in notes && notes[id].userId == currentUser && !notes[id].archived ==> notes[id] in r
      ensures forall n :: n in r ==> n in notes.Values && n.userId == currentUser && !n.archived
    {
      set id | id in notes && notes[id].userId == currentUser && !notes[id].archived :: notes[id]
    }

    /** getFavouriteNotesForCurrentUser: the caller's favourite notes. */
    function FavouriteNotesForCurrentUser(currentUser: UserId): (r: set<Note>)
      reads this
      ensures forall id :: id in notes && notes[id].userId == currentUser && notes[id].favorite ==> notes[id] in r
      ensures forall n :: n in r ==> n in notes.Values && n.userId == currentUser && n.favorite
    {
      set id | id in notes && notes[id].userId == currentUser && notes[id].favorite :: notes[id]
    }

    /** getArchivedNotesForCurrentUser: the caller's archived notes. */
    function ArchivedNotesForCurrentUser(currentUser: UserId): (r: set<Note>)
      reads this
      ensures forall id :: id in notes && notes[id].userId == currentUser && notes[id].archived ==> notes[id] in r
      ensures forall n :: n in r ==> n in notes.Values && n.userId == currentUser && n.archived
    {
      set id | id in notes && notes[id].userId == currentUser && notes[id].archived :: notes[id]
    }

    /** The note repository's save of a new note: it is stored under a fresh id. */
    method Insert(note: Note) returns (saved: Note)
      requires Valid()
      modifies this
      ensures Valid()
      ensures saved == note.(id := old(nextId)) && saved.id !in old(notes)
      ensures notes == old(notes)[saved.id := saved] && tags == old(tags)
      ensures nextId == old(nextId) + 1
      ensures savedLog == old(savedLog) + [saved] && tagLookups == old(tagLookups)
    {
      saved := note.(id := nextId);
      notes := notes[nextId := saved];
      nextId := nextId + 1;
      savedLog := savedLog + [saved];
    }

    /** createNote: the note is stamped with the caller as owner, whatever
        owner it carried, and saved exactly once. */
    method CreateNote(note: Note, currentUser: UserId) returns (saved: Note)
      requires Valid()
      modifies this
      ensures Valid()
      ensures saved == note.(id := old(nextId), userId := currentUser)
      ensures saved.id !in old(notes)
      ensures notes == old(notes)[saved.id := saved] && tags == old(tags)
      ensures nextId == old(nextId) + 1
      ensures savedLog == old(savedLog) + [saved] && tagLookups == old(tagLookups)
      ensures old(LinksSymmetric(notes, tags)) && note.tags == [] ==> LinksSymmetric(notes, tags)
    {
      var stamped := note.(userId := currentUser);
      saved := Insert(stamped);
    }

    /** deleteNote: not found, or the note is gone whoever owns it (there is
        no ownership check); nothing else changes. Its to-do items go with it. */
    method DeleteNote(id: NoteId) returns (r: Outcome)
      requires Valid()
      modifies this
      ensures Valid()
      ensures id !in old(notes) ==> r == Fail(EntityNotFound) && notes == old(notes)
      ensures id in old(notes) ==> r == Pass && notes == old(notes) - {id}
      ensures tags == old(tags) && nextId == old(nextId)
      ensures savedLog == old(savedLog) && tagLookups == old(tagLookups)
      ensures old(LinksSymmetric(notes, tags)) ==> LinksSymmetric(notes, tags)
    {
      if id !in notes {
        return Fail(EntityNotFound);
      }
      notes := notes - {id};
      r := Pass;
    }

    /** updateNote, as one transaction: it fails exactly as getNoteById does;
        it fails with the first unknown payload tag id, changing nothing and
        saving nothing; otherwise the stored note becomes Updated(existing, u),
        the tag store becomes Retagged(...), and the note is saved once. */
    method UpdateNote(u: NoteUpdate, currentUser: UserId) returns (r: Result<Note>)
      requires Valid()
      modifies this
      ensures Valid() && nextId == old(nextId)
      ensures old(GetNoteById(u.id, currentUser)).Err? ==>
        && r == old(GetNoteById(u.id, currentUser))
        && notes == old(notes) && tags == old(tags)
        && savedLog == old(savedLog) && tagLookups == old(tagLookups)
      ensures old(GetNoteById(u.id, currentUser)).Ok? && !old(TagsResolvable(u)) ==>
        && r.Err? && r.error.TagNotFound?
        && r.error.tagId in u.tags.value && r.error.tagId !in old(tags)
        && notes == old(notes) && tags == old(tags) && savedLog == old(savedLog)
      ensures old(GetNoteById(u.id, currentUser)).Ok? && old(TagsResolvable(u)) ==>
        var updated := Updated(old(notes[u.id]), u);
        && r == Ok(updated)
        && notes == old(notes)[u.id := updated]
        && tags == Retagged(old(tags), u.id, old(notes[u.id].tags), u)
        && savedLog == old(savedLog) + [updated]
      ensures u.tags.None? || r == Err(NoteNotFound) || r == Err(NotAuthorized) ==> tagLookups == old(tagLookups)
      ensures u.tags.Some? && r.Ok? ==> tagLookups == old(tagLookups) + u.tags.value
      ensures u.tags.Some? && r.Err? && r.error.TagNotFound? ==>
        && old(tagLookups) <= tagLookups
        && var looked := tagLookups[|old(tagLookups)|..];
        && looked <= u.tags.value
        && 0 < |looked| && looked[|looked| - 1] == r.error.tagId
        && forall t :: t in looked[..|looked| - 1] ==> t in old(tags)
      ensures u.tags.Some? && r.Err? && r.error.TagNotFound? ==>
        exists k :: && 0 <= k < |u.tags.value| && u.tags.value[k] == r.error.tagId && u.tags.value[k] !in old(tags)
                    && forall i :: 0 <= i < k ==> u.tags.value[i] in old(tags)
      ensures old(LinksSymmetric(notes, tags)) ==> LinksSymmetric(notes, tags)
    {
      var found := GetNoteById(u.id, currentUser);
      if found.Err? {
        return found;
      }
      var existing := found.value;
      var previous := existing.tags;

      existing := existing.(title := u.title, content := u.content, favorite := u.favorite, archived := u.archived);
      if u.notebook.Some? {
        existing := existing.(notebook := u.notebook);
      }

      var staged := tags;
      if u.tags.Some? {
        staged := UnlinkAll(staged, u.id, previous);
        var resolved;
        ghost var looked;
        resolved, looked := ResolveTags(staged, u.tags.value);
        tagLookups := tagLookups + looked;
        if resolved.Err? {
          assert tagLookups[|old(tagLookups)|..] == looked;
          return Err(resolved.error);
        }
        existing := existing.(tags := resolved.value);
        staged := LinkAll(staged, u.id, resolved.value);
      }
      assert existing == Updated(old(notes[u.id]), u);
      assert staged == Retagged(old(tags), u.id, previous, u);
      if LinksSymmetric(notes, tags) {
        UpdateKeepsLinksSymmetric(notes, tags, u.id, u);
      }

      // The transaction commits both repositories together.
      SaveUpdated(existing, staged);
      r := Ok(existing);
    }

    /** The note repository's save of an updated note, committed together
        with the tag repository the update has staged. */
    method SaveUpdated(note: Note, staged: map<TagId, Tag>)
      requires Valid() && note.id in notes
      requires staged.Keys == tags.Keys
      requires forall t :: t in staged ==> SameTagExcept(staged[t], tags[t], note.id)
      modifies this
      ensures Valid()
      ensures notes == old(notes)[note.id := note] && tags == staged && nextId == old(nextId)
      ensures savedLog == old(savedLog) + [note] && tagLookups == old(tagLookups)
    {
      notes, tags := notes[note.id := note], staged;
      savedLog := savedLog + [note];
      forall t, n | t in tags && n in tags[t].notes
        ensures n < nextId
      {
        if n != note.id {
          assert n in old(tags)[t].notes - {note.id};
        }
      }
    }
  }

  /** Only the owner can read a note: for two different callers at most one
      read of the same id succeeds. */
  lemma ReadIsOwnerOnly(svc: NoteService, id: NoteId, u: UserId, v: UserId)
    requires u != v
    ensures !(svc.GetNoteById(id, u).Ok? && svc.GetNoteById(id, v).Ok?)
  {
  }

  /** Every note the three per-user queries list can be read by that user
      through the ownership-checked read, and is returned unchanged by it. */
  lemma QueriedNotesAreReadable(svc: NoteService, u: UserId)
    requires svc.Valid()
    ensures forall n :: n in svc.NotesForCurrentUser(u) ==> svc.GetNoteById(n.id, u) == Ok(n)
    ensures forall n :: n in svc.FavouriteNotesForCurrentUser(u) ==> svc.GetNoteById(n.id, u) == Ok(n)
    ensures forall n :: n in svc.ArchivedNotesForCurrentUser(u) ==> svc.GetNoteById(n.id, u) == Ok(n)
  {
  }

  /** The active and archived listings split the caller's notes in two. */
  lemma ActiveAndArchivedPartition(svc: NoteService, u: UserId)
    ensures svc.NotesForCurrentUser(u) !! svc.ArchivedNotesForCurrentUser(u)
    ensures forall id :: id in svc.notes && svc.notes[id].userId == u ==>
      svc.notes[id] in svc.NotesForCurrentUser(u) + svc.ArchivedNotesForCurrentUser(u)
  {
  }

  /** Creating a note stamps the caller as owner; linking two tags records
      the note on both of them. */
  method CreateAndTagScenario()
  {
    var alpha := Tag(1, "alpha", "user1", {});
    var beta := Tag(2, "beta", "user1", {});
    var svc := new NoteService(map[], map[1 := alpha, 2 := beta], 1);
    var created := svc.CreateNote(Note(0, "A", "", "someone", false, false, None, [], []), "user1");
    assert created.userId == "user1" && created.id == 1;

    var r := svc.UpdateNote(NoteUpdate(1, "A", "", false, false, None, Some([1, 2])), "user1");
    assert r.Ok?;
    assert forall t :: t in svc.notes[1].tags <==> t in [1, 2];
    assert 1 in svc.tags[1].notes && 1 in svc.tags[2].notes;
  }

  /** Dropping one of two tags unlinks the note from that tag only. */
  method DropTagScenario()
  {
    var note := Note(1, "A", "", "user1", false, false, None, [1, 2], []);
    var alpha := Tag(1, "alpha", "user1", {1});
    var beta := Tag(2, "beta", "user1", {1});
    var svc := new NoteService(map[1 := note], map[1 := alpha, 2 := beta], 2);
    var r := svc.UpdateNote(NoteUpdate(1, "A", "", false, false, None, Some([1])), "user1");
    assert r.Ok?;
    assert 1 in svc.tags[1].notes && 1 !in svc.tags[2].notes;
  }

  /** A foreign caller and an unknown tag both leave the note as it was. */
  method RejectedUpdateScenario()
  {
    var note := Note(1, "A", "", "user1", false, false, None, [], []);
    var svc := new NoteService(map[1 := note], map[], 2);
    var r := svc.UpdateNote(NoteUpdate(1, "B", "", true, true, None, None), "user2");
    assert r == Err(NotAuthorized);
    r := svc.UpdateNote(NoteUpdate(1, "B", "", true, true, None, Some([99])), "user1");
    assert r == Err(TagNotFound(99));
    assert svc.notes[1].title == "A";
  }
}
