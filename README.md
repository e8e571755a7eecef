# Notes backend: note service and date format, modelled in Dafny

This project models two parts of the notes backend (a Spring application for
personal notes with tags, notebooks and to-do items):

- **The note service.** It covers:
  - the ownership-checked read of a note;
  - stamping the caller as owner when a note is created;
  - deleting a note;
  - the three per-user listings (active, favourite, archived);
  - updating a note. An update overwrites the note's fields and, when the
    payload carries a tag set, rebuilds the two-way Note<->Tag relation:
    unlink the old tags, resolve every incoming tag id, replace the note's
    tags, link the note into each resolved tag.
- **The date format.** `dd.MM.yyyy HH:mm` is used both to print and to read
  minute-precision local date-times.

Files:

- `wrappers.dfy` (`Wrappers`): `Option`, which stands for a nullable
  reference or a failed parse.
- `entities.dfy` (`Entities`): the entities as values:
  - `Note` and `Tag`;
  - `Todo`, which lives inside its note;
  - `NoteUpdate`, the update payload;
  - the service's exceptions, as the `Error` values of a `Result`.
- `note_service.dfy` (`NoteServices`): the service.
  - The class `NoteService` holds:
    - the note repository and the tag repository, as maps from id to entity;
    - the note id generator;
    - two ghost logs, one of every note handed to the note repository's
      `save` and one of every id looked up in the tag repository.
  - The caller's identity is a `currentUser` argument.
  - `CreateNote`, `DeleteNote` and `Insert` state their new state outright.
    `UpdateNote` is proved against the value-level specification functions
    `Updated` and `Retagged`, and its loops against `Unlink`, `Distinct` and
    `Link`.
  - `UpdateKeepsLinksSymmetric` proves that the symmetry of the
    Note<->Tag relation (`LinksSymmetric`) survives an update. `CreateNote`
    and `DeleteNote` state in their contracts that it survives them.
  - Three scenario methods replay the unit-test situations on a concrete
    service. `CreateAndTagScenario` creates a note and links two tags.
    `DropTagScenario` drops one of two tags. `RejectedUpdateScenario` tries a
    foreign caller and an unknown tag.
- `date_format.dfy` (`DateFormat`): `Format` and `Parse` over a
  `LocalDateTime` record.
  - Parsing follows java.time's default smart resolution. A day the month
    lacks (29-31) becomes the month's last day. `24:00` is midnight at the
    start of the next day.
  - The `yyyy` year-of-era field is handled as java.time handles it strictly:
    - a year before 1 prints as its year of era;
    - a year of era above 9999 prints with a `+` and more digits;
    - parsing reads exactly four unsigned digits, or a `+` with five to
      nineteen digits, and so reads such wide years back.
  - Round trips are proved both ways. Rejection and no-trimming are proved
    too, along with the examples of the unit tests.
  - Parsing does not trim surrounding whitespace. The model follows
    DateFormatUtil.java:28 as written. The test at DateFormatUtilTest.java:36-47
    is tagged as an open bug: it asks for trimming, as a wanted change.

Behaviour modelled as the code has it:

- `deleteNote` deletes any existing note, whoever owns it. It makes no
  ownership check.
- `getNoteById` and `deleteNote` raise different not-found errors:
  `NoteNotFound` and `EntityNotFound` respectively.
- The payload's tag ids are resolved in order, and the first unknown one
  aborts the update with its id.
- The tag ownership of payload tags is not checked: a caller can link their
  note to another user's tag.

## Model

| member | source | states |
|---|---|---|
| NoteServices.ValidateOwnership | src/main/java/ch/hadzic/nikola/notesapp/data/service/NoteService.java:118-122 | passes exactly when the note's owner is the caller, otherwise fails with the authorisation error |
| NoteServices.Distinct | src/main/java/ch/hadzic/nikola/notesapp/data/service/NoteService.java:99-104 | the resolved tag set holds exactly the payload's ids, each once, and is no longer than the payload |
| NoteServices.Updated | src/main/java/ch/hadzic/nikola/notesapp/data/service/NoteService.java:80-107 | title, content, favorite and archived come from the payload; the notebook only when the payload names one; the tags, when a tag set is given, are exactly its ids without duplicates; id, owner and to-do items are kept |
| NoteServices.Unlink | src/main/java/ch/hadzic/nikola/notesapp/data/service/NoteService.java:92-96 | same tags; the note is a member of a tag afterwards exactly when it was and the tag is not one of the old tags; nothing else in any tag changes |
| NoteServices.Link | src/main/java/ch/hadzic/nikola/notesapp/data/service/NoteService.java:108-112 | same tags; the note is a member of a tag afterwards exactly when it was or the tag is one of the new tags; nothing else changes |
| NoteServices.Retagged | src/main/java/ch/hadzic/nikola/notesapp/data/service/NoteService.java:89-113 | without a tag set the tag store is unchanged; with one, the note belongs to a tag exactly when the tag is in the payload, or it belonged before and the tag was not one of the note's old tags; no other membership changes |
| NoteServices.UpdateKeepsLinksSymmetric | src/main/java/ch/hadzic/nikola/notesapp/data/service/NoteService.java:89-113 | an update whose payload tags all exist keeps the Note<->Tag relation symmetric in both directions |
| NoteServices.UnlinkAll | src/main/java/ch/hadzic/nikola/notesapp/data/service/NoteService.java:93-95 | the loop over the old tags yields the store Unlink specifies |
| NoteServices.ResolveTags | src/main/java/ch/hadzic/nikola/notesapp/data/service/NoteService.java:99-104 | succeeds exactly when every payload id is a stored tag, then with the distinct ids after looking up every payload id in order; otherwise fails with an unknown id at some position before which every payload id is known (the first unknown one), after looking up only the ids up to it |
| NoteServices.LinkAll | src/main/java/ch/hadzic/nikola/notesapp/data/service/NoteService.java:108-112 | the loop over the resolved tags yields the store Link specifies |
| NoteServices.NoteService.constructor | src/main/java/ch/hadzic/nikola/notesapp/data/service/NoteService.java:30-34 | a service over the given repositories with empty logs |
| NoteServices.NoteService.GetNoteById | src/main/java/ch/hadzic/nikola/notesapp/data/service/NoteService.java:62-68 | not-found exactly when the id is absent; the authorisation error exactly when the note belongs to someone else; otherwise the stored note itself |
| NoteServices.NoteService.NotesForCurrentUser | src/main/java/ch/hadzic/nikola/notesapp/data/service/NoteService.java:44-48 | every stored non-archived note of the caller, and only stored notes of the caller that are not archived |
| NoteServices.NoteService.FavouriteNotesForCurrentUser | src/main/java/ch/hadzic/nikola/notesapp/data/service/NoteService.java:50-54 | every stored favourite note of the caller, and only such notes |
| NoteServices.NoteService.ArchivedNotesForCurrentUser | src/main/java/ch/hadzic/nikola/notesapp/data/service/NoteService.java:56-60 | every stored archived note of the caller, and only such notes |
| NoteServices.NoteService.Insert | src/main/java/ch/hadzic/nikola/notesapp/data/service/NoteService.java:41 | the repository's save of a new note: stored under a fresh id, logged once, nothing else changes |
| NoteServices.NoteService.CreateNote | src/main/java/ch/hadzic/nikola/notesapp/data/service/NoteService.java:36-42 | the saved note is the input with the caller as owner, whatever owner it carried, stored under a fresh id and saved exactly once; the tag store is unchanged |
| NoteServices.NoteService.DeleteNote | src/main/java/ch/hadzic/nikola/notesapp/data/service/NoteService.java:70-74 | a missing id fails with not-found and changes nothing; an existing note is removed whoever owns it, every other note and the tag store unchanged |
| NoteServices.NoteService.UpdateNote | src/main/java/ch/hadzic/nikola/notesapp/data/service/NoteService.java:76-116 | read errors pass through with nothing changed and no lookup; an unknown payload tag fails with the first unknown id in payload order, nothing changed and nothing saved; otherwise the note becomes Updated, the tags Retagged, the note is saved once, every payload id is looked up (none without a tag set), and link symmetry is kept |
| NoteServices.NoteService.SaveUpdated | src/main/java/ch/hadzic/nikola/notesapp/data/service/NoteService.java:115 | the note repository's save of the updated note, committed with the staged tag store |
| NoteServices.ReadIsOwnerOnly | src/main/java/ch/hadzic/nikola/notesapp/data/service/NoteService.java:118-122 | for two different callers at most one read of a note succeeds |
| NoteServices.QueriedNotesAreReadable | src/main/java/ch/hadzic/nikola/notesapp/data/service/NoteService.java:44-68 | every note a listing returns is returned unchanged by the caller's ownership-checked read |
| NoteServices.ActiveAndArchivedPartition | src/main/java/ch/hadzic/nikola/notesapp/data/service/NoteService.java:44-60 | the active and the archived listing are disjoint and together cover all the caller's notes |
| DateFormat.DaysInMonth | src/main/java/ch/hadzic/nikola/notesapp/util/DateFormatUtil.java:27-29 | 31 days for months 1, 3, 5, 7, 8, 10, 12, 30 for 4, 6, 9, 11, and February has 29 exactly in leap years |
| DateFormat.PadDigits | src/main/java/ch/hadzic/nikola/notesapp/util/DateFormatUtil.java:12 | a zero-padded field is exactly its width long and all decimal digits |
| DateFormat.DigitsOfPad | src/main/java/ch/hadzic/nikola/notesapp/util/DateFormatUtil.java:12 | reading a zero-padded number that fits its width gives the number back |
| DateFormat.PadOfDigits | src/main/java/ch/hadzic/nikola/notesapp/util/DateFormatUtil.java:12 | padding the value of a digit string to its length gives the string back |
| DateFormat.YearOfEra | src/main/java/ch/hadzic/nikola/notesapp/util/DateFormatUtil.java:12 | the year of era is positive and is the year itself from year 1 on |
| DateFormat.YearValue | src/main/java/ch/hadzic/nikola/notesapp/util/DateFormatUtil.java:12 | the strict "yyyy" field reads exactly four unsigned digits, or a '+' with five to nineteen digits, as the number they denote; nothing else |
| DateFormat.YearText | src/main/java/ch/hadzic/nikola/notesapp/util/DateFormatUtil.java:12 | up to 9999 the year of era in exactly four digits; above, a '+' followed by exactly its digits, no leading zeros; the year field reads back as the year of era |
| DateFormat.Format | src/main/java/ch/hadzic/nikola/notesapp/util/DateFormatUtil.java:14-16 | the text has the shape of the pattern, its day, month, hour and minute fields denote those of the date-time, its year field is the year-of-era text; for years 1-9999 it is the sixteen-character layout |
| DateFormat.ClampDay | src/main/java/ch/hadzic/nikola/notesapp/util/DateFormatUtil.java:27-29 | a day the month has is kept, any other becomes the month's last day |
| DateFormat.NextDay | src/main/java/ch/hadzic/nikola/notesapp/util/DateFormatUtil.java:27-29 | the following calendar day at the same time, rolling over month and year ends, for every day but the last a LocalDateTime holds |
| DateFormat.Parse | src/main/java/ch/hadzic/nikola/notesapp/util/DateFormatUtil.java:27-29 | a result only for a text with the shape and a year field "yyyy" reads, and then a valid date-time from year 1 on with zero seconds and nanoseconds |
| DateFormat.ParseAccepts | src/main/java/ch/hadzic/nikola/notesapp/util/DateFormatUtil.java:27-29 | parse succeeds exactly when the shape holds, the year field is readable, day is 1-31, month 1-12, year 1-999999999, minute below 60, and the hour below 24, or 24 with minute 0 on any day but the last one representable |
| DateFormat.ParseOfFormat | src/test/java/ch/hadzic/nikola/notesapp/util/DateFormatUtilTest.java:13-19 | parsing the output of format returns the original date-time, for every year from 1 on with zero seconds and nanoseconds |
| DateFormat.FormatOfParse | src/main/java/ch/hadzic/nikola/notesapp/util/DateFormatUtil.java:18-29 | formatting a parsed date-time gives the text back when resolution did not alter it (no clamped day, no hour 24) and a wide year field has no leading zeros |
| DateFormat.FormatDropsEra | src/main/java/ch/hadzic/nikola/notesapp/util/DateFormatUtil.java:12-16 | a year before 1 prints the same text as the positive year it mirrors |
| DateFormat.WideYearFormat | src/main/java/ch/hadzic/nikola/notesapp/util/DateFormatUtil.java:12-16 | a year above 9999 prints with a '+' and its digits, longer than sixteen characters |
| DateFormat.WideYearExample | src/main/java/ch/hadzic/nikola/notesapp/util/DateFormatUtil.java:12-29 | "01.01.+10000 00:00" parses to 10000-01-01 00:00, which formats back to that text |
| DateFormat.YearSignExamples | src/main/java/ch/hadzic/nikola/notesapp/util/DateFormatUtil.java:27-29 | five unsigned year digits and a '+' with four digits are both rejected |
| DateFormat.NoTrimming | src/main/java/ch/hadzic/nikola/notesapp/util/DateFormatUtil.java:28 | a non-digit character in front of or behind any text makes it unparsable: there is no trimming |
| DateFormat.FormatExample | src/test/java/ch/hadzic/nikola/notesapp/util/DateFormatUtilTest.java:13-19 | 2025-11-11 22:00 formats as "11.11.2025 22:00" and parses back |
| DateFormat.EpochExample | src/test/java/ch/hadzic/nikola/notesapp/util/DateFormatUtilTest.java:25-26 | "01.01.1970 00:00" parses to 1970-01-01 00:00 |
| DateFormat.RejectionExamples | src/test/java/ch/hadzic/nikola/notesapp/util/DateFormatUtilTest.java:28-31 | the ISO layout, out-of-range fields and (as at line 45, where the test asks for trimming) surrounding whitespace are rejected |
| DateFormat.ClampExample | src/main/java/ch/hadzic/nikola/notesapp/util/DateFormatUtil.java:27-29 | "31.02.2025 10:00" resolves to 2025-02-28 10:00 |
| DateFormat.LeapDayExample | src/main/java/ch/hadzic/nikola/notesapp/util/DateFormatUtil.java:27-29 | "29.02.2024 10:00" is 2024-02-29 10:00 |
| DateFormat.EndOfDayExample | src/main/java/ch/hadzic/nikola/notesapp/util/DateFormatUtil.java:27-29 | "31.12.2025 24:00" resolves to 2026-01-01 00:00 |

## Left out

- The security context (NoteService.java:124-126) is an explicit `currentUser` argument.
- JPA and Hibernate are not modelled. The repositories are maps, and `save` writes the entity back. Flushing, entity identity, and the `createdAt`/`updatedAt` timestamps the store manages are not modelled.
- NoteServices.NoteService.UpdateNote is atomic. Before an unknown tag aborts the update, Java has already run the setters on the managed note (NoteService.java:80-87) and unlinked the old tags in memory (lines 93-95). Only the surrounding transaction rolls that back; with mocked repositories nothing does. The model returns the pre-state instead.
- NoteServices.NoteService.CreateNote always assigns a fresh id. Java's `save` of a note that already carries an id would overwrite a stored note instead.
- NoteServices.NoteService.CreateNote does not fill in the inverse side of the note's initial tags. That is done by the join-table mapping, which is not part of this model. For this reason the contract promises link symmetry only for a note created without tags.
- Deleting a note leaves its id in the tags that listed it. The mapping that would clean up the join table is not part of this model, and the symmetry invariant tolerates such dangling ids.
- To-do items live inside their note's value, so a deleted note's to-dos vanish with it. The cascade mapping itself is not part of this model.
- The order of the listings is not modelled: they are sets of notes. The repository queries themselves are derived queries whose code is not shown.
- Java hash sets iterate in an order the model does not know. Each tag set is held as a sequence in some order, and the "first unknown tag" is the first in that order. `hashCode`/`equals` effects on sets (NoteService.java:105-106) are not modelled.
- Nulls are not modelled, apart from the payload's nullable notebook and tag set, which are `Option`s. This covers the null collections guarded at NoteService.java:92 and :109, the null input to `parse`, and null fields.
- DateFormat.Format requires a valid `LocalDateTime`, which every Java `LocalDateTime` is.
- Notebooks are ids only. The notebook service is not part of this model.
