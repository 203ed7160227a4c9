# Course registration: a Dafny model

This project models the core of a student course-registration system. It covers two things.

The first is the backend's registration handler (`POST /register`). A student sends a list of
course ids. The handler either rejects the request with a message, or takes one seat from
each selected course and appends the selected ids to the student's list. The rules are
applied in this order:

1. ids the student already holds are dropped, and the request is refused as "already
   registered" if none are left;
2. ids with no course in the catalog are skipped;
3. the first selected course with no seat left refuses the request, naming that course;
4. the credits of the new courses plus those of the student's current courses may not
   exceed 20.

Every refusal happens before anything is written, so a request either has its whole effect
or none. The model also covers the handler that lists a student's courses
(`GET /my-courses`).

The second is a pure part of the administrator's page:

- the prerequisites field, which is parsed from a comma-separated string and formatted back
  with `", "`;
- the three updates of the locally held course list: replace by id, append, and remove by id.

Files:

- `wrappers.dfy`: `Option` and `Result`.
- `seqs.dfy`: associativity of concatenation, used by proofs in both modules.
- `models.dfy`: the course and user documents.
- `registration.dfy`: module `Registration`.
  - `Decide` states the handler's effect on values. `Admit` holds its rules after the first.
  - The class `Registry` holds the course collection and the user collection.
    `Registry.Register` runs the handler on that state and is proved to agree with `Decide`.
    Its two loops are the methods `SelectCourses` and `DeductSeats`.
  - The lemmas state what the handler promises.
- `admin.dfy`: module `Admin`, the prerequisites codec and the list updates.

The handler has no limit on the number of courses, no time-slot conflict check, no
prerequisite check, no drop operation, no per-user credit ceiling and no seat decrement that
is safe under concurrency, so none of these are modelled. The credit ceiling is the literal
20. The user's `maxCredits` field (backend/models/User.js) is never read.

Two behaviours of the code as written are modelled faithfully and stated as lemmas:

- A request that names at least one id the user lacks, none of which has a catalog entry,
  succeeds and changes nothing, provided the user's current credits are within the ceiling
  (`OnlyUnknownIdsIsNoOp`). If they are
  already over 20, the request is refused for credits even though it adds none.
- A course id named twice in one request is charged twice against the credit ceiling and
  appended twice to the list, but loses only one seat (`DuplicateIdDeductsOnce`). Each
  selected document is a copy read before any deduction, so both saves write the same count.

## Model

| member | source | states |
|---|---|---|
| `Registration.Registry.Register` | backend/routes/course.js:34-89 | An unknown user gets the message "User not found" and nothing changes. Otherwise a rejection answers with the message for `Decide`'s reason and leaves the catalog and the users as they were. An acceptance sets the catalog and that user's list to what `Decide` gives, and leaves every other user unchanged. |
| `Registration.Registry.SelectCourses` | backend/routes/course.js:50-63 | The selection loop ends at the first course found with no seat left, named in request order. Otherwise it yields the ids found in the catalog, in request order, with the sum of their credits. |
| `Registration.Registry.DeductSeats` | backend/routes/course.js:73-77 | Saving each selected document with one seat fewer takes exactly one seat from each selected course, even one selected twice. No other course changes, and the users are untouched. |
| `Registration.Registry.MyCourses` | backend/routes/course.js:92-101 | An unknown user gets the message "User not found". Otherwise the result is the stored courses of the user's list, with an absent list treated as empty. |
| `Registration.Message` | backend/routes/course.js:39-70 | The `msg` of each rejection, as the handler writes it. Only the "no seats" message ends in "t", and it starts with the course's name. |
| `Registration.MessagesDistinct` | backend/routes/course.js:39-70 | No two different rejections answer with the same message, so the client can tell the reasons apart. |
| `Registration.Decide` | backend/routes/course.js:44-80 | The handler's decision never reports an unknown user. It refuses as already registered exactly when no requested id is new. A "no seats" refusal names a requested course the user lacks that is full. A credit refusal means the new and current credits exceed 20. An acceptance keeps the catalog's keys and extends the user's list without changing what was there. |
| `Registration.Admit` | backend/routes/course.js:53-71 | Once the courses to add are known, a refusal is either "no seats", naming a full selected course, or the credit limit, when the sum exceeds 20. An acceptance means every selected course has a seat and the sum is within 20. |
| `Registration.NewIds` | backend/routes/course.js:45 | The ids kept are exactly the requested ids the user does not hold. There are never more than were requested. |
| `Registration.NewIdsAppend` | backend/routes/course.js:45 | The filter works piece by piece over a split request, so the kept ids stay in request order. |
| `Registration.Known` | backend/routes/course.js:53-55 | The ids kept are exactly those that have a course in the catalog. |
| `Registration.KnownAppend` | backend/routes/course.js:53-55 | Skipping unknown ids works piece by piece over a split list, so the order is kept. |
| `Registration.Full` | backend/routes/course.js:57 | A course counts as full when it is in the catalog with `seats <= 0`. An id with no course is never full. |
| `Registration.FirstFull` | backend/routes/course.js:53-59 | The position found holds a course with no seats left, and no earlier position does. Finding nothing means no course in the list is full. |
| `Registration.SumCredits` | backend/routes/course.js:61-67 | The credits of the listed courses, counting every occurrence and skipping ids with no course, so a repeated id is charged each time. If no course is worth negative credits, the sum is not negative. |
| `Registration.SumCreditsAppend` | backend/routes/course.js:61 | The credits of a list split in two are the sum of the credits of its parts. |
| `Registration.SumCreditsKnown` | backend/routes/course.js:55-61 | Ids with no course add nothing to a credit sum. |
| `Registration.KnownDistinct` | backend/routes/course.js:66 | Skipping ids with no course and dropping repeats give the same list in either order. |
| `Registration.CurrentCredits` | backend/routes/course.js:66-67 | The current credits are the sum over the user's distinct ids. Ids with no course count nothing, and a repeated id counts once. |
| `Registration.Deducted` | backend/routes/course.js:73-77 | The catalog keeps its keys and every course its name, credits and timeslot. Each course named in the list loses exactly one seat, however often it is named, and every other course keeps its seats. |
| `Registration.Distinct` | backend/routes/course.js:66-67 | The query by `$in` yields the same courses as the list, each once. |
| `Registration.AlreadyRegisteredExactly` | backend/routes/course.js:44-48 | The request is refused as already registered exactly when every requested id is already held. An empty request is refused this way. |
| `Registration.UnknownIdSkipped` | backend/routes/course.js:53-55 | Adding an id with no catalog entry anywhere in a request does not change the outcome, provided the request still names an id the user lacks. |
| `Registration.OnlyUnknownIdsIsNoOp` | backend/routes/course.js:45-84 | A request that names at least one id the user lacks, none of which has a catalog entry, succeeds and changes nothing, provided the user's current credits are within the ceiling. |
| `Registration.NoSeatsNamesFirstFull` | backend/routes/course.js:53-59 | If some new course is full, the request is refused, and the message names the first full course in request order. |
| `Registration.AcceptedWithinCeiling` | backend/routes/course.js:61-71 | On success, the credits of the new courses plus those of the user's distinct stored courses are at most 20. |
| `Registration.AcceptedListWithinCeiling` | backend/routes/course.js:61-81 | On success, if no course has negative credits, the user's new list, with credits recomputed as the handler does, is within 20. |
| `Registration.AcceptedSeats` | backend/routes/course.js:57-77 | On success, the catalog has the same keys. Names, credits and timeslots are unchanged. Exactly the requested courses the user lacked lose one seat each, and none goes below zero. |
| `Registration.AcceptedList` | backend/routes/course.js:45-80 | On success, the new list is the old list followed by the requested ids the user lacked that have a catalog entry, in request order. No id already held is added again. |
| `Registration.DuplicateIdDeductsOnce` | backend/routes/course.js:53-80 | A new course named twice is charged twice against the ceiling, appended twice to the list, and loses one seat. |
| `Registration.Resolve` | backend/routes/course.js:94 | The list's ids without a stored course are dropped. The others become their course, in order. |
| `Admin.IsSpace` | frontend/src/components/Admin.js:49 | The characters `trim` removes: ASCII space, tab, line feed, vertical tab, form feed and carriage return. None of them is above the space character, and none is the comma. |
| `Admin.TrimStart` | frontend/src/components/Admin.js:49 | The result is a suffix of the input. Everything removed is whitespace, and the result does not start with whitespace. |
| `Admin.TrimEnd` | frontend/src/components/Admin.js:49 | The result is a prefix of the input. Everything removed is whitespace, and the result does not end with whitespace. |
| `Admin.Trim` | frontend/src/components/Admin.js:49 | The result is a slice of the input with no whitespace at either end, and everything removed before and after it is whitespace. |
| `Admin.TrimTrimmed` | frontend/src/components/Admin.js:49 | Trimming leaves an already trimmed entry unchanged. |
| `Admin.TrimAfterSpace` | frontend/src/components/Admin.js:49 | Trimming removes the space placed before a trimmed entry. |
| `Admin.Split` | frontend/src/components/Admin.js:49 | Splitting on "," yields one piece more than the number of commas, and no piece contains a comma. |
| `Admin.JoinSplit` | frontend/src/components/Admin.js:49 | Joining the pieces with "," gives back the string, so the pieces partition it. |
| `Admin.ParsePrerequisites` | frontend/src/components/Admin.js:49 | An empty field gives no prerequisites. A non-empty field gives one entry per comma plus one, each trimmed and free of commas. |
| `Admin.Join` | frontend/src/components/Admin.js:78 | The entries with the separator between each two, as `join(sep)` gives them. An empty list gives the empty string, and otherwise the result starts with the first entry. |
| `Admin.FormatPrerequisites` | frontend/src/components/Admin.js:78 | A course with no prerequisites shows an empty field. A non-empty list of comma-free entries gives a field with one comma fewer than there are entries. |
| `Admin.JoinCommas` | frontend/src/components/Admin.js:78 | Joining comma-free entries with a separator holding one comma gives one comma fewer than there are entries. |
| `Admin.CommasAppend` | frontend/src/components/Admin.js:49-78 | The commas of two strings put together are the commas of each added up. |
| `Admin.ParsePieces` | frontend/src/components/Admin.js:49 | Each parsed entry is the matching comma-separated piece of the field, trimmed. |
| `Admin.EmptyField` | frontend/src/components/Admin.js:49-78 | A course with no prerequisites, absent or an empty list, formats as "". An empty field parses to no prerequisites. |
| `Admin.SplitFormatted` | frontend/src/components/Admin.js:78 | Splitting a list joined with ", " yields the first entry, then each later entry with a leading space. |
| `Admin.ParseFormatRoundTrip` | frontend/src/components/Admin.js:49-78 | Parsing the formatted list gives the list back when every entry is comma-free and trimmed, unless the list is one empty entry, which formats as an empty field. |
| `Admin.ReplaceById` | frontend/src/components/Admin.js:56 | The list keeps its length. Every row with the edited id becomes the server's copy, and every other row is unchanged in place. |
| `Admin.ReplaceByIdAbsent` | frontend/src/components/Admin.js:56 | Updating an id no row has leaves the list unchanged. |
| `Admin.ReplaceThenRemove` | frontend/src/components/Admin.js:56-86 | Updating a course and then deleting it is the same as deleting it. |
| `Admin.AddRow` | frontend/src/components/Admin.js:64 | The created course is appended at the end, and the earlier rows are unchanged. |
| `Admin.AddThenRemove` | frontend/src/components/Admin.js:64-86 | Creating a course with a new id and then deleting it restores the list. |
| `Admin.RemoveById` | frontend/src/components/Admin.js:86 | No remaining row has the deleted id. Every row with another id remains, and nothing new appears. |
| `Admin.RemoveByIdAppend` | frontend/src/components/Admin.js:86 | Deleting works piece by piece over a split list, so the remaining rows keep their order. |
| `Admin.RemoveByIdAbsent` | frontend/src/components/Admin.js:86 | Deleting an id no row has leaves the list unchanged. |
| `Admin.RemoveByIdIdempotent` | frontend/src/components/Admin.js:86 | Deleting twice is the same as deleting once. |

## Left out

- Persistence and awaits. The document-store calls become reads and writes of two maps.
  The handler is treated as one atomic step. The race between the seat check and the
  deduction under concurrent requests is not modelled.
- Exceptions that the handlers turn into "Server error" (status 500) are not modelled. Examples
  are a malformed id that the store cannot cast, or a body without `courseIds`.
- Token verification (`auth`) and the administrator middleware are library calls. The model
  receives an already authenticated user id.
- The course listing (`GET /`), the administrator's create, update and delete routes, and
  the seeding script are thin wrappers over the document store. The model has no rules for
  them.
- The administrator page's rendering, routing, local storage, HTTP calls and dialogs are not
  modelled. Only the prerequisites expressions and the three list updates are.
- Registration.Registry.Register: the success response carries the whole catalog as a map.
  The order in which the store lists the courses is not modelled. Nor are the HTTP status
  codes (404 and 400) or the fixed success message; a rejection carries its message only.
- Registration.Registry.MyCourses: it assumes the store's `populate` drops ids that have no
  course and keeps the list's order and repeats.
- Registration.AcceptedListWithinCeiling: it holds only if no course has negative credits.
  The handler itself does not check the sign of credits.
- Course and user ids are taken in one canonical form and compared as strings. The handler
  compares the requested id with the stored ids by `includes`, which compares strings, while
  the document store converts the string before a lookup. So the same course written in two
  spellings, such as upper- and lower-case hex digits, is not modelled.
- `Number(...)` coercion of the form's credits and seats is JavaScript float parsing, and is
  not modelled. Credits and seats are integers.
- Admin.Trim: it removes only ASCII whitespace (space, tab, line feed, vertical tab, form
  feed, carriage return). JavaScript's `trim` also removes the other Unicode whitespace
  characters.
- The course schema has no prerequisites field, so the store drops prerequisites on save,
  and a course from the server formats as "". The model takes the row's prerequisites as
  given.
