# SIGE school-management API: a verified model of its service rules

SIGE is a web API for running schools. It stores users, students, teachers, classes (*turmas*),
enrollments (*matrículas*), teacher–subject assignments, sign-in sessions, attendance, grades,
payments and announcements in a relational store. Almost all of it is plumbing; this project models
the parts that hold rules:

- **Store** (`models.dfy`, `tables.dfy`): the database context becomes one class, `Models.Db`,
  whose fields are tables. A `Table<T>` maps identities to rows and carries the next identity the
  store will issue. The invariant `Snapshot.Inv()` holds the store's unique indexes on the tables
  the services write (except the enrollment number's), the foreign keys from students to their
  accounts, from enrollments to their class and student and from assignments to their teacher,
  and two uniqueness rules the services maintain: one enrollment per student and class, and one
  assignment per teacher, subject and year. Every write method requires it and keeps it. The
  `Models.InvOf…` lemmas split it per table. Password hashing is an injective function `Hash`
  with its check `VerifyPassword`.
- **Responses and paging** (`common_dto.dfy`): the `Ok`/`Error` response factories, the paging
  envelope with `HasNextPage`/`HasPreviousPage`, the `Skip((page-1)*pageSize).Take(pageSize)`
  page, and the page count as an integer ceiling division.
- **Services**, one module each:
  - `TurmaService`: class listing with clamped paging, code normalisation and uniqueness,
    creation, update, cascading delete and status change. Its core is the roster reconciliation
    `Sincronizar`, with the enrollment-number format `T000-A0000-XXXXXX`.
  - `AlunoService` (students), `ProfessorService` (teachers and their subject assignments) and
    `UsuarioService` (user accounts): filtered listings, uniqueness checks before writes,
    dependency checks before deletes, the student soft/hard delete, and student/account status
    coupling.
  - `AuthService`: sign-in, sign-out, token renewal and token check over a session table with an
    eight-hour expiry, plus the password operations.
- **Controllers**:
  - `UsuariosController`: page and size normalisation, the photo-upload checks, and how each
    service result becomes an HTTP status.
  - `Dashboard`: the headline counts and attendance share, the per-category statistics, the alert
    list and the recent-activity feed.
- **Validators** (`validators.dfy`, with string helpers in `text.dfy`): the rules of
  `CommonValidators`, with the CPF, CEP, telephone and password-complexity patterns written as
  recognisers. `Program.cs` registers no FluentValidation, so none of these rules runs on a
  request: they are modelled as written, standing apart from the services.

### How a write operation is modelled

Each write operation has three parts:

1. A function on table values, such as `TurmaService.DeleteTurmaOf`. It states the response and
   the new tables.
2. A method on `Db`, such as `TurmaService.DeleteTurma`. It changes the fields it names in
   `modifies`, and its `ensures` equates the response and new fields with that function applied
   to the old fields.
3. Lemmas about the function: what it rejects and what it stores (`…Rejects`, `…Stores`,
   `…Outcome`), and that it preserves the store invariant (`…KeepsInv`).

Exceptions the store raises look like this:

- A unique index violated at `SaveChanges` makes the call throw. This is the `Throws` case of
  `Wrappers.Call`.
- The class, student and teacher services catch it and answer an error response.
- The user and auth services let it escape, and the controller answers 500
  (`UsuariosController.WriteResponse`).
- When a method saves twice, the first save's rows stay.

Time is an integer clock (seconds). Other nondeterministic inputs are parameters:

- the JWT token text;
- the GUID of each new enrollment number;
- the result of the `EmailAddress()` rule;
- the birth-date window;
- `ModelState.IsValid`.

### Paging

- The student and teacher listings pass page and size to the store unchanged. The store runs
  `Skip`/`Take` as SQLite's `LIMIT … OFFSET …`, where a negative offset skips nothing and a
  negative limit is no limit (`CommonDto.Limit`).
  - A size of 0 gives an empty page (`AlunoService.GetAlunosZeroSize`).
  - A negative size lists every match from the offset on
    (`AlunoService.GetAlunosNegativeSize`, `ProfessorService.GetProfessoresNegativeSize`).
- The class listing clamps page and size to the nearest bound (`TurmaService.ListingPageSize`).
- The users controller replaces an out-of-range size by 15
  (`UsuariosController.NormalisePageSize`).

## Model

Functions that only compute, such as the services' `…Of` write functions, `Dashboard.Ultimas`
and the alert and activity lists, have no row of their own: the rows of the lemmas and methods
about them state their properties.

| member | source | states |
|---|---|---|
| CommonDto.Ok | DTOs/CommonDto.cs:14-15 | an Ok response succeeds and carries the data, message and status code, without errors |
| CommonDto.Error | DTOs/CommonDto.cs:17-18 | an Error response fails, carries no data, and keeps message, status code and errors |
| CommonDto.FactoryOfResponse | DTOs/CommonDto.cs:14-18 | every response the factories build is rebuilt from its own fields by Ok when it succeeded and by Error when it failed |
| CommonDto.FactoriesBuild | DTOs/CommonDto.cs:14-18 | both factories build well-formed responses, and an Ok response never equals an Error one |
| CommonDto.DefaultParameters | DTOs/CommonDto.cs:32-38 | the defaults Page = 1 and PageSize = 15 lie in the declared ranges |
| CommonDto.CeilDiv | Services/AlunoService.cs:54 | the page count for a positive size is the least number of pages that holds every item |
| CommonDto.CeilDivZero | Services/AlunoService.cs:54 | an empty listing has zero pages |
| CommonDto.Limit | Services/AlunoService.cs:58 | `Take` run by the store as SQLite's LIMIT: a prefix of the rows, of the requested length (or all rows when fewer) for a count of 0 or more, and every row for a negative count |
| CommonDto.PageOf | Services/AlunoService.cs:56-58 | the page as the store runs it: at most `pageSize` items for a size of 0 or more, the slice at the offset, empty past the end; for a negative size (no limit) every item from the clamped offset on |
| CommonDto.OffsetBounds | Services/AlunoService.cs:57 | from page 1 on the offset is non-negative and the page ends where the next begins |
| CommonDto.PageIsSlice | Services/AlunoService.cs:56-58 | whatever the page and size, a page is one contiguous slice of the listing |
| CommonDto.PageIndex | Services/AlunoService.cs:56-58 | the i-th item of a page is the listing's item at the page start plus i |
| CommonDto.PageSorted | Services/ProfessorService.cs:46-50 | a page of an ordered listing is ordered |
| CommonDto.BuildPage | DTOs/CommonDto.cs:21-30 | the envelope holds the page's items, echoes page and size, counts every item and, for a positive size, the ceiling page count |
| CommonDto.HasNextPageIffItemsRemain | DTOs/CommonDto.cs:28 | from page 1 on, HasNextPage holds exactly when items remain after the page |
| CommonDto.CeilDivAbove | DTOs/CommonDto.cs:28 | a page number is below the page count exactly when items remain after it |
| CommonDto.SortedPage | Services/ProfessorService.cs:46-50 | a page of the listing sorted by a total preorder is sorted and holds only listed elements |
| CommonDto.PagePastEndEmpty | Services/AlunoService.cs:54-58 | a page past the last is empty |
| CommonDto.FirstAndEmptyPages | DTOs/CommonDto.cs:28-29 | page 1 has no previous page, every later page has one, and an empty listing has no next page |
| CommonDto.PagesPrefix | Services/AlunoService.cs:56-58 | pages 1..k concatenated are the first k*pageSize items |
| CommonDto.TakeThenSkip | Services/AlunoService.cs:57-58 | the first o items followed by the d after them are the first o+d |
| CommonDto.PagesPartitionListing | Services/AlunoService.cs:53-59 | pages 1..TotalPages concatenated are the listing: no item is lost or shown twice |
| CommonDto.PageBeforeFirst | Services/AlunoService.cs:57 | a page number below 1 skips nothing and shows page 1 |
| CommonDto.BuildPagePages | Services/AlunoService.cs:53-70 | for a positive size the envelope's pages partition the listing, a page past the last is empty and a page below 1 is the first |
| CommonDto.NegativeSizePages | Services/AlunoService.cs:53-70 | with a negative size page 1 holds every item, and no next page is announced from page 1 on |
| CommonDto.Wrap32 | Services/AlunoService.cs:57 | the 32-bit result lies in the Int32 range and equals the exact value when that fits |
| CommonDto.Int32OffsetWraps | Services/AlunoService.cs:57 | with PageSize 100, page 21474838 overflows the Int32 offset, which turns negative, so that page repeats page 1 instead of being empty |
| AlunoService.MatchingAlunos | Services/AlunoService.cs:30-51 | the filtered students are exactly the stored students matching search (name, code or CPF), school and status, each once, in ascending identity |
| AlunoService.GetAlunos | Services/AlunoService.cs:53-72 | the listing always succeeds; the envelope echoes page and size, counts every match and holds at most `pageSize` items when the size is 0 or more |
| AlunoService.GetAlunosItems | Services/AlunoService.cs:56-59 | every student on a page is a stored student passing the filters, in ascending identity |
| AlunoService.GetAlunosPages | Services/AlunoService.cs:53-59 | pages 1..TotalPages concatenated give the whole filtered listing; a page past the last is empty; a page below 1 shows page 1 |
| AlunoService.GetAlunosZeroSize | Services/AlunoService.cs:54-58 | a size of zero gives an empty page that announces no next page |
| AlunoService.GetAlunosNegativeSize | Services/AlunoService.cs:54-58 | a negative size is no limit: page 1 lists every matching student, and no next page is announced |
| AlunoService.AddUsuarioKeepsInv | Services/AlunoService.cs:157-169 | the new account, with a fresh e-mail and no CPF, keeps the user table's unique indexes |
| AlunoService.AddAlunoKeepsInv | Services/AlunoService.cs:172-177 | a student with fresh code and CPF, linked to an account no student has, keeps the student table's unique indexes |
| AlunoService.CreateAlunoRejects | Services/AlunoService.cs:134-151 | creation fails exactly for a taken e-mail, CPF or code or an unknown school, with the service's messages in the service's order; a failure stores no student |
| AlunoService.CreateAlunoStores | Services/AlunoService.cs:153-181 | a success adds exactly one active student account (name, e-mail, initial password verified, creation times) and exactly one student linked to it; nothing else changes |
| AlunoService.CreateAlunoLeavesUser | Services/AlunoService.cs:168-177 | when only the second save is refused, the account stays without a student and its e-mail blocks every retry |
| AlunoService.CreateAlunoKeepsInv | Services/AlunoService.cs:130-187 | creation keeps the store invariant |
| AlunoService.CreateAluno | Services/AlunoService.cs:130-187 | the method's response and new tables are those of the creation function, on a store that keeps its invariant, and keeps it |
| AlunoService.CreateAlunoSteps | Services/AlunoService.cs:130-187 | the steps of the operation, one store call at a time, give the response and new tables of the specification |
| AlunoService.UpdateAlunoRejects | Services/AlunoService.cs:193-213 | an update fails exactly for an unknown student, a clashing e-mail or CPF, a missing account or an unknown school, with the service's messages; a failure changes nothing |
| AlunoService.UpdateAlunoStores | Services/AlunoService.cs:215-223 | a success renames the account and sets its e-mail and time, replaces the student's data and status, and keeps its code, account, enrollment date and every other row |
| AlunoService.UpdateAlunoSucceeds | Services/AlunoService.cs:189-227 | in a consistent store an update of a stored student without clashes, naming a stored school, succeeds |
| AlunoService.UpdateAlunoKeepsInv | Services/AlunoService.cs:189-232 | an update keeps the store invariant |
| AlunoService.UpdatedUsuarioKeepsInv | Services/AlunoService.cs:216-218 | changing one account's e-mail to one no other account has keeps the user indexes |
| AlunoService.UpdatedAlunoKeepsInv | Services/AlunoService.cs:221 | changing a student's data to a CPF no other student has keeps the student indexes |
| AlunoService.UpdateAluno | Services/AlunoService.cs:189-232 | the method's response and new tables are those of the update function, on a store that keeps its invariant, and keeps it |
| AlunoService.DeleteAlunoOutcomes | Services/AlunoService.cs:238-266 | an unknown student gives 404 and no change; a student with enrollments or grades becomes transferred with an inactive account; any other is removed with its account |
| AlunoService.DeleteAlunoSucceeds | Services/AlunoService.cs:234-272 | in a consistent store the removal of a stored student succeeds |
| AlunoService.DeleteAlunoKeepsInv | Services/AlunoService.cs:247-264 | a removal keeps the store invariant: nothing is left pointing at a removed student or account |
| AlunoService.StatusChangeKeepsInv | Services/AlunoService.cs:253-256 | the soft delete, which changes only two status fields, keeps the invariant |
| AlunoService.HardDeleteKeepsInv | Services/AlunoService.cs:259-263 | the hard delete of a student without history keeps the invariant |
| AlunoService.DeleteAluno | Services/AlunoService.cs:234-272 | the method's response and new tables are those of the removal function, on a store that keeps its invariant, and keeps it |
| AlunoService.DeleteAlunoSteps | Services/AlunoService.cs:234-272 | the steps of the operation, one store call at a time, give the response and new tables of the specification |
| AlunoService.GetAlunosByTurma | Services/AlunoService.cs:278-288 | the listing always succeeds and lists stored students only |
| AlunoService.GetAlunosByTurmaSound | Services/AlunoService.cs:279 | every listed student has an active enrollment in the class |
| AlunoService.GetAlunosByTurmaComplete | Services/AlunoService.cs:278-285 | every stored student with an active enrollment in the class is listed |
| AlunoService.GetAlunosByTurmaNoDup | Services/AlunoService.cs:278-285 | with enrollments unique per class and student, no student is listed twice |
| AlunoService.ChangeStatusCouples | Services/AlunoService.cs:300-315 | a status change succeeds exactly for a stored student with its account; the account is then active exactly when the student is Matriculado, and only the two status fields and the time of change move |
| AlunoService.ChangeStatusKeepsInv | Services/AlunoService.cs:296-321 | a status change keeps the store invariant |
| AlunoService.ChangeStatus | Services/AlunoService.cs:296-321 | the method's response and new tables are those of the status-change function, on a store that keeps its invariant, and keeps it |
| ProfessorService.ProfessorOrderIsTotalOrder | Services/ProfessorService.cs:47 | ordering by full name (ordinal) is a total preorder |
| ProfessorService.MatchingProfessores | Services/ProfessorService.cs:25-43 | the filtered teachers are exactly the stored teachers matching school, status and a non-blank search in name, CPF or code |
| ProfessorService.GetProfessores | Services/ProfessorService.cs:45-62 | the listing always succeeds with its message; the envelope echoes page and size, counts every match and holds at most `pageSize` items when the size is 0 or more |
| ProfessorService.GetProfessoresNegativeSize | Services/ProfessorService.cs:45-62 | a negative size is no limit: page 1 lists every matching teacher in name order, and no next page is announced |
| ProfessorService.GetProfessoresItems | Services/ProfessorService.cs:46-50 | every teacher on a page is a stored teacher passing the filters, and the page is ordered by name |
| ProfessorService.BlankSearchIgnored | Services/ProfessorService.cs:37 | a search made only of white space filters nothing |
| ProfessorService.GetProfessoresPages | Services/ProfessorService.cs:45-59 | the sorted listing is a permutation of the matches; its pages 1..TotalPages concatenated give it whole; a page past the last is empty |
| ProfessorService.CreateProfessorRejects | Services/ProfessorService.cs:96-121 | a CPF or code in use is refused first, then an unknown school with 404; a refusal changes nothing; a creation adds one active teacher admitted now with the form's code and data |
| ProfessorService.CreateProfessorAlwaysRefused | Services/ProfessorService.cs:108-113 | a created teacher keeps UsuarioId 0, which no account has, so the store's foreign key refuses every creation |
| ProfessorService.CreateProfessorKeepsInv | Services/ProfessorService.cs:92-127 | creation keeps the store invariant |
| ProfessorService.CreateProfessor | Services/ProfessorService.cs:92-127 | the method's response and new tables are those of the creation function; on a store that keeps its invariant, so does the result |
| ProfessorService.UpdateProfessorOutcome | Services/ProfessorService.cs:133-159 | an update fails exactly for an unknown teacher (404), a CPF another teacher has, or an unknown school, and then changes nothing; otherwise only that teacher's data and status change |
| ProfessorService.UpdatedProfessorKeepsKeys | Services/ProfessorService.cs:140-146 | changing a teacher's data, keeping its code, to a CPF no other teacher has keeps CPF and code unique |
| ProfessorService.AtribuicoesAfterPut | Services/ProfessorService.cs:146-149 | rewriting a stored teacher keeps every assignment's teacher stored |
| ProfessorService.UpdateProfessorKeepsInv | Services/ProfessorService.cs:129-165 | an update keeps the store invariant |
| ProfessorService.UpdateProfessor | Services/ProfessorService.cs:129-165 | the method's response and new tables are those of the update function, on a store that keeps its invariant, and keeps it |
| ProfessorService.DeleteProfessorOutcome | Services/ProfessorService.cs:171-185 | a removal succeeds exactly for a stored teacher without assignments and removes only it; an unknown teacher gives 404 |
| ProfessorService.DeleteProfessorKeepsInv | Services/ProfessorService.cs:167-191 | a removal keeps the store invariant: no assignment points at a removed teacher |
| ProfessorService.DeleteProfessor | Services/ProfessorService.cs:167-191 | the method's response and new tables are those of the removal function, on a store that keeps its invariant, and keeps it |
| ProfessorService.ChangeStatusOutcome | Services/ProfessorService.cs:307-316 | a status change succeeds exactly for a stored teacher, changes only its status, and different statuses give different messages |
| ProfessorService.Unwrap | Services/ProfessorService.cs:316 | the text between a fixed prefix and suffix determines the whole message |
| ProfessorService.ChangeStatusKeepsInv | Services/ProfessorService.cs:303-322 | a status change keeps the store invariant |
| ProfessorService.ChangeStatus | Services/ProfessorService.cs:303-322 | the method's response and new tables are those of the status-change function, on a store that keeps its invariant, and keeps it |
| ProfessorService.AtribuirOutcome | Services/ProfessorService.cs:245-272 | an assignment succeeds exactly for a stored teacher and subject not yet assigned that year, then adds exactly that active row; afterwards the triple is assigned |
| ProfessorService.AtribuirKeepsInv | Services/ProfessorService.cs:241-278 | assignments keep the (teacher, subject, year) triples unique and their teachers stored |
| ProfessorService.AtribuicoesAfterAdd | Services/ProfessorService.cs:253-270 | recording a triple not yet assigned, for a stored teacher, keeps the assignment invariant |
| ProfessorService.Atribuir | Services/ProfessorService.cs:241-278 | the method's response and new table are those of the assignment function, on a store that keeps its invariant, and keeps it |
| ProfessorService.AtribuirSteps | Services/ProfessorService.cs:241-278 | the steps of the operation, one store call at a time, give the response and new tables of the specification |
| ProfessorService.TripleRows | Services/ProfessorService.cs:284-287 | the rows found record the triple, and none is found exactly when the triple is not assigned |
| ProfessorService.RemoverOutcome | Services/ProfessorService.cs:284-295 | a removal succeeds exactly when the triple is recorded, removes one row of it, and with unique triples leaves it unassigned; otherwise 404 and no change |
| ProfessorService.AtribuirRemoverRoundTrip | Services/ProfessorService.cs:241-301 | assigning a new triple and removing it gives back the assignments |
| ProfessorService.OnlyNewRow | Services/ProfessorService.cs:284-287 | after a new triple is added, the first row found for it is the new one |
| ProfessorService.RemoverKeepsInv | Services/ProfessorService.cs:280-301 | a removal keeps the store invariant |
| ProfessorService.Remover | Services/ProfessorService.cs:280-301 | the method's response and new table are those of the removal function, on a store that keeps its invariant, and keeps it |
| ProfessorService.GetDisciplinas | Services/ProfessorService.cs:197-210 | the listing always succeeds with its message and lists stored subjects only |
| ProfessorService.GetDisciplinasSound | Services/ProfessorService.cs:200-206 | every subject listed is assigned to the teacher (in the year) |
| ProfessorService.GetDisciplinasComplete | Services/ProfessorService.cs:197-207 | every stored subject assigned to the teacher (in the year) is listed |
| ProfessorService.GetDisciplinasNoDup | Services/ProfessorService.cs:197-207 | with unique triples, the list for one year names no subject twice |
| ProfessorService.GetTurmasProfessor | Services/ProfessorService.cs:223-233 | the listing always succeeds with its message and has no duplicates |
| ProfessorService.GetTurmasProfessorSound | Services/ProfessorService.cs:223-231 | every class listed is stored and has a timetable entry of the teacher (in the year) |
| ProfessorService.GetTurmasProfessorComplete | Services/ProfessorService.cs:223-231 | every stored class with a timetable entry of the teacher (in the year) is listed, once |
| TurmaService.NormalizeCode | Services/TurmaService.cs:99 | a normalised class code has no leading or trailing white space, no lower-case letter, and is never longer than the input |
| TurmaService.NormalizeCodeIdempotent | Services/TurmaService.cs:99 | normalising a normalised code changes nothing |
| TurmaService.NormalizedIsFixed | Services/TurmaService.cs:150 | a code that is already trimmed and upper-case is its own normal form |
| TurmaService.UpperOfTrimmed | Services/TurmaService.cs:99 | upper-casing a trimmed code keeps it trimmed and leaves no lower-case letter |
| TurmaService.UpperOfUpper | Services/TurmaService.cs:99 | upper-casing a code without lower-case letters changes nothing |
| TurmaService.ListingPage | Services/TurmaService.cs:25 | the page used is at least 1 and equals the requested page whenever that is at least 1 |
| TurmaService.ListingPageSize | Services/TurmaService.cs:26 | the size used lies in [1, 100]; an in-range size is kept, a smaller one becomes 1, a larger one 100 |
| TurmaService.TurmaOrderIsTotalOrder | Services/TurmaService.cs:52-53 | year descending, then name ascending, is a total, transitive order |
| TurmaService.MatchingTurmas | Services/TurmaService.cs:28-48 | the filtered classes are exactly the stored classes that pass the search, course, year and status filters |
| TurmaService.GetTurmas | Services/TurmaService.cs:50-68 | the listing always succeeds with the clamped page and size, counts every match, and holds at most the clamped size of items |
| TurmaService.GetTurmasItemsMatch | Services/TurmaService.cs:54-55 | every class on a page is a stored class passing the filters |
| TurmaService.GetTurmasSorted | Services/TurmaService.cs:52-55 | every page is ordered by year descending, then name ascending |
| TurmaService.TurmasSorted | Services/TurmaService.cs:52-53 | sorting the matches by that order gives a sorted sequence |
| TurmaService.GetTurmasPages | Services/TurmaService.cs:50-65 | the sorted listing is a permutation of the matches, pages 1..TotalPages concatenated give all of it, and a page past the last is empty |
| TurmaService.GuidSuffix | Services/TurmaService.cs:353 | the random part of an enrollment number is six upper-case hexadecimal characters |
| TurmaService.ParseLayout | Services/TurmaService.cs:351-354 | a string laid out as `T`, digits, `-A`, digits, `-`, suffix reads back as those two numbers and that suffix |
| TurmaService.ParseFieldValues | Services/TurmaService.cs:351-354 | once both separators are located, the fields read back as the numbers and suffix they hold |
| TurmaService.ParseSteps | Services/TurmaService.cs:351-354 | the reader finds the class field ending at the first `-` and the student field ending at the next one |
| TurmaService.ParseFields | Services/TurmaService.cs:351-354 | `T` + digits + `-A` + digits + `-` + suffix reads back as those two numbers and that suffix |
| TurmaService.NumeroMatriculaRoundTrip | Services/TurmaService.cs:351-354 | an enrollment number determines its class id, student id and random suffix |
| TurmaService.NumeroMatriculaLength | Services/TurmaService.cs:351-354 | an enrollment number is 10 characters plus both padded fields: 17 for small ids, more than 20 for class ids of five digits and student ids of six |
| TurmaService.AlunosValidos | Services/TurmaService.cs:328-334 | the students to enroll are exactly the requested, existing, not yet enrolled students, each once |
| TurmaService.NovasMatriculas | Services/TurmaService.cs:336-347 | one new Active enrollment per valid student, in order, each in this class and year with a number built from the class and the student |
| TurmaService.Kept | Services/TurmaService.cs:313-326 | after the removal, the remaining enrollments are exactly those of other classes and those of this class whose student is still requested, unchanged |
| TurmaService.Validos | Services/TurmaService.cs:312-334 | the valid new students are exactly the requested students that exist and are not on the class roster, each once |
| TurmaService.SincronizarWf | Services/TurmaService.cs:305-349 | reconciliation keeps the enrollment table well formed and issues exactly one fresh identity per new enrollment; a null list issues none |
| TurmaService.SincronizarRows | Services/TurmaService.cs:312-347 | the reconciled table keeps every enrollment not dropped unchanged and holds one new enrollment per valid student from the old next identity on |
| TurmaService.AddAllReconciled | Services/TurmaService.cs:336-347 | appending the new enrollments to the kept rows gives the reconciled table |
| TurmaService.AddAllKeepsOld | Services/TurmaService.cs:336-347 | appending new enrollments leaves every kept row in place |
| TurmaService.AddAllAddsNew | Services/TurmaService.cs:336-347 | the appended rows take the identities from the old next identity on, in order |
| TurmaService.RosterAddAll | Services/TurmaService.cs:336-347 | adding enrollments adds exactly their students to the roster of the class |
| TurmaService.RosterKept | Services/TurmaService.cs:313-326 | after the removal, the roster is the old roster restricted to the requested students |
| TurmaService.RosterNovas | Services/TurmaService.cs:336-347 | the new enrollments put exactly the valid students on the roster |
| TurmaService.SincronizarRoster | Services/TurmaService.cs:312-347 | after reconciliation, the class roster equals the distinct requested ids that were enrolled before or name an existing student |
| TurmaService.ValidosElements | Services/TurmaService.cs:328-334 | the valid students are the requested, existing students minus the roster |
| TurmaService.RosterAlgebra | Services/TurmaService.cs:312-334 | kept members plus added students equal the requested ids among the members and existing students |
| TurmaService.SincronizarKeeps | Services/TurmaService.cs:313-326 | enrollments of other classes and of still-requested students stay unchanged; those of dropped students are removed |
| TurmaService.SincronizarNewRows | Services/TurmaService.cs:336-347 | each row the reconciliation adds is an Active enrollment of a valid student in this class and year, numbered from the class and the student |
| TurmaService.ReconciledNewRows | Services/TurmaService.cs:336-347 | every row of a reconciled table that was not there before is such a new enrollment |
| TurmaService.SincronizarEnrollsEachNewStudent | Services/TurmaService.cs:331-347 | every requested, existing student not yet on the roster gets a new enrollment in the class |
| TurmaService.ReconciledEnrolls | Services/TurmaService.cs:336-347 | each valid student has a new row in the reconciled table |
| TurmaService.SincronizarPreservesLinks | Services/TurmaService.cs:305-349 | reconciliation keeps (student, class) pairs unique and every enrollment pointing at a stored class and student |
| TurmaService.ReconciledUnique | Services/TurmaService.cs:312-347 | a reconciled table has no two enrollments of one student in one class |
| TurmaService.NewVersusNew | Services/TurmaService.cs:336-347 | two new enrollments never share a student |
| TurmaService.NewVersusOld | Services/TurmaService.cs:328-347 | a new enrollment never repeats the (student, class) pair of a kept one |
| TurmaService.ReconciledLinks | Services/TurmaService.cs:331-347 | every row of a reconciled table points at a stored class and student |
| TurmaService.SincronizarEmptyList | Services/TurmaService.cs:312-326 | an empty list leaves the class with no enrollments |
| TurmaService.SincronizarIdempotent | Services/TurmaService.cs:305-349 | reconciling again with the same list and the same students changes nothing, whatever GUIDs and clock the second run gets; a null list never changes anything |
| TurmaService.KeptAll | Services/TurmaService.cs:313-326 | when every enrolled student is requested, nothing is removed |
| TurmaService.ValidosNone | Services/TurmaService.cs:328-334 | when every requested existing student is enrolled already, nobody is added |
| TurmaService.SincronizarKeepsInv | Services/TurmaService.cs:305-349 | reconciliation preserves the enrollment-table invariant |
| TurmaService.SincronizarMatriculas | Services/TurmaService.cs:305-349 | removing the dropped enrollments and adding the new ones one by one leaves exactly the reconciled table, and keeps the enrollment-table invariant when it held before |
| TurmaService.AddTurmaKeepsCodes | Services/TurmaService.cs:100-125 | storing a class whose code no class uses keeps class codes unique |
| TurmaService.PutTurmaKeepsCodes | Services/TurmaService.cs:151-173 | rewriting a class with a code no other class uses keeps class codes unique |
| TurmaService.LinksToMoreTurmas | Services/TurmaService.cs:121-128 | enrollment links stay valid when classes are added |
| TurmaService.CreateTurmaRejects | Services/TurmaService.cs:99-119 | create fails exactly when the normalised code is in use, the course is missing or a named coordinator is missing; a failure changes no table and carries no data |
| TurmaService.CreateTurmaStores | Services/TurmaService.cs:121-132 | a created class takes the next identity, stores the normalised code and the form's fields, and is returned |
| TurmaService.CreateTurmaRoster | Services/TurmaService.cs:127-128 | a created class is enrolled with exactly the requested students that exist, or none for a null list |
| TurmaService.NoRosterOfNewTurma | Services/TurmaService.cs:121-128 | no enrollment refers to the identity a new class will get |
| TurmaService.CreateTurmaKeepsEnrollments | Services/TurmaService.cs:121-128 | creating a class leaves every existing enrollment unchanged |
| TurmaService.CreateTurmaKeepsInv | Services/TurmaService.cs:95-138 | create preserves the store invariant |
| TurmaService.CreateTurma | Services/TurmaService.cs:95-138 | the method's response and new tables are those of the create specification, on a store that keeps its invariant, and keeps it |
| TurmaService.CreateTurmaSteps | Services/TurmaService.cs:95-138 | the steps of the operation, one store call at a time, give the response and new tables of the specification |
| TurmaService.UpdateTurmaResponse | Services/TurmaService.cs:144-169 | a successful update names a stored class |
| TurmaService.UpdateTurmaRejects | Services/TurmaService.cs:144-169 | update fails exactly when the class is missing, another class has the normalised code, a named coordinator is missing or the course is missing; a failure changes nothing; a missing class gives 404 |
| TurmaService.UpdateTurmaStores | Services/TurmaService.cs:171-179 | a successful update rewrites only that class with the normalised code and the form's fields, and reconciles its roster (unchanged for a null list) |
| TurmaService.UpdateTurmaKeepsInv | Services/TurmaService.cs:140-185 | update preserves the store invariant |
| TurmaService.UpdateTurma | Services/TurmaService.cs:140-185 | the method's response and new tables are those of the update specification, on a store that keeps its invariant, and keeps it |
| TurmaService.UpdateTurmaSteps | Services/TurmaService.cs:140-185 | the steps of the operation, one store call at a time, give the response and new tables of the specification |
| TurmaService.EnrollmentsOf | Services/TurmaService.cs:191-203 | the enrollments collected for deletion are exactly those of the class |
| TurmaService.DeleteTurmaRemoves | Services/TurmaService.cs:187-214 | delete succeeds iff the class exists; then the class and all its enrollments are gone and every other class and enrollment is unchanged; otherwise nothing changes |
| TurmaService.DeleteTurmaKeepsInv | Services/TurmaService.cs:187-214 | delete preserves the store invariant |
| TurmaService.DeleteTurma | Services/TurmaService.cs:187-214 | the method's response and new tables are those of the delete specification, on a store that keeps its invariant, and keeps it |
| TurmaService.ChangeStatusChangesOnlyStatus | Services/TurmaService.cs:216-235 | a status change succeeds iff the class exists, changes only that class's status and keeps codes unique |
| TurmaService.ChangeStatus | Services/TurmaService.cs:216-235 | the method's response and new table are those of the status-change specification, on a store that keeps its invariant, and keeps it |
| TurmaService.ChangeStatusKeepsInv | Services/TurmaService.cs:216-235 | a status change preserves the store invariant |
| AuthService.LoginOutcome | Services/AuthService.cs:27-55 | sign-in gives null exactly when no active user with the e-mail has a hash that verifies the password; on success it returns that user's token with expiry now + 8 h and adds exactly that one session; when another session already holds the token the unique index makes the call throw; otherwise nothing changes |
| AuthService.AddSessionKeepsInv | Services/AuthService.cs:39-47 | adding a session with an unused token keeps tokens unique |
| AuthService.LoginKeepsInv | Services/AuthService.cs:27-55 | sign-in preserves the store invariant |
| AuthService.Login | Services/AuthService.cs:27-55 | the method's result and new session table are those of the sign-in specification, on a store that keeps its invariant, and keeps it |
| AuthService.LogoutOutcome | Services/AuthService.cs:57-69 | sign-out is true exactly when a session has the token; it then removes exactly one such session and none is left; otherwise nothing changes |
| AuthService.LogoutKeepsInv | Services/AuthService.cs:57-69 | sign-out preserves the store invariant |
| AuthService.Logout | Services/AuthService.cs:57-69 | the method's result and new session table are those of the sign-out specification, on a store that keeps its invariant, and keeps it |
| AuthService.RefreshOutcome | Services/AuthService.cs:71-86 | renewal gives null exactly when no session whose user is in the store has the token with expiry after now (the session is loaded with its user by an inner join); otherwise it returns the new token and changes only that session's token and expiry (now + 8 h) |
| AuthService.RefreshKeepsInv | Services/AuthService.cs:71-86 | renewal preserves the store invariant |
| AuthService.Refresh | Services/AuthService.cs:71-86 | the method's result and new session table are those of the renewal specification, on a store that keeps its invariant, and keeps it |
| AuthService.VerifyToken | Services/AuthService.cs:128-134 | the check is true exactly when some session has the token and expires after now |
| AuthService.VerifyAgreesWithRefresh | Services/AuthService.cs:71-134 | at one instant a renewal that does not give null follows a passing check; when every session names a stored user the check is true exactly when renewal does not give null, and otherwise they differ only on a session whose user is gone |
| AuthService.LoginLogoutRoundTrip | Services/AuthService.cs:36-68 | a token from sign-in is accepted until eight hours later and never after sign-out |
| AuthService.RefreshMovesToken | Services/AuthService.cs:80-82 | after renewal the new token is accepted and the old one belongs to no session |
| AuthService.ChangePasswordOutcome | Services/AuthService.cs:88-100 | the change succeeds exactly when the user exists and the current password verifies; then only that user's hash and update time change, the new password verifies and a different old one no longer does; otherwise nothing changes |
| AuthService.ChangePasswordKeepsInv | Services/AuthService.cs:88-100 | a password change preserves the store invariant |
| AuthService.ChangePassword | Services/AuthService.cs:88-100 | the method's result and new user table are those of the password-change specification, on a store that keeps its invariant, and keeps it |
| AuthService.ForgotPassword | Services/AuthService.cs:102-113 | the answer is true exactly when some user, of any status, has the e-mail; nothing changes |
| AuthService.ResetPassword | Services/AuthService.cs:115-120 | a reset never succeeds |
| UsuarioService.UsuarioOrderIsTotalOrder | Services/UsuarioService.cs:33 | ordering by name is total and transitive |
| UsuarioService.MatchingUsuarios | Services/UsuarioService.cs:25-30 | the filtered users are exactly the stored users whose name or e-mail contains a non-empty search, or all of them |
| UsuarioService.SortedUsuarios | Services/UsuarioService.cs:32-33 | the sorted listing is a permutation of the matching users |
| UsuarioService.GetAll | Services/UsuarioService.cs:32-36 | a page holds at most `pageSize` users for a size of 0 or more; a negative size is no limit, so page 1 holds every matching user |
| UsuarioService.GetAllItems | Services/UsuarioService.cs:23-39 | every user on a page is a stored user matching the search, and the page is ordered by name |
| UsuarioService.GetAllPages | Services/UsuarioService.cs:32-36 | with a positive size, pages 1..ceil(n/size) concatenated give the whole sorted listing, every match is on it, and a page past the last is empty |
| UsuarioService.NovoUsuario | Services/UsuarioService.cs:58-61 | the stored user keeps the form's e-mail and CPF, holds a hash that verifies the password, is dated now and has no photo |
| UsuarioService.CreateOutcome | Services/UsuarioService.cs:47-67 | creation gives null exactly for a used e-mail or a used non-empty CPF; the unique index throws for an empty CPF already stored; otherwise exactly one user is added under the next identity, and only then does the table change |
| UsuarioService.AddKeepsInv | Services/UsuarioService.cs:63-64 | adding a user whose e-mail and CPF are unused keeps both unique |
| UsuarioService.CreateKeepsInv | Services/UsuarioService.cs:47-67 | creation preserves the store invariant |
| UsuarioService.Create | Services/UsuarioService.cs:47-67 | the method's result and new user table are those of the creation specification, on a store that keeps its invariant, and keeps it |
| UsuarioService.UpdateOutcome | Services/UsuarioService.cs:69-89 | update gives null exactly for an unknown user, an e-mail another user has or a non-empty CPF another user has; otherwise only that user changes, taking the form's fields and now as update time and keeping hash, creation date and photo |
| UsuarioService.PutKeepsInv | Services/UsuarioService.cs:84-87 | rewriting a user with an e-mail and CPF no other user has keeps both unique |
| UsuarioService.UpdateKeepsInv | Services/UsuarioService.cs:69-89 | update preserves the store invariant |
| UsuarioService.Update | Services/UsuarioService.cs:69-89 | the method's result and new user table are those of the update specification, on a store that keeps its invariant, and keeps it |
| UsuarioService.DeleteOutcome | Services/UsuarioService.cs:91-109 | delete is true exactly when the user exists and no school, student, teacher or guardian refers to it; then exactly that user is removed; otherwise nothing changes |
| UsuarioService.DeleteKeepsInv | Services/UsuarioService.cs:91-109 | delete preserves the store invariant |
| UsuarioService.Delete | Services/UsuarioService.cs:91-109 | the method's result and new user table are those of the delete specification, on a store that keeps its invariant, and keeps it |
| UsuarioService.UpdateStatusOutcome | Services/UsuarioService.cs:111-122 | the status change is false exactly for an unknown user; otherwise only that user's status and update time change |
| UsuarioService.UpdateStatusKeepsInv | Services/UsuarioService.cs:111-122 | a status change preserves the store invariant |
| UsuarioService.UpdateStatus | Services/UsuarioService.cs:111-122 | the method's result and new user table are those of the status-change specification, on a store that keeps its invariant, and keeps it |
| UsuariosController.NormalisePage | Controllers/UsuariosController.cs:33 | the page used is at least 1; a page below 1 becomes 1 and any other is kept |
| UsuariosController.NormalisePageSize | Controllers/UsuariosController.cs:34 | the size used lies in [1, 100]; an in-range size is kept and any other becomes 15, not the nearest bound |
| UsuariosController.NormaliseIdempotent | Controllers/UsuariosController.cs:33-34 | normalising twice is normalising once, and 101 becomes 15 rather than 100 |
| UsuariosController.GetUsuarios | Controllers/UsuariosController.cs:28-38 | the listing holds at most the normalised size of users, so never more than 100 |
| UsuariosController.GetUsuariosItems | Controllers/UsuariosController.cs:28-38 | every listed user is a stored user matching the search |
| UsuariosController.WriteResponse | Controllers/UsuariosController.cs:67-72 | a null from the service is the given failure answer, a user is the success status, an escaped store error is a 500 |
| UsuariosController.CreateUsuarioStatus | Controllers/UsuariosController.cs:61-73 | creation answers 201 exactly when a valid form's user was inserted, the duplicate message with 400 exactly when a valid form's e-mail or non-empty CPF is in use, and changes nothing unless it answers 201 |
| UsuariosController.UpdateUsuarioStatus | Controllers/UsuariosController.cs:81-93 | update answers 404 exactly when a valid form names an unknown user or a used e-mail or non-empty CPF; 200 only for a stored user; nothing changes unless it answers 200 |
| UsuariosController.DeleteUsuarioStatus | Controllers/UsuariosController.cs:100-109 | delete answers 204 exactly when the user exists without dependents, and then only that user is gone; otherwise it answers 400 with the dependency message and changes nothing |
| UsuariosController.UpdateStatusStatus | Controllers/UsuariosController.cs:117-126 | the status change answers 200 exactly for a stored user, whose status it sets; otherwise 404 and nothing changes |
| UsuariosController.UploadCheck | Controllers/UsuariosController.cs:134-147 | the photo reaches the service exactly when present, non-empty, of one of the four image types in any case and at most 5 MiB; the missing-file message comes exactly for a missing or empty file, the type message exactly for a non-empty file of another type, and the size message exactly for an allowed type over 5 MiB |
| Dashboard.BimestreAtual | Controllers/DashboardController.cs:338-348 | the bimester is always between 1 and 4 |
| Dashboard.BimestreQuarters | Controllers/DashboardController.cs:341-347 | for months 1..12 the bimester is the quarter of the year counted from February: 1 for February to April, 2 for May to July, 3 for August to October, 4 for November to January |
| Dashboard.Percentual | Controllers/DashboardController.cs:44 | a share of a zero total is 0, otherwise it times the total is 100 times the part; a part no larger than the total gives a value in [0, 100] |
| Dashboard.Geral | Controllers/DashboardController.cs:25-56 | the attendance share lies in [0, 100] and is 0 when there were no classes in the last 30 days; the headline counts never exceed their tables |
| Dashboard.GeralCountsRows | Controllers/DashboardController.cs:31 | the headline student count is 0 exactly when no stored student is enrolled |
| Dashboard.Entrada | Controllers/DashboardController.cs:71-78 | an entry keeps its category, total and active count, and with no more active than total it is consistent: inactive is total minus active, the share lies in [0, 100] and is 0 for an empty category |
| Dashboard.EntradaDe | Controllers/DashboardController.cs:68-78 | the entry of a table counts all its rows and its active rows, and is consistent |
| Dashboard.GetEstatisticas | Controllers/DashboardController.cs:62-120 | exactly four entries, users, students, teachers and classes in that order, each counting all rows and the active (for students, enrolled) rows, each consistent |
| Dashboard.AlertasFrequencia | Controllers/DashboardController.cs:218-234 | the attendance pass yields only low-attendance alerts |
| Dashboard.CaudaSteps | Controllers/DashboardController.cs:242-267 | the payments and announcements steps append the payments alert, then the announcements alert, each only when its count is positive |
| Dashboard.FrequencyLoop | Controllers/DashboardController.cs:218-234 | the loop over the enrolled students builds exactly their attendance alerts, in order |
| Dashboard.GetAlertas | Controllers/DashboardController.cs:200-270 | the answer is the first ten of: the enrolled students' attendance alerts, then the overdue-payments alert, then the expired-announcements alert |
| Dashboard.AlertasFrequenciaMembers | Controllers/DashboardController.cs:213-223 | an alert is among the attendance alerts exactly when its student is listed, carries that student's record and presence counts, and those are below 75% over at least one record |
| Dashboard.AlertaIffBaixaFrequencia | Controllers/DashboardController.cs:206-234 | a student has a low-attendance alert exactly when enrolled, with at least one record and presences times 100 below 75 times records; students with no records never get one |
| Dashboard.AlertaListadoBaixo | Controllers/DashboardController.cs:206-234 | an attendance alert in the list belongs to a stored, enrolled student whose presences are below 75% of a positive record count |
| Dashboard.AlertaBaixoListado | Controllers/DashboardController.cs:206-234 | an enrolled student with low attendance has an alert in the list carrying exactly that student's presence and record counts |
| Dashboard.BaixaShare | Controllers/DashboardController.cs:222-223 | the exact comparison means the share of presences is below 75% |
| Dashboard.AlertaShare | Controllers/DashboardController.cs:213-223 | a student's presences never exceed their records, so an alerted student's share lies in [0, 75) |
| Dashboard.CaudaOrdered | Controllers/DashboardController.cs:236-267 | the payments alert precedes the announcements alert, each appearing only with a positive count that it carries |
| Dashboard.CaudaShape | Controllers/DashboardController.cs:236-269 | after truncation there are at most ten alerts, attendance before payments before announcements, and ten or more attendance alerts crowd the others out |
| Dashboard.AlertasShape | Controllers/DashboardController.cs:200-270 | the alerts are at most ten, ordered by kind, carry the store's overdue and expired counts only when positive, and are the first ten attendance alerts when there are that many |
| Dashboard.MaisRecenteIsOrder | Controllers/DashboardController.cs:286 | newest-first is a total, transitive order |
| Dashboard.UltimasSorted | Controllers/DashboardController.cs:286-287 | taking the newest n gives n items (all of them when there are fewer, none for n <= 0), newest first, each from the input |
| Dashboard.UltimasNewest | Controllers/DashboardController.cs:286-287 | no item the newest n leave out is newer than an item they keep |
| Dashboard.UltimasOfRows | Controllers/DashboardController.cs:282-287 | the newest n activities of a table's passing rows are n of them or one per passing row, and no passing row left out is newer than one kept |
| Dashboard.UltimasMatriculasShape | Controllers/DashboardController.cs:282-297 | five enrollments of the last seven days (all of them when there are fewer), newest first, each a stored enrollment with its date, and no enrollment of the week left out is newer than one listed |
| Dashboard.UltimasNotasShape | Controllers/DashboardController.cs:300-316 | five grades of the last seven days (all of them when there are fewer), newest first, each a stored grade with its date, and no grade of the week left out is newer than one listed |
| Dashboard.UltimosComunicadosShape | Controllers/DashboardController.cs:319-333 | five announcements of the last seven days (all of them when there are fewer), newest first, each a stored announcement with its date, and no announcement of the week left out is newer than one listed |
| Dashboard.AtividadesRecentesShape | Controllers/DashboardController.cs:276-336 | fifteen activities (all of the three lists when they hold fewer), newest first, each from one of the three lists and from the last seven days, and no activity of the lists left out is newer than one shown |
| Validators.DigitsOf | Validators/CommonValidators.cs:33 | the digits kept are all digits, no more than the input, and an all-digit string keeps all of itself |
| Validators.DigitsOfAppend | Validators/CommonValidators.cs:33 | the digits of a concatenation are the digits of each part, concatenated |
| Validators.DigitsOfSeparated | Validators/CommonValidators.cs:33 | a separator that is not a digit contributes nothing |
| Validators.FormatCpfMatches | Validators/CommonValidators.cs:32-35 | eleven digits are accepted, and so is their dotted `ddd.ddd.ddd-dd` form |
| Validators.FormatCpfDigits | Validators/CommonValidators.cs:33 | the dotted form carries exactly the eleven digits it was made from |
| Validators.CpfPatternForms | Validators/CommonValidators.cs:32-35 | every accepted CPF is eleven digits or their dotted form, possibly followed by one line feed, as .NET `$` allows |
| Validators.CepPatternDigits | Validators/CommonValidators.cs:37-40 | every accepted CEP is eight digits, with or without a hyphen after the fifth, possibly followed by one line feed |
| Validators.FormatTelefoneMatches | Validators/CommonValidators.cs:147-150 | `(dd)`, a space, four or five digits, `-` and four digits is accepted |
| Validators.TelefonePrefixDigits | Validators/CommonValidators.cs:148 | the area-code prefix carries exactly its two digits |
| Validators.FormatTelefoneDigits | Validators/CommonValidators.cs:148 | a formatted telephone carries exactly the area code and number it was made from |
| Validators.TelefoneCoreDigits | Validators/CommonValidators.cs:148 | every accepted telephone carries ten or eleven digits |
| Validators.FirstLine | Validators/CommonValidators.cs:121 | the text before the first line feed contains no line feed |
| Validators.SenhaForteFirstLine | Validators/CommonValidators.cs:121 | the complexity rule holds exactly when the first line has a lower-case letter, an upper-case letter and a digit |
| Validators.Check | Validators/CommonValidators.cs:11-13 | a rule reports nothing exactly when it holds and otherwise its one message |
| Validators.EmailErrors | Validators/CommonValidators.cs:10-13 | the e-mail is clean exactly when present, well formed and at most 100 long; a missing e-mail reports the required message first; only the three e-mail messages appear |
| Validators.DadosAlunoErrors | Validators/CommonValidators.cs:19-48 | the student data are clean exactly when the name length is in [2, 150], the birth date is set and within the last 120 years, CPF, CEP and guardian e-mail pass when present, and the school id is positive; the CPF message comes exactly for a bad CPF, the future message exactly for a date not before today |
| Validators.DadosAlunoReportsOwnMessages | Validators/CommonValidators.cs:19-48 | the student-data rules report only their own messages |
| Validators.CreateAlunoErrors | Validators/CommonValidators.cs:6-50 | a creation form is clean exactly when its e-mail, its required code of at most 20 characters and its student data are, and the code-required message comes exactly for a missing code |
| Validators.MatriculaNotAmongOthers | Validators/CommonValidators.cs:10-48 | no e-mail or student-data rule reports the code-required message |
| Validators.UpdateAlunoErrors | Validators/CommonValidators.cs:52-95 | an update form is clean exactly when its e-mail and student data are, and no code rule applies |
| Validators.LoginErrors | Validators/CommonValidators.cs:97-109 | a sign-in form is clean exactly when the e-mail is present and well formed and the password present and at least 6 long; the password-required message comes exactly for a missing password |
| Validators.LoginEmptyPassword | Validators/CommonValidators.cs:105-107 | an empty password reports both the required and the too-short message, in that order |
| Validators.ChangePasswordErrors | Validators/CommonValidators.cs:111-128 | a password change is clean exactly when the current password is present, the new one present, at least 6 long and complex, and the confirmation equal to it; the mismatch message comes exactly for a different confirmation |
| Validators.ChangePasswordAccepted | Validators/CommonValidators.cs:115-126 | a password change is clean exactly when the current password is present, the new one is at least 6 long with a lower-case letter, an upper-case letter and a digit before any line feed, and the confirmation equals it |
| Validators.CreateUsuarioErrors | Validators/CommonValidators.cs:130-157 | a user form is clean exactly when the name length is in [2, 100], the e-mail is clean, and telephone and CPF pass when present; the telephone message comes exactly for a bad telephone |
| Text.TrimStart | Services/TurmaService.cs:99 | removing leading white space leaves a suffix that is empty or starts with a non-white-space character, and only white space was removed |
| Text.TrimEnd | Services/TurmaService.cs:99 | removing trailing white space leaves a prefix that is empty or ends with a non-white-space character, and only white space was removed |
| Text.Trim | Services/TurmaService.cs:99 | a trimmed string is no longer than the input and neither starts nor ends with white space |
| Text.TrimRemovesOnlyWhiteSpace | Services/TurmaService.cs:99 | the trimmed string is a slice of the input with only white space before and after it |
| Text.TrimOfTrimmed | Services/TurmaService.cs:150 | trimming a trimmed string changes nothing |
| Text.UpperChar | Services/TurmaService.cs:99 | upper-casing makes a lower-case letter upper-case and leaves every other character alone |
| Text.CaseKeepsWhiteSpace | Services/TurmaService.cs:99 | changing case never makes or unmakes white space |
| Text.ToUpper | Services/TurmaService.cs:99 | upper-casing a string upper-cases each character in place |
| Text.LowerChar | Controllers/UsuariosController.cs:142 | lower-casing makes an upper-case letter lower-case and leaves every other character alone |
| Text.ToLower | Controllers/UsuariosController.cs:142 | lower-casing a string lower-cases each character in place |
| Text.Contains | Services/UsuarioService.cs:29 | the search matches exactly when the text occurs as a slice, so the empty text always matches |
| Text.StrLeTotal | Services/UsuarioService.cs:33 | any two names are ordered one way or the other by ordinal comparison |
| Text.StrLeTransitive | Services/UsuarioService.cs:33 | ordinal name order is transitive |
| Text.StrLeAntisymmetric | Services/UsuarioService.cs:33 | two names ordered both ways are equal |
| Text.Digits | Services/TurmaService.cs:353 | the decimal digits of a number are at least one digit |
| Text.ValueOfDigits | Services/TurmaService.cs:353 | reading back the decimal digits of a number gives the number |
| Text.PadZeros | Services/TurmaService.cs:353 | padding with zeros reaches the width, or keeps a longer string, and keeps digits digits |
| Text.ValueOfPadZeros | Services/TurmaService.cs:353 | leading zeros do not change the value read back |
| Text.FormatD | Services/TurmaService.cs:353 | the `D` format of a natural number is all digits, as long as the width or its digit count, whichever is larger; a negative number gets a leading minus |
| Text.FormatDValue | Services/TurmaService.cs:353 | the `D` format of a natural number reads back as that number |
| Text.DigitsLength | Services/TurmaService.cs:353 | a number below 10^w has at most w digits, and one at least 10^w has more, so padding to the width is all of the field only for small ids |
| Models.Db.constructor | Data/SIGEDbContext.cs:12-38 | a new store has every table empty and is valid |
| Models.InvOfTurmasMatriculas | Data/SIGEDbContext.cs:119-131 | with the class and enrollment tables replaced, the store invariant holds exactly when codes stay unique and enrollments stay unique and linked |
| Models.InvOfSessoes | Data/SIGEDbContext.cs:133-136 | with the session table replaced, the store invariant holds exactly when tokens stay unique |
| Models.InvOfUsuarios | Data/SIGEDbContext.cs:48-53 | with the user table replaced, the store invariant holds exactly when e-mails and CPFs stay unique and every student keeps its account |
| Models.InvOfUsuariosAlunos | Data/SIGEDbContext.cs:48-83 | with the user and student tables replaced, the store invariant holds exactly when their unique keys and links hold and enrollments still name stored students |
| Models.InvOfProfessores | Data/SIGEDbContext.cs:104-109 | with the teacher and assignment tables replaced, the store invariant holds exactly when teacher codes and CPFs stay unique and assignments stay unique and linked |
| Models.Hash | Services/UsuarioService.cs:59 | the stored hash is longer than the password, so a password is never stored as itself |
| Models.HashVerifies | Services/AuthService.cs:32 | a hash verifies the password it was made from and no other |

## Left out

**Store mechanics**
- Store mechanics are not modelled: `Include`, query translation, `async`, transactions and
  concurrency. Each service call is one sequential step on in-memory tables.
- Queries without an `OrderBy` are taken in ascending identity order. The store does not promise
  any order for them.
- Cascade deletes the store would perform on its own are not modelled. Only the removals the code
  asks for are.
- The invariant leaves out the foreign key from a session to its user (`Models/Autenticacao.cs:33`,
  `50-51`). The store cascades a user's removal to the user's sessions, and the model's user
  removals leave them. Token renewal loads the session with its required user, an inner join, so
  it never finds a session left behind (`AuthService.RefreshOutcome`); the token check
  (`AuthService.VerifyToken`) still accepts one, which the real store never holds.
- The unique index on the enrollment number (`Data/SIGEDbContext.cs:129-131`) is not in the
  invariant, and the model does not check new numbers against it. A new number ends in six
  characters of a fresh GUID, so two numbers of one class and student can collide; the store
  would then refuse the save. The members below answer as if it never does:
- TurmaService.SincronizarMatriculas: does not model the store refusing an enrollment number
  already in use.
- TurmaService.CreateTurmaRejects: creation can also fail on an enrollment-number collision,
  which the model does not list among the failures.
- TurmaService.UpdateTurmaRejects: the same collision is not among the update's failures.
- The other foreign keys (to schools, courses, subjects, guardians) are not in the invariant; the
  services check the ones they rely on before writing.
- Messages, system logs and system settings are not in the model's store. Messages name their
  sender and recipient with `NoAction` (`Data/SIGEDbContext.cs:139-149`), and log and setting rows
  name a user through an optional key, which the database also restricts. The store therefore
  refuses to remove a user such a row names, and the call throws. The user-removal members below
  answer success in that case:
- UsuarioService.DeleteOutcome: removal of a user without school, student, teacher or guardian
  rows succeeds in the model even when a message, log or setting row names the user, where the
  store would throw.
- UsuarioService.Delete: the same refusal is not modelled.
- UsuarioService.DeleteKeepsInv: the same refusal is not modelled.
- UsuariosController.DeleteUsuarioStatus: answers 204 where the store's refusal would give 500.
- AlunoService.DeleteAlunoOutcomes: the hard delete removes the student's account even when a
  message, log or setting row names it, where the store would throw.
- AlunoService.DeleteAlunoSucceeds: the same refusal is not modelled, so the hard delete always
  succeeds in a consistent store.
- AlunoService.DeleteAluno: the same refusal is not modelled.
- `\d` in the validators' patterns matches ASCII digits only. .NET's `\d` matches every Unicode
  decimal digit (category Nd), such as Arabic-Indic or full-width digits. The members below
  reject strings with such digits, where the patterns accept them:
- Validators.CpfPatternForms: `\d` is restricted to ASCII digits.
- Validators.CepPatternDigits: `\d` is restricted to ASCII digits.
- Validators.TelefoneCoreDigits: `\d` is restricted to ASCII digits.
- Validators.SenhaForteFirstLine: `\d` is restricted to ASCII digits, so a password whose only
  digit is a non-ASCII one fails the complexity rule in the model and passes it in .NET.
- Validators.ChangePasswordAccepted: `\d` is restricted to ASCII digits, through the complexity
  rule.
- Validators.DadosAlunoErrors: `\d` is restricted to ASCII digits, through the CPF and CEP patterns.
- Validators.CreateAlunoErrors: `\d` is restricted to ASCII digits, through the CPF and CEP patterns.
- Validators.UpdateAlunoErrors: `\d` is restricted to ASCII digits, through the CPF and CEP patterns.
- Validators.CreateUsuarioErrors: `\d` is restricted to ASCII digits, through the CPF and telephone patterns.
- Validators.ChangePasswordErrors: `\d` is restricted to ASCII digits, through the complexity rule.
- `Contains` is an ordinal substring test, whatever collation the store uses.
- String order is ordinal.
- Upper- and lower-casing cover ASCII letters only.
- String lengths count characters, not UTF-16 code units.
- Column length limits (`MaxLength`) are not enforced, since SQLite does not enforce them.
  `TurmaService.NumeroMatriculaLength` shows an enrollment number can exceed the declared 20
  characters, once class ids reach five digits and student ids six.

**Foreign calls and time**
- BCrypt is modelled as an injective function of the whole password. Its salt and cost are not
  modelled. The real BCrypt reads only the first 72 bytes of the UTF-8 password, so two passwords
  that agree on those bytes verify alike.
- Models.HashVerifies: states that a hash verifies no password but its own, which is stronger
  than BCrypt promises: a password sharing the first 72 bytes also verifies.
- AuthService.ChangePasswordOutcome: states that a different old password no longer verifies
  after the change, which BCrypt does not promise when the two passwords share their first 72
  bytes.
- JWT creation (`GenerateJwtToken`) is not modelled. The token text is a parameter, so two
  sign-ins within the same second can collide; the session token's unique index then makes the
  call throw.
- `Guid.NewGuid()` is a parameter: one GUID per new enrollment.
- `DateTime.UtcNow` is a parameter.
- Calendar arithmetic (`AddDays`, `AddHours`, `AddYears`) is fixed offsets in seconds.
- Only the month is passed to `Dashboard.BimestreAtual`.
- `EmailAddress()` and the birth-date limits `Today` and `Today.AddYears(-120)` are parameters of
  the validators.

**Floating point**
- `decimal` and `double` shares are exact rationals (`real`).
- `Math.Ceiling(total / (double)pageSize)` is integer ceiling division.
- A page size of 0 makes the quotient infinite or undefined, and its conversion to `int` is
  platform-defined. The model takes the x64 result, `int.MinValue` (`CommonDto.TotalPages`).
  `AlunoService.GetAlunosZeroSize` proves that no next page is then announced.
- The 75% alert threshold is the exact comparison `100 * presences < 75 * records`.
- Dashboard.Geral: does not model the grade average of the current bimester (`MediaGeralNotas`).
  It is an `AverageAsync` over doubles.

**Not modelled**
- `GetGraficos`: floating-point month windows and `Math.Round`.
- The read-by-id operations, which are a single lookup mapped to a DTO:
  - `GetTurmaByIdAsync`, `GetAlunoByIdAsync`, `GetProfessorByIdAsync`;
  - `UsuarioService.GetByIdAsync`, `AuthService.GetCurrentUserAsync`;
  - `GetUserTypesAsync`.
- `TurmaService.GetCatalogosAsync`: three unfiltered, ordered lookups for form drop-downs.
- `UsuarioService.UploadPhotoAsync` and the student photo upload: file-system I/O. Only the
  controller's checks before the call are modelled (`UsuariosController.UploadCheck`).
- The `IsInEnum()` rules: enumerations are datatypes in the model, so every value is valid.
- `Handled`: the error middleware in `Program.cs` is reduced to "an exception becomes a 500".
  Its mapping of other exception types is not modelled.
- Startup, CORS, Swagger and seed data (`Program.cs`, `Data/SIGEDbContext.cs:245-281`).
- The other controllers, which are thin wrappers over the services.
- The AutoMapper profile: DTO-to-entity mapping is a field copy.
- The DTO shapes of responses: results are entities with their identity, not DTOs.
- `DataCriacao`/`DataUltimaAtualizacao` are modelled only where a contract mentions them.

**Behaviour of the code as written**
- All of these are proved, not corrected.
- `AlunoService.CreateAlunoLeavesUser`: `CreateAlunoAsync` saves the account before the student.
  When the second save fails, the account stays and its e-mail blocks every retry.
- `CreateTurmaAsync` also saves twice.
- `ProfessorService.CreateProfessorAlwaysRefused`: `CreateProfessorAsync` never sets `UsuarioId`.
  With the store's foreign keys enforced, every creation is refused.
- `Dashboard.UltimosComunicadosShape`: the activity feed lists announcements of any status.
- `Dashboard.AlertasShape`: the list is truncated to ten, so ten low-attendance students hide the
  payments and announcements alerts.

## Findings

| source | as written | input that shows it | evidently intended | confidence | as-written member | corrected member |
|---|---|---|---|---|---|---|
| Services/AlunoService.cs:57 | the page offset `(page - 1) * pageSize` is computed on 32-bit `int` and wraps | `page = 21474838`, `pageSize = 100`: the offset wraps to a negative number, `Skip` skips nothing, and the page repeats page 1 | a page past the last one is empty | not executed | CommonDto.Int32OffsetWraps | CommonDto.PagePastEndEmpty |

The same offset expression appears in the teacher, class and user listings. The class listing
clamps the size to 100 but not the page. The model's page functions use the exact offset, which
is what the listings evidently intend.
