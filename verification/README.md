# sistemaOng record store, in Dafny

sistemaOng is a small NGO management system. A REST backend keeps courses
(`cursos`), volunteers (`voluntarios`), students (`alunos`) and class
sections (`turmas`) in PostgreSQL. A join table `turma_alunos` holds each
section's roster. A React frontend lists and edits them.

This project models two parts of it.

**The backend as a sequential state machine.**
- The state (`Schema.Store`) is one map per table, from SERIAL id to row. The roster table is a set of (turma id, aluno id) pairs. Each table also has a next-id counter for its SERIAL sequence.
- Every controller operation is a pure function. It returns an HTTP status and body, together with the store it leaves behind.
- The SQL statements (`Database`) enforce the schema as PostgreSQL does, in this order:
  1. text without the NUL character, the 32-bit INTEGER range and DATE text are checked at parameter binding. VARCHAR length is checked next, while the statement is planned: longer text is refused unless the excess is spaces, which are cut off;
  2. an UPDATE or DELETE that matches no row affects nothing;
  3. `nextval` is consumed;
  4. NOT NULL, then UNIQUE, then the foreign keys are checked on the values as stored.
- Deletes carry out the schema's ON DELETE CASCADE and SET NULL actions.
- The section endpoints wrap their statements in BEGIN…COMMIT. A failure there is a ROLLBACK to the tables as they were.

Properties proved:
- every create, update and delete preserves the schema invariant `Schema.Valid`, which covers ids in range, column types, NOT NULL, unique emails and every foreign key (`Api.Replay`: every store reachable from the empty schema is valid);
- when each endpoint answers 400, 404 or 500, and that a failure changes nothing;
- atomic rollback;
- the roster full-replace;
- the cascades.

**Frontend helpers.**
- Section page: the roster checkbox toggle, the student search filter and the required-field check before submit.
- Volunteer form: adding and removing skill tags.
- List pages: the cell renderers.

Text handling is ASCII.

A SERIAL sequence is not rolled back with its transaction. So "nothing changes" after a failed insert means `Schema.SameTables`: all five tables are equal, but a sequence may have advanced by one. A failure before any insert leaves the store exactly equal, and so does a failed update or delete.

## Model

| member | source | states |
|---|---|---|
| Requests.TextOrNull | backend/src/controllers/turmaController.ts:63 | `x \|\| null` on text: present and non-empty iff the value is kept |
| Requests.IdOrNull | backend/src/controllers/turmaController.ts:63 | `x \|\| null` on an id: 0 and absent both become null |
| Database.InsertCurso | backend/src/config/initDatabase.ts:6-17 | text holding NUL (22021) or too long for its VARCHAR column is refused with the store and sequence unchanged; a failed insert leaves the tables as they were; a successful one adds exactly one fitting row under the next sequence value; the sequence steps at most once; validity is preserved |
| Database.UpdateCurso | backend/src/config/initDatabase.ts:6-17 | a body that does not bind (NUL, type, VARCHAR length) or an out-of-range id fails with the store unchanged; zero rows iff the body binds and the id is absent; a matched update replaces exactly that row with the values as stored; anything else leaves the store unchanged; validity is preserved |
| Database.DeleteCurso | backend/src/config/initDatabase.ts:43-54 | fails iff the id is not 32-bit, matches nothing iff it is absent (both leave the store), and otherwise leaves exactly `WithoutCurso`; validity is preserved |
| Database.WithoutCurso | backend/src/config/initDatabase.ts:43-54 | the course goes, its sections and their roster pairs cascade, its students stay with a null course, and nothing else changes |
| Database.WithoutCursoValid | backend/src/config/initDatabase.ts:43-54 | the cascade and SET NULL leave no dangling reference: a valid store stays valid |
| Database.InsertVoluntario | backend/src/config/initDatabase.ts:20-32 | text (including each skill) holding NUL, or too long for its VARCHAR column, is refused with the store and sequence unchanged; a successful insert has a new stored email and fitting values; a failure leaves the tables unchanged; validity is preserved |
| Database.UpdateVoluntario | backend/src/config/initDatabase.ts:20-32 | a body that does not bind or an out-of-range id fails with the store unchanged; zero rows iff the body binds and the id is absent; a matched update keeps emails unique and replaces only that row |
| Database.DeleteVoluntario | backend/src/config/initDatabase.ts:55 | fails iff the id is not 32-bit, matches nothing iff absent; otherwise the volunteer goes, its sections stay with a null volunteer, and nothing else changes; validity is preserved |
| Database.CursoExists | backend/src/controllers/alunoController.ts:55-58 | the lookup succeeds iff the id is 32-bit, and then reports membership |
| Database.InsertAluno | backend/src/config/initDatabase.ts:35-47 | a body that does not bind (NUL, type, VARCHAR length) is refused with the store and sequence unchanged; a successful insert has a new stored email, an existing or null course and fitting values; a failure leaves the tables unchanged |
| Database.UpdateAluno | backend/src/config/initDatabase.ts:35-47 | a body that does not bind or an out-of-range id fails with the store unchanged; zero rows iff the body binds and the id is absent; a matched update keeps emails unique and the course reference valid |
| Database.DeleteAluno | backend/src/config/initDatabase.ts:67 | fails iff the id is not 32-bit, matches nothing iff absent; otherwise the student and exactly its roster pairs go and nothing else changes; validity is preserved |
| Database.InsertTurma | backend/src/config/initDatabase.ts:50-61 | columns that do not bind (NUL, type, VARCHAR length) are refused with the store and sequence unchanged; a successful insert names an existing course and an existing or null volunteer; a failure leaves the tables unchanged |
| Database.UpdateTurma | backend/src/config/initDatabase.ts:50-61 | columns that do not bind or an out-of-range id fail with the store unchanged; zero rows iff the columns bind and the id is absent; a matched update keeps both section foreign keys valid |
| Database.DeleteTurma | backend/src/config/initDatabase.ts:66 | fails iff the id is not 32-bit, matches nothing iff absent; otherwise the section and exactly its roster pairs go and nothing else changes; validity is preserved |
| Database.DeleteRoster | backend/src/controllers/turmaController.ts:106 | exactly the pairs of that section are removed; the section's roster is then empty |
| Database.InsertRoster | backend/src/config/initDatabase.ts:64-70 | a duplicate id (composite key) or a missing student fails and changes nothing; success adds exactly the listed pairs; into an existing section with no pairs on a valid store, distinct existing students always succeed |
| Database.InsertTurmaSucceeds | backend/src/config/initDatabase.ts:50-61 | on a valid store with ids left, the section insert succeeds iff every value fits its column (a name longer than 255 characters fits when the excess is spaces), name and course are present and the course (and any volunteer) exist |
| Database.UpdateTurmaSucceeds | backend/src/config/initDatabase.ts:50-61 | for an existing id, the section update matches and commits iff the same column and reference conditions hold |
| Listing.LexLeTotal | backend/src/controllers/cursoController.ts:9 | the name collation compares any two names |
| Listing.LexLeAntisymmetric | backend/src/controllers/cursoController.ts:9 | two names that sort no later than each other are equal |
| Listing.LexLeTransitive | backend/src/controllers/cursoController.ts:9 | the name collation is transitive |
| Listing.ByName | backend/src/controllers/cursoController.ts:9 | the chosen rows are listed once each, in name order |
| Listing.OrderByName | backend/src/controllers/cursoController.ts:9 | `ORDER BY nome` lists every row exactly once, sorted by name |
| Listing.Ascending | backend/src/controllers/turmaController.ts:10 | an aggregated id array holds exactly the set's elements, once each |
| Listing.Descending | backend/src/controllers/turmaController.ts:16 | the ids of a set, each once, in decreasing order |
| Listing.NewestFirst | backend/src/controllers/turmaController.ts:8-17 | every row exactly once, highest (most recently allocated) id first |
| CursoController.GetAll | backend/src/controllers/cursoController.ts:7-15 | every course once, sorted by name |
| CursoController.GetById | backend/src/controllers/cursoController.ts:18-32 | 200 with the row iff it exists, 404 iff absent, 500 iff the id is not 32-bit |
| CursoController.Create | backend/src/controllers/cursoController.ts:35-53 | empty name gives 400 and no change; 201 adds exactly one row holding the body's values under a fresh id, with excess spaces cut from the name; a valid store and fitting input always give 201; other outcomes leave the tables unchanged |
| CursoController.Update | backend/src/controllers/cursoController.ts:56-75 | 404 exactly when the parameters bind (VARCHAR length included) and the id is absent; 200 replaces all five fields of that course only, the name without the spaces its column cuts off; an absent name never succeeds |
| CursoController.Delete | backend/src/controllers/cursoController.ts:78-92 | 404 for an absent id; otherwise the sections of the course and their pairs go and its students keep existing with no course |
| VoluntarioController.FailureReply | backend/src/controllers/voluntarioController.ts:51-54 | 400 with "Email já cadastrado" exactly for a unique violation, the generic 500 otherwise |
| VoluntarioController.GetAll | backend/src/controllers/voluntarioController.ts:7-15 | every volunteer once, sorted by name |
| VoluntarioController.GetById | backend/src/controllers/voluntarioController.ts:18-32 | 200/404/500 as the id exists, is absent or is not 32-bit |
| VoluntarioController.Create | backend/src/controllers/voluntarioController.ts:35-56 | missing name or email gives 400 and no change; a fitting body (space-padded text included) gets 201 iff its stored email is unused, and "Email já cadastrado" otherwise |
| VoluntarioController.NulTextRefused | backend/src/controllers/voluntarioController.ts:35-56 | every body that passes the name/email check but has a text value (or a skill) holding NUL gets the generic 500 and leaves the store as it was |
| VoluntarioController.Update | backend/src/controllers/voluntarioController.ts:59-81 | 404 iff the body binds (NUL, VARCHAR length) and the id is absent; a duplicate email gives 400 with no change; 200 replaces all six fields, absent ones becoming null |
| VoluntarioController.Delete | backend/src/controllers/voluntarioController.ts:84-98 | 404 for an absent id; otherwise the row goes and its sections stay with a null volunteer |
| AlunoController.JoinCurso | backend/src/controllers/alunoController.ts:9-14 | `curso_nome` is the course's name when the course exists, null otherwise |
| AlunoController.FailureReply | backend/src/controllers/alunoController.ts:69-72 | 400 exactly for a unique violation, 500 otherwise |
| AlunoController.GetAll | backend/src/controllers/alunoController.ts:7-20 | every student once, sorted by name, with a null course name when the course is null |
| AlunoController.OfCurso | backend/src/controllers/alunoController.ts:130-136 | exactly the students whose course is the given one |
| AlunoController.GetByCurso | backend/src/controllers/alunoController.ts:127-143 | exactly the students of that course, sorted by name |
| AlunoController.GetById | backend/src/controllers/alunoController.ts:23-42 | 200 with the joined row iff it exists, 404 iff absent |
| AlunoController.Create | backend/src/controllers/alunoController.ts:45-74 | missing name or email gives 400; a truthy unknown course gives 400 "Curso não encontrado" with no change; a duplicate email gives 400 "Email já cadastrado"; 201 adds exactly one matching row |
| AlunoController.Update | backend/src/controllers/alunoController.ts:77-107 | the course check comes first; 404 exactly when the parameters bind, the course check passes and the id is absent; on an existing id a missing name or email gives the generic 500; a duplicate email gives 400 with no change; 200 replaces all six fields; an absent name or email never succeeds |
| AlunoController.Delete | backend/src/controllers/alunoController.ts:110-124 | 404 for an absent id; otherwise only the student's roster pairs cascade |
| TurmaController.ViewOf | backend/src/controllers/turmaController.ts:29-30 | `alunos_ids` lists exactly the roster, without repeats, and is empty (not null) for an empty roster; course and volunteer names are joined |
| TurmaController.Views | backend/src/controllers/turmaController.ts:8-17 | one view per section |
| TurmaController.GetAll | backend/src/controllers/turmaController.ts:6-23 | every section once, with its view, newest (highest id) first |
| TurmaController.GetById | backend/src/controllers/turmaController.ts:25-47 | 200 with the view iff the section exists, 404 iff absent |
| TurmaController.Columns | backend/src/controllers/turmaController.ts:63 | falsy volunteer ids and dates are bound as null |
| TurmaController.Pairs | backend/src/controllers/turmaController.ts:68-71 | the bulk insert's pairs are exactly (section, student) for each listed student |
| TurmaController.Rollback | backend/src/controllers/turmaController.ts:77-78 | ROLLBACK restores every table and keeps the advanced sequences; it leaves a valid store valid |
| TurmaController.Create | backend/src/controllers/turmaController.ts:49-84 | 400 exactly for an empty name or falsy course, with no change, so a failing insert is 500; 201 adds exactly the row and its pairs, so the new section's roster is exactly the listed students and no other roster changes; any other outcome leaves the tables unchanged; a valid store stays valid |
| TurmaController.CreateRoster | backend/src/controllers/turmaController.ts:67-78 | the roster insert after the section insert: success adds exactly the pairs, failure rolls back to the tables before BEGIN; on a valid store it fails iff a student is missing or repeated |
| TurmaController.CreateSucceedsIff | backend/src/controllers/turmaController.ts:54-76 | on a valid store with name and course given, 201 iff the body fits, the course (and volunteer) exist and the roster has only existing, distinct students |
| TurmaController.Update | backend/src/controllers/turmaController.ts:86-124 | 404 iff the body binds (VARCHAR length included) and the section is absent; 200 replaces the columns and the whole roster, so the roster is exactly the listed students (`[]` clears it) and no other roster changes; any failure returns the store unchanged; absent name never succeeds |
| TurmaController.ReplaceRoster | backend/src/controllers/turmaController.ts:105-119 | the roster insert after the roster delete: success sets the roster to the listed students, failure rolls the whole transaction back; on a valid store it fails iff a student is missing or repeated |
| TurmaController.UpdateSucceedsIff | backend/src/controllers/turmaController.ts:94-116 | on a valid store and an existing section, 200 iff a name is given, the body fits, the references exist and the roster has only existing, distinct students |
| TurmaController.Delete | backend/src/controllers/turmaController.ts:126-138 | 404 for an absent id; otherwise the section and exactly its roster pairs go |
| TurmaController.RosterAfterInsert | backend/src/controllers/turmaController.ts:67-73 | adding a fresh section's pairs makes its roster exactly the listed students and leaves every other roster alone |
| TurmaController.RosterAfterReplace | backend/src/controllers/turmaController.ts:105-113 | deleting a section's pairs and adding the listed ones makes its roster exactly those students and leaves every other roster alone |
| Api.Apply | backend/src/config/initDatabase.ts:6-70 | every store-changing request preserves the schema invariant |
| Api.Replay | backend/src/config/initDatabase.ts:6-70 | every store reachable from the empty schema satisfies all constraints |
| BlankDates.CursoBlankDateRejected | backend/src/controllers/cursoController.ts:43-46 | as written, a course body with a blank date gets 500 and changes nothing |
| BlankDates.CursoBlankDateExample | backend/src/controllers/cursoController.ts:43-46 | a concrete course with blank dates fails to be created |
| BlankDates.NullBlankDates | backend/src/controllers/turmaController.ts:63 | blank course dates become null, after which every form value fits its column |
| BlankDates.CreateCurso | backend/src/controllers/cursoController.ts:35-53 | corrected create: a named course from the form is always created, with blank dates as null |
| BlankDates.UpdateCurso | backend/src/controllers/cursoController.ts:56-75 | corrected update: an existing course saved from the form is always replaced |
| BlankDates.AlunoBlankDateRejected | backend/src/controllers/alunoController.ts:61-64 | as written, a student body with a blank birth date gets 500 and changes nothing |
| BlankDates.NullBlankBirthDate | backend/src/controllers/turmaController.ts:63 | a blank birth date becomes null, after which every form value fits its column |
| BlankDates.CreateAluno | backend/src/controllers/alunoController.ts:45-74 | corrected create: a student from the form is created iff the email is unused |
| BlankDates.UpdateAluno | backend/src/controllers/alunoController.ts:77-107 | corrected update: an existing student is replaced iff the email is unused by others |
| Sequences.RemoveAll | frontend/src/components/VoluntarioForm.tsx:78 | `filter(h => h !== x)` removes every copy of x and keeps the other elements, with their counts, in order |
| Sequences.SubsequenceDistinct | frontend/src/pages/TurmasPage.tsx:102-104 | dropping elements from a duplicate-free list keeps it duplicate-free |
| Text.Trim | frontend/src/pages/TurmasPage.tsx:161 | `trim` returns the part between leading and trailing whitespace; it is empty iff the text is all whitespace |
| Text.TrimStartBlank | frontend/src/pages/TurmasPage.tsx:161 | trimming the front leaves nothing iff the text is all whitespace |
| Text.TrimEndBlank | frontend/src/pages/TurmasPage.tsx:161 | trimming the back leaves nothing iff the text is all whitespace |
| Text.Lower | frontend/src/pages/TurmasPage.tsx:161 | `toLowerCase` maps each character and leaves no capital |
| Text.Includes | frontend/src/pages/TurmasPage.tsx:165 | `includes` holds iff the query occurs as a contiguous piece |
| Text.Join | frontend/src/pages/VoluntariosPage.tsx:69 | `join` of one element is that element; a joined text starts with its first element |
| Text.JoinAppend | frontend/src/pages/VoluntariosPage.tsx:69 | joining a concatenation puts the separator between the two joins |
| Text.JoinLength | frontend/src/pages/VoluntariosPage.tsx:69 | the joined length is the elements' lengths plus one separator per gap |
| Text.NatToString | frontend/src/pages/CursosPage.tsx:82 | decimal digits, no leading zero |
| Text.IntToString | frontend/src/pages/CursosPage.tsx:82 | an integer's text starts with `-` iff it is negative |
| Text.IntToStringRoundTrip | frontend/src/pages/CursosPage.tsx:82 | reading the rendered number back gives the number |
| TurmasPage.Dedup | frontend/src/pages/TurmasPage.tsx:102 | `new Set(xs)` keeps each id once, and leaves a duplicate-free list as it is |
| TurmasPage.ToggleAluno | frontend/src/pages/TurmasPage.tsx:100-106 | the student's membership flips, every other id is unchanged, and the result has no duplicates |
| TurmasPage.ToggleTwice | frontend/src/pages/TurmasPage.tsx:103 | toggling twice restores the selection as a set, and exactly when it lacked the student and had no duplicates |
| TurmasPage.Kept | frontend/src/pages/TurmasPage.tsx:160-166 | a student is kept iff the query is blank or the trimmed lower-cased query occurs in the lower-cased name or email |
| TurmasPage.FilterAlunos | frontend/src/pages/TurmasPage.tsx:159-166 | the result is a subsequence of the students holding exactly the kept ones; a blank query keeps all |
| TurmasPage.Payload | frontend/src/pages/TurmasPage.tsx:75-77 | the whole form is sent as given: name, course, volunteer (absent when unset), both dates (`''` when unpicked) and roster |
| TurmasPage.Submit | frontend/src/pages/TurmasPage.tsx:70-73 | no request is made iff the name is empty or no course is chosen |
| TurmasPage.SubmitCheckAgreesWithServer | frontend/src/pages/TurmasPage.tsx:70-73 | the page sends a form iff the server's create would not reject it with 400 |
| TurmasPage.EmptyDatesStoredNull | frontend/src/pages/TurmasPage.tsx:21-22 | the page's blank dates are stored as null by a successful create |
| VoluntarioForm.AdicionarHabilidade | frontend/src/components/VoluntarioForm.tsx:65-73 | appends the trimmed text iff it is non-blank and new; otherwise nothing changes; the box is cleared only on an add; no duplicates are introduced |
| VoluntarioForm.AddIdempotent | frontend/src/components/VoluntarioForm.tsx:66 | adding the same text twice adds it once |
| VoluntarioForm.RemoverHabilidade | frontend/src/components/VoluntarioForm.tsx:75-80 | every copy of the skill goes; the other skills keep their order and counts |
| CursosPage.DescricaoCell | frontend/src/pages/CursosPage.tsx:67 | blank renders `-`; up to 50 characters render unchanged; longer text renders as its first 50 characters and `...` (53 in all); the output starts with the first min(50, len) characters |
| CursosPage.CargaHorariaCell | frontend/src/pages/CursosPage.tsx:82 | 0 or absent renders `-`; otherwise the number, readable back, followed by `h` |
| VoluntariosPage.HabilidadesCell | frontend/src/pages/VoluntariosPage.tsx:69 | an absent or empty list renders `-`; one skill renders alone; otherwise the skills in order, separated by `, ` |
| VoluntariosPage.HabilidadesCellAppend | frontend/src/pages/VoluntariosPage.tsx:69 | more skills are rendered after the others, after a `, ` |
| VoluntariosPage.DisponibilidadeCell | frontend/src/pages/VoluntariosPage.tsx:74 | blank renders `-`; anything else renders unchanged |
| VoluntariosPage.DisponibilidadeCellReadBack | frontend/src/pages/VoluntariosPage.tsx:74 | the cell is never blank; a cell other than `-` is exactly the stored availability, so only a missing, empty or literal `-` value shows `-` |

## Left out

- Express plumbing, routing, helmet/cors, the health endpoint and the `pg` pool: no logic beyond calling the controllers. Acquiring and releasing a client is I/O.
- Concurrency between requests. The model serves one request at a time.
- TurmaController.GetAll: `created_at`/`updated_at` timestamps are not modelled. `ORDER BY created_at DESC` is modelled as highest id first: ids are allocated in creation order, one section per request. Sections created within the same timestamp may come back in another order.
- TurmaController.ViewOf: `array_agg` has no defined order; the model lists the ids ascending, one of the orders the database may return.
- Listing.OrderByName: collation is modelled as code-point order, and rows with equal names come out in id order. The database's locale collation may order them differently.
- Path ids that are not numeric text: ids are integers in the model. One outside the 32-bit range yields 500, as a failed bind does.
- DATE values: only `YYYY-MM-DD` text is accepted. Calendar validity and the other spellings PostgreSQL accepts are left out. This includes the ISO timestamps (`2024-03-01T03:00:00.000Z`) that the API returns for DATE columns, because no type parser is set. The edit forms send those back, so in the model re-saving a dated course, student or section (`TurmaController.Update`, whose body carries `data_inicio`/`data_fim` back from the section page) gives 500 where the program gives 200. `BlankDates.UpdateCurso` and `BlankDates.UpdateAluno` cover form bodies with `YYYY-MM-DD` or blank dates only.
- SQLSTATE codes other than 23505 appear only as error kinds, and console logging is not modelled.
- Database.UpdateCurso, Database.UpdateAluno, Database.UpdateTurma: foreign keys are checked on every update. PostgreSQL skips that lookup when the key is unchanged, which gives the same result on valid stores.
- Database.InsertRoster: the duplicate check and the missing-row check are ordered unique-before-foreign-key. Only the failure matters to the controllers, and either order gives it.
- Text.Trim, Text.Lower: ASCII whitespace and ASCII case only, instead of Unicode `trim`/`toLowerCase`.
- CursosPage.DescricaoCell: lengths and `substring` count characters, not UTF-16 code units. A description with characters outside the Basic Multilingual Plane (emoji) is cut by the page at a shorter character count than in the model.
- React state and hooks, rendering, `window.confirm`, the axios client, page switching and DataTable markup are not modelled.
- Date formatting with `toLocaleDateString` and `parseInt` coercions in the form change handlers are not modelled.
- TurmasPage.Submit: the course select only offers 0 and existing ids, so a `NaN` course id is not modelled.
- TurmasPage.Kept: student name and email are required text in the frontend types, so the `|| ''` fallbacks are not modelled.
- Api.Replay: reads (the GET endpoints) do not change the store and are not part of the replayed requests.

## Findings

| source | as written | input that shows it | evidently intended | confidence | as-written member | corrected member |
|---|---|---|---|---|---|---|
| backend/src/controllers/cursoController.ts:43-46 | `data_inicio` and `data_fim` are bound to DATE columns as sent. The course form sends `''` when no date is picked. | create or update with `data_inicio: ''`, e.g. `{nome: "Informática", data_inicio: "", data_fim: "", carga_horaria: 40}`: PostgreSQL rejects `''` as a date, so the reply is 500 | bind a blank date as null (`x \|\| null`), as the section controller does | medium: follows from PostgreSQL refusing `''` for DATE; not executed | BlankDates.CursoBlankDateRejected | BlankDates.CreateCurso |
| backend/src/controllers/alunoController.ts:61-64 | `data_nascimento` is bound as sent. The student form sends `''` when no birth date is picked. | create or update with `data_nascimento: ''` and a valid name, email and course: the reply is 500 | bind a blank birth date as null | medium: follows from PostgreSQL refusing `''` for DATE; not executed | BlankDates.AlunoBlankDateRejected | BlankDates.CreateAluno |

The corrected members `BlankDates.UpdateCurso` and `BlankDates.UpdateAluno` cover the update path. `Api` replays the controllers as written.
