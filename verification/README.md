# Task manager: ownership-scoped task store and frontend state, in Dafny

This project models the core of a small task-management application. It has a
PHP backend (a repository, a service and a controller over a `tasks` table) and
a React/Redux frontend (two slice reducers and the login and registration form
validators). The model proves the access-control contract of the backend:

- a user sees only their own tasks;
- looking a task up by id and owner gives the same null for a missing id and
  for another user's task;
- `update` and `destroy` give one 404 outcome in both cases and change nothing;
- only an owned task is ever mutated;
- creation always records the caller as owner.

On the frontend it proves the per-action behaviour of the reducers and the
accept/reject logic of the two forms.

Layout, one module per source file (plus shared types):

- `wrappers.dfy`: `Option` and `Result`.
- `domain.dfy`: `User`, `Task`, `Status`, and `TaskFields`, the partial record
  of fillable attributes that a validated request carries. Also the list
  operations both sides use: `Fill` (mass assignment), `OwnedBy`, `WithoutId`,
  `FirstWithId` and `FirstOwned`.
- `repository.dfy`: the `tasks` table as a class. Its rows are kept in
  primary-key order and an auto-increment counter gives new ids. The module
  also holds the lemmas about ids, lookups and listings.
- `service.dfy`, `controller.dfy`: the service and controller classes. Each
  controller action returns the JSON envelope as a `Response` value.
- `tasks_slice.dfy`, `auth_slice.dfy`: the slice states as classes, each with
  a reducer method `Dispatch`.
- `form_rules.dfy`: the shared messages, the email regular expression
  `\S+@\S+\.\S+` (an unanchored search) and JavaScript's UTF-16 `length`.
- `register_page.dfy`, `login_page.dfy`: `validateForm` and `handleSubmit`.

Modelling choices:

- The table is a sequence of rows in primary-key order, not a map. The
  increasing-id invariant makes ids unique, and listings are read off the
  sequence in that order (see "## Left out").
- The migration and the `Task` model are not part of this model, so the
  model assumes these constraints on the `tasks` table:
  - `user_id` and `title` are NOT NULL;
  - `description` is nullable;
  - `status` defaults to `pending`.
- A storage failure is the controller parameter `fault`, the message of the
  exception that the storage layer raised.
- The authenticated user is an explicit parameter of every action.

No code in `TaskService::actualizar` or `TaskRepository::update` strips a
`user_id` from the data, so `Fill` applies any `user_id` present in the
validated data. The request rule sets are
not part of this model. Likewise, deleting a task reports `true`
unconditionally, as Eloquent's `delete()` does for a loaded model.

## Model

| member | source | states |
|---|---|---|
| `Domain.Fill` | backend/app/Repositories/TaskRepository.php:39-43 | partial update: every key present in the data overwrites its attribute, every omitted key keeps its value, the id never changes |
| `Domain.FillNothing` | backend/app/Repositories/TaskRepository.php:39-43 | an update carrying no key leaves the task unchanged |
| `Domain.FillIdempotent` | backend/app/Repositories/TaskRepository.php:39-43 | applying the same update twice equals applying it once |
| `Domain.FillTwice` | backend/app/Repositories/TaskRepository.php:39-43 | two successive partial updates equal one update with the merged keys, later keys winning |
| `Domain.OwnedBy` | backend/app/Repositories/TaskRepository.php:16-19 | the result holds exactly the tasks whose `user_id` is the given user, and no others |
| `Domain.WithoutId` | frontend/src/features/tasks/tasksSlice.ts:134 | the result holds exactly the tasks whose id differs from the given id |
| `Domain.FirstWithId` | backend/app/Repositories/TaskRepository.php:62-65 | null iff no task has the id; otherwise a stored task with that id |
| `Domain.FirstOwned` | backend/app/Repositories/TaskRepository.php:74-77 | null iff no task has both the id and the owner; otherwise a stored task with both |
| `Domain.WithoutIdAppend` | frontend/src/features/tasks/tasksSlice.ts:132-136 | removal by id distributes over concatenation, so the remaining tasks keep their relative order |
| `Domain.WithoutAbsentId` | frontend/src/features/tasks/tasksSlice.ts:132-136 | removing an id no task carries leaves the list unchanged |
| `Domain.OwnedByAppend` | backend/app/Repositories/TaskRepository.php:16-19 | the owner filter distributes over concatenation, so in the model a listing keeps the rows' primary-key order |
| `Repository.ReplaceRow` | backend/app/Repositories/TaskRepository.php:39-43 | writing a row back replaces only the rows with its id; every other row and the length are unchanged |
| `Repository.UniqueIds` | backend/app/Repositories/TaskRepository.php:62-65 | in a table kept in increasing primary-key order, two rows with the same id are the same row |
| `Repository.FirstOwnedIsOwnedFirstWithId` | backend/app/Repositories/TaskRepository.php:74-77 | with unique ids, the id-and-owner lookup equals the id lookup when its owner is the user, and null otherwise |
| `Repository.ForeignTaskLooksMissing` | backend/app/Repositories/TaskRepository.php:76 | a stored task owned by another user is not found by the owned lookup, exactly like a missing id |
| `Repository.WithoutIdKeepsIdsIncreasing` | backend/app/Repositories/TaskRepository.php:51-54 | deleting by id keeps the table in strictly increasing primary-key order |
| `Repository.DeleteKeepsOtherListing` | backend/app/Repositories/TaskRepository.php:51-54 | deleting a row the user does not own leaves that user's listing identical |
| `Repository.InsertListing` | backend/app/Repositories/TaskRepository.php:27-30 | in the model's primary-key order, an inserted row appears at the end of its owner's listing; every other user's listing is unchanged |
| `Repository.OwnedByKeepsIdsIncreasing` | backend/app/Repositories/TaskRepository.php:16-19 | the owner filter of a table in increasing primary-key order is itself in increasing order, so no task is listed twice |
| `Repository.TaskRepository.AllByUser` | backend/app/Repositories/TaskRepository.php:16-19 | a task is listed iff it is stored and belongs to the user; the listing is the owner filter of the table (so the `OwnedBy` lemmas apply to it) and, with increasing ids, lists each task once |
| `Repository.TaskRepository.Create` | backend/app/Repositories/TaskRepository.php:27-30 | appends one row with a fresh id (greater than every stored id) carrying the supplied fields and the column defaults; the old rows are an unchanged prefix; a missing `user_id` or `title` fails and changes nothing |
| `Repository.TaskRepository.Update` | backend/app/Repositories/TaskRepository.php:39-43 | returns the task with the data's keys applied, and writes it over the row with its id only |
| `Repository.TaskRepository.Delete` | backend/app/Repositories/TaskRepository.php:51-54 | returns true; afterwards no row has that id and every other row is kept in order |
| `Repository.TaskRepository.FindById` | backend/app/Repositories/TaskRepository.php:62-65 | null iff no stored task has the id; otherwise the stored task with that id |
| `Repository.TaskRepository.FindByIdAndUser` | backend/app/Repositories/TaskRepository.php:74-77 | non-null iff a stored task has the id and the user as owner; then it is that task, and it equals `FindById` when the owner is the user |
| `Service.TaskService.Listar` | backend/app/Services/TaskService.php:26-29 | a task is returned iff it is stored and belongs to the user; the result is the repository's listing itself, so each task appears once |
| `Service.TaskService.constructor` | backend/app/Services/TaskService.php:15-18 | the service holds the repository it is given |
| `Service.TaskService.Crear` | backend/app/Services/TaskService.php:38-44 | the new task's `user_id` is the caller's whatever the data said; title, description and status come from the data; the task is appended to the store under a fresh id and the counter advances by one |
| `Service.TaskService.Actualizar` | backend/app/Services/TaskService.php:53-58 | partial update of the task; only the row with its id changes |
| `Service.TaskService.Eliminar` | backend/app/Services/TaskService.php:66-69 | returns true and the id is no longer stored; every other row stays |
| `Service.TaskService.FindByIdAndUser` | backend/app/Services/TaskService.php:78-81 | a found task has the id and the user as owner; null exactly when no stored task with the id belongs to the user |
| `Controller.ServerError` | backend/app/Http/Controllers/TaskController.php:41-48 | every caught failure gives status 500, `success=false` and the failure message under `errors.general` |
| `Controller.TaskController.constructor` | backend/app/Http/Controllers/TaskController.php:16-19 | the controller holds the service it is given |
| `Controller.TaskController.Index` | backend/app/Http/Controllers/TaskController.php:27-49 | 200 with the service's listing: exactly the caller's stored tasks, each once; or the 500 envelope on a storage failure |
| `Controller.TaskController.Store` | backend/app/Http/Controllers/TaskController.php:58-81 | 201 with a task owned by the caller, with the data's title, description (null when absent) and status (`pending` when absent), appended to the store, the id counter advanced by one; on any failure the 500 envelope and nothing stored |
| `Controller.TaskController.Update` | backend/app/Http/Controllers/TaskController.php:90-123 | a missing id and another user's id both give the same 404 "Task not found or does not belong to user" and leave the store unchanged; an owned task gives 200 with the updated task and the id counter untouched; the store changes only after a successful owned lookup, and no row of another user ever changes |
| `Controller.TaskController.Destroy` | backend/app/Http/Controllers/TaskController.php:131-162 | the same single 404 outcome for missing and foreign ids, store unchanged; an owned task gives 200 and is gone, the id counter untouched; the store changes only after a successful owned lookup, and every row of another user stays stored |
| `TasksSlice.FindIndex` | frontend/src/features/tasks/tasksSlice.ts:118 | -1 iff no task has the id; otherwise the index of the first task with it |
| `TasksSlice.TasksState.constructor` | frontend/src/features/tasks/tasksSlice.ts:6-11 | initial state: no tasks, none selected, not loading, no error |
| `TasksSlice.TasksState.Dispatch` | frontend/src/features/tasks/tasksSlice.ts:76-141 | pending: loading, error cleared, tasks and selection kept. rejected: not loading, error set to the payload, tasks kept. fetch: tasks replaced. create: payload appended behind an unchanged prefix. update: same length, only the first matching task replaced, unchanged when none matches. delete: every task with the id removed. `clearError` and `setSelectedTask` touch only their field |
| `AuthSlice.AuthState.constructor` | frontend/src/features/auth/authSlice.ts:14-19 | token and user from storage, status idle, no error |
| `AuthSlice.AuthState.Dispatch` | frontend/src/features/auth/authSlice.ts:64-112 | login/register pending: loading, error cleared, token and user kept. fulfilled: succeeded with token and user from the payload. rejected: failed with the payload as error, token and user kept. logout fulfilled: everything reset to idle. logout pending/rejected: state unchanged. `clearError`/`setUser` touch only their field. A succeeded status always holds a token and a user; status is one of the four values by its type |
| `FormRules.IsJsWhitespace` | frontend/src/pages/Register.tsx:53 | JavaScript's `\s` class: within ASCII exactly space, tab, line feed, vertical tab, form feed and carriage return; never `@` or `.` |
| `FormRules.MatchesEmailPattern` | frontend/src/pages/Register.tsx:53 | `/\S+@\S+\.\S+/.test(email)`, an unanchored search (also Login.tsx:42); an accepted email has at least five characters, among them an `@` and a `.` |
| `FormRules.EmailPatternExamples` | frontend/src/pages/Login.tsx:42 | the unanchored pattern accepts `john@x.com` and text around a valid part; rejects a missing dot, an empty local part, and a space between `@` and `.` |
| `FormRules.Utf16Length` | frontend/src/pages/Register.tsx:61 | JavaScript string length: at least the character count, at most twice it, zero only for the empty string |
| `RegisterPage.ValidateForm` | frontend/src/pages/Register.tsx:37-75 | each field gets exactly the message of its first failing rule or none, all four fields always checked; valid iff no field has a message iff name non-empty, email matches, password at least 6 units long and confirmation equal |
| `RegisterPage.HandleSubmit` | frontend/src/pages/Register.tsx:77-92 | `register` is dispatched, with name, email and password, exactly when the form is valid |
| `LoginPage.ValidateForm` | frontend/src/pages/Login.tsx:33-53 | email gets "requerido" when empty, "inválido" when it does not match, else nothing; password gets "requerida" only when empty (no length rule); valid iff neither field has a message |
| `LoginPage.HandleSubmit` | frontend/src/pages/Login.tsx:55-70 | `login` is dispatched, with the entered email and password, exactly when the form is valid |

## Left out

- Authentication: `AuthService` and `AuthController` (password hashing, JWT issue/verify, logout) are thin wrappers over library calls whose behaviour is not part of this model; the caller's identity is an explicit parameter instead.
- The authentication middleware that answers 401 is not part of this model.
- Request rule sets (`TaskStoreRequest`, `TaskUpdateRequest`): validated data is an arbitrary partial record of the fillable attributes; the 422 responses they produce are not modelled.
- Timestamps (`created_at`, `updated_at`), the `byStatus` scope and the user model's hidden attributes are not modelled.
- Foreign keys: `user_id` is not checked against a users table.
- The exact text of the database driver's NOT NULL violation depends on the database engine; `Repository.NotNullViolation` is a stand-in for it.
- The async thunks' HTTP calls and `localStorage` reads and writes are I/O; only the reducers are modelled, and the stored token and user enter as constructor parameters.
- Rendering, toasts, navigation, and the title-required check in the task create/edit pages are UI code outside the core.
- Repository.TaskRepository.Update: writes the whole filled instance over the row with its id; Eloquent writes only the attributes that changed relative to the loaded instance, which differs only for a stale instance, a case the controller never produces.
- Repository.TaskRepository.Create: the returned task carries the `pending` default for an omitted status; whether the model instance itself is refreshed with database defaults depends on the `Task` model, which is not part of this model.
- Controller.TaskController.Update: a storage failure is modelled as raised before any row is written, so it always leaves the store unchanged (the same holds for `Store` and `Destroy`); a failure after a partial write cannot happen with single-row statements.
- Listing order: `TaskRepository::allByUser` queries `where('user_id', …)->get()` with no `orderBy`, so the database promises no order. The model lists rows in primary-key order; `Domain.OwnedByAppend` and `Repository.InsertListing` state order only for that model, not for the query.
- Concurrency between requests is not modelled; each action runs alone against the table.
