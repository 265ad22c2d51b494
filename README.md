# NoteAi services in Dafny

A model of the two service classes of the NoteAi backend, with proofs of what they promise.

- **Notes service** (`Notes.NotesService`). Owner-scoped create, read, update and delete over the notes table. Get-by-id, update, delete and the summary write match on both the note id and the owner id. List-all matches on the owner only, and create has no `WHERE` clause.
- **AI note operations.** `aiCreateNote` stores the provider's text as a new note. The text is trimmed, and the title comes from the first line-start `#` heading of the multiline pattern `^#\s+(.+)$`, or is `"AI Generated Note"`. `aiSummarizeNote` stores the trimmed provider text as the note's summary, but only when it is not blank.
- **Auth service** (`Auth.AuthService`). A users table whose emails are unique. `register` inserts a user with a hashed password and then stores the refresh token. `logIn` checks the password and rotates the stored refresh token. `logOut` blanks it.

The files:

- `markdown.dfy` (module `Markdown`):
  - ECMAScript whitespace and line terminators, and `trim`.
  - The pattern `^#\s+(.+)$` with the `m` flag, as the ECMAScript engine runs it. The leftmost start position wins. The greedy `\s+` may cross line breaks and gives characters back until `.+` can start.
  - The title rule, and the proofs about it.
- `notes.dfy` (module `Notes`): the notes table as a class holding `map<NoteId, Note>`, and its operations.
- `auth.dfy` (module `Auth`): the users table as a class holding `map<UserId, User>`, and its operations.
- `wrappers.dfy` (module `Wrappers`): `Option` and `Result`.

External collaborators are parameters:

- The generative provider's reply is a `ProviderReply`: either a failure, or a response whose text may be absent.
- The refresh secret from the environment is an `Option<string>`.
- The bcrypt salt is a number.
- The JWT service is a signing function given to the `AuthService` constructor.
- The hashing library is two functions given to the `AuthService` constructor: `bcrypt.hash` and `bcrypt.compare`. The only thing the service relies on is that a hash matches the password it was made from.
- Row ids generated by the database come from a counter field of each table class. The counter gives a fresh id on every insert.

The users table keeps the varchar(255) widths of its `email`, `name` and `refresh_token` columns (src/db/schema.ts:5-8). Postgres stores a longer value cut to 255 characters when every character past the 255th is a space. Any other longer value makes the statement fail with Postgres's error. So the class invariant says every stored row fits its columns. The signed refresh token is a JWT whose payload carries the email, so a long enough email makes it wider than its column. Such a user's registration fails after the insert, with the row left with a blank token. A log-in with the same email, password and refresh secret then fails too (`Auth.AuthService.RegisterThenLogIn`).

A note's owner and a user's id have the same type: the id the access token carries as `sub`.

The update DTO file is not part of this model. It is assumed to carry an optional title and an optional content (`Notes.EditPatch`).

## Model

| member | source | states |
|---|---|---|
| `Markdown.Trim` | src/notes/notes.service.ts:116 | `trim()`: the result is a slice of the input, only whitespace surrounds it, and it neither starts nor ends with whitespace |
| `Markdown.TrimUnique` | src/notes/notes.service.ts:116 | Trim's contract determines its result, so the contract describes `trim()` completely |
| `Markdown.TrimIdempotent` | src/notes/notes.service.ts:122 | trimming twice is the same as trimming once |
| `Markdown.TrimEmptyIffBlank` | src/notes/notes.service.ts:165-167 | the trimmed text is empty exactly when the input is all whitespace |
| `Markdown.LastContentStart` | src/notes/notes.service.ts:120 | backtracking of the greedy `\s+`: the largest position in range where `.+` can start, or none when every candidate is a line terminator |
| `Markdown.MatchAtSound` | src/notes/notes.service.ts:120 | a capture found at position p is a real match of `^#\s+(.+)$` there, and its `\s+` part is the longest of all matches at p |
| `Markdown.MatchAtComplete` | src/notes/notes.service.ts:120 | whenever the pattern can match at p, the scanner finds a match at p |
| `Markdown.MatchAt` | src/notes/notes.service.ts:120 | one attempt of the pattern at position p: a capture is found only at a line start holding `#`, and it is a non-empty piece of one line |
| `Markdown.FirstMatchFrom` | src/notes/notes.service.ts:120 | `match` without the `g` flag: the leftmost position where the pattern matches, or none when it matches nowhere |
| `Markdown.DeriveTitle` | src/notes/notes.service.ts:119-123 | the title rule for any text: the fallback when the pattern matches nowhere, and in every case a trimmed string holding no line break |
| `Markdown.NoMatchGivesFallback` | src/notes/notes.service.ts:119-123 | with no match anywhere, the title is exactly `"AI Generated Note"` |
| `Markdown.HashWithoutSpaceNeverMatches` | src/notes/notes.service.ts:120 | `##`, or `#` followed by a non-whitespace character or by the end of the text, never starts a match at that position |
| `Markdown.TrimmedMatchAt` | src/notes/notes.service.ts:116-120 | on trimmed text, a match starts exactly where a line begins with `#` and a whitespace character; the capture then runs from the first non-whitespace character to the end of its line |
| `Markdown.NoHeadingGivesFallback` | src/notes/notes.service.ts:119-123 | on trimmed text with no line-start `#` followed by whitespace, the title is exactly `"AI Generated Note"` |
| `Markdown.FirstHeadingGivesTitle` | src/notes/notes.service.ts:119-123 | on trimmed text, the first heading supplies the title. The title runs from the first non-whitespace character after that `#` to the end of that character's line, trimmed. That may be a later line, because `\s+` crosses line breaks. It is not empty, holds no line break, and trimming it again changes nothing |
| `Markdown.TitleIsOneNonEmptyLine` | src/notes/notes.service.ts:119-123 | on trimmed text, the title from either rule is non-empty, one line, and already trimmed |
| `Notes.GeneratedNote` | src/notes/notes.service.ts:116-131 | the AI note's content is the provider text trimmed, with absent text read as `""`. Its title is non-empty, one line and trimmed. It belongs to the caller and has no summary |
| `Notes.SummaryGate` | src/notes/notes.service.ts:165-167 | there is no summary exactly when the provider text is absent or all whitespace; otherwise the summary is the non-empty trim of the text |
| `Notes.SummaryPatchWritesOnlySummary` | src/notes/notes.service.ts:168-173 | the summary update writes the summary column and leaves title, content and owner unchanged |
| `Notes.EditPatchKeepsOwnerAndSummary` | src/notes/notes.service.ts:70-76 | an edit of title and content never changes the owner or the summary |
| `Notes.UpdateWhereTouchesOnlyOwnedRow` | src/notes/notes.service.ts:71-76 | the update by id and owner changes only the row where both match. With no such row, nothing changes |
| `Notes.DeleteWhereTouchesOnlyOwnedRow` | src/notes/notes.service.ts:85-87 | the delete by id and owner removes only the row where both match. With no such row, nothing changes |
| `Notes.NotesService.CreateNote` | src/notes/notes.service.ts:18-34 | inserts one note with a fresh id, the given title, content and owner, and no summary. Other rows are unchanged |
| `Notes.NotesService.GetAllNotes` | src/notes/notes.service.ts:36-51 | returns exactly the notes the user owns, as id, title and content |
| `Notes.NotesService.GetNoteById` | src/notes/notes.service.ts:53-68 | returns the note only when both id and owner match, else nothing (`undefined`) |
| `Notes.NotesService.UpdateNote` | src/notes/notes.service.ts:70-82 | patches only the row whose id and owner match. Reports success even when no row matched |
| `Notes.NotesService.DeleteNote` | src/notes/notes.service.ts:84-92 | removes only the row whose id and owner match. Reports success even when no row matched |
| `Notes.NotesService.AiCreateNote` | src/notes/notes.service.ts:95-138 | a provider failure writes nothing. Otherwise one fresh note is inserted, with content = trimmed provider text and title = derived title |
| `Notes.NotesService.AiSummarizeNote` | src/notes/notes.service.ts:140-186 | a note the user does not own fails before the reply is used, with no write. A non-blank reply writes only that note's summary. A blank reply gives `success: false` with no write |
| `Auth.GenerateRefreshToken` | src/auth/auth.service.ts:50-65 | fails, with the missing-secret message, exactly when the refresh secret is unset or empty. Otherwise it signs the id and email with that secret and a 7-day lifetime |
| `Auth.GenerateTokens` | src/auth/auth.service.ts:39-72 | fails exactly when the refresh secret is missing. Otherwise it gives a 15-minute access token and a 7-day refresh token for the same claims |
| `Auth.InsertKeepsEmailsUnique` | src/db/schema.ts:5 | inserting a row whose email is not taken keeps emails unique |
| `Auth.SetTokenWhereEmailIsRowUpdate` | src/auth/auth.service.ts:118-121 | with unique emails, the update by email changes the refresh token of that one row and nothing else |
| `Auth.ToColumn` | src/db/schema.ts:5-8 | assignment to a varchar(255) column: a value that fits is stored as it is, a longer one is stored as its first 255 characters exactly when the rest is spaces, and is refused otherwise |
| `Auth.ToColumnCutsOnlySpaces` | src/db/schema.ts:7 | 255 letters and a space are stored as the 255 letters; 255 letters and an `x` are refused |
| `Auth.SetTokenWhereMissingEmailChangesNothing` | src/auth/auth.service.ts:118-121 | the update by an email no row has changes nothing |
| `Auth.SetTokenWhereIdIsRowUpdate` | src/auth/auth.service.ts:188-193 | the update by id changes only that row's refresh token, and nothing if the id is unknown |
| `Auth.SetTokenKeepsEmailsUnique` | src/db/schema.ts:5 | changing a refresh token keeps emails unique |
| `Auth.AuthService.constructor` | src/auth/auth.service.ts:14-16 | the service starts with an empty table, the injected signer, and a hasher and matcher under which a hash matches the password it was made from |
| `Auth.AuthService.IsUserExisting` | src/auth/auth.service.ts:17-37 | finds a row with that email exactly when one exists |
| `Auth.AuthService.Register` | src/auth/auth.service.ts:74-145 | a taken email is a conflict with no insert. An email or name the column refuses, or an email equal to a stored one once cut, fails with no insert. Otherwise one hashed-password row is inserted, with email and name as the columns store them. A missing secret, or a refresh token the column refuses, leaves that row with a blank token. On success the stored token is the returned one as the column stores it, unless the email was cut. Details below |
| `Auth.AuthService.LogIn` | src/auth/auth.service.ts:148-183 | an unknown email and a wrong password give the identical NotFound error and change nothing. A missing secret fails after the password check and changes nothing, and so does a refresh token the column refuses. On success only that row's refresh token changes, to the returned refresh token as the column stores it |
| `Auth.AuthService.RegisterThenLogIn` | src/auth/auth.service.ts:74-183 | after a registration that failed for any reason but a taken email, a log-in with the same email, password and refresh secret fails too |
| `Auth.AuthService.LogOut` | src/auth/auth.service.ts:186-198 | sets that user's refresh token to `""` and changes no other user or field. Reports success even for an unknown id |

`Auth.AuthService.Register` states:

- An email already present gives a conflict error, passed through unchanged, and nothing is inserted.
- An email or a name longer than 255 characters with a non-space past the 255th makes the insert fail. The error is rethrown as `"Registration failed: value too long for type character varying(255)"`, and nothing is inserted.
- An email whose cut form is already stored violates the unique constraint. That error is rethrown as `"Registration failed: duplicate key value …"`, and nothing is inserted.
- Otherwise exactly one row is inserted, with a fresh id, the email and name as their columns store them, and the hash of the password. The tokens are signed for the stored email.
- With a missing refresh secret, the error is rethrown as `"Registration failed: …"`. The inserted row stays, with a blank refresh token.
- With a signed refresh token the column refuses, the token update fails and is rethrown as the value-too-long failure. The inserted row stays, with a blank refresh token.
- On success, the row's stored refresh token is the returned one as the column stores it. When the email was cut, the update by the email as given matches no row, and the token stays blank. The returned user is the row as inserted, whose refresh token is still blank. The registered password passes log-in's password check.
- Emails stay unique and every row fits its columns, as invariants of the class.

## Left out

- The calls to the generative provider: a network call to a foreign service. Its reply is a parameter of the AI operations.
- The prompt templates: constant prose with no behaviour. The request text of `aiCreateNote` only appears in its precondition (the request DTO requires it to be non-empty).
- The image-generation pipeline: only its request DTO exists (a prompt of at least three characters). Its implementation is not part of this model.
- Routing, bootstrap, dependency-injection configuration, request-context extraction, and building clients from environment variables.
- `console.log` tracing, the `createdAt`/`updatedAt` timestamps, and the database's own UUID generation (a counter stands in for it).
- Bcrypt and JWT: foreign libraries. Both are parameters of the service. Signing is a function of the claims and options, so the issue time and expiry are not modelled.
- `Auth.AuthService.LogIn`: which passwords bcrypt accepts for a stored hash is left to the injected matcher. The model does not state that bcrypt reads only the first 72 bytes of a password, so two passwords that agree on those bytes both pass the check.
- `Auth.AuthService.LogIn`: the length of a signed token is not modelled, because the signer is a parameter. The model states what happens when the token is wider than its column, but not which emails make it so.
- The text of the width error is Postgres's message. The database driver is assumed to pass it through unchanged.
- The check-then-insert race in `register`: concurrency. Each operation is modelled as one sequential step.
- Database failures other than the two on the users table's columns (a value too long, a duplicate email). An example is a lost connection.
- `Auth.AuthService.Register`: when the email was cut, the token update matches no row. The model still fails that update on a token the column refuses. Postgres refuses such a value when it plans the statement with the value bound, but under a cached generic plan it checks only rows that match.
- The name of the unique constraint in the duplicate-email message is drizzle-kit's default, `user_email_unique`. The migrations are not part of this model.
- `Auth.AuthService.Register`: does not model the branch for an insert that returns no row. With a successful insert that branch cannot be reached.
- The response messages of create, summarize, register, log-in and log-out are not modelled. Their outcomes are the datatypes `Result`, `SummaryOutcome`, `Registered` and `LoggedIn`, and a success flag. Update and delete keep their messages.
- `Notes.NotesService.GetAllNotes`: returns a set of rows. The order in which the query returns them is not modelled.
- Strings are sequences of Unicode scalar values, not UTF-16 code units. Every character the whitespace and line-terminator tests name is a single code unit, so the two views agree on those tests.
- `Notes.NotesService.UpdateNote`: does not model the ORM's rejection of an update with no columns to set. The update DTO is not part of this model.
