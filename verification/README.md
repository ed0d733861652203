# Notes management app — a Dafny model of its request handlers

The application is a small Flask web app in which users register, log in
and keep private text notes. Each user has a username, an email and a
password hash. Each note has a title, a content, an owner and a creation
time. Users can list, view, search, update and delete their notes, and
reset a forgotten password through an emailed, signed, time-limited link.

This project models `app.py` as one object, `App.NotesApp`. Its fields are:

- the session: `Anonymous`, or `Authenticated(userId, username)` as stored at login;
- the `user` table and the `notes` table, each a sequence of rows;
- the two id counters that the database keeps for them.

The handlers are modelled in two ways:

- A handler that changes the session or a table is a method. Its contract
  states the whole new state and the response.
- A read-only handler is a function of the state.

Every handler returns an `Outcome`. It is a redirect (target and flash
message), a rendered page (with the rows handed to the template), or a
plain-text body. The SQL statements are stated exactly as operations on
sequences, in `NoteStore` and `Credentials`:

- select by key;
- filter by owner, or by owner and title;
- order by `created_at DESC`;
- insert, update and delete by key.

The class invariant `App.Consistent` holds after every handler. It says:

- usernames are unique;
- user ids and note ids are each distinct and below their counters;
- every note is owned by an existing user;
- a logged-in session names an existing user.

Modules:

- `Text`: Python's `str.strip()`, with Python's whitespace set, and the title match.
- `Seqs`: the order-keeping `WHERE` filter and its algebra.
- `NoteStore`: the `notes` table statements, the newest-first sort and their properties.
- `Credentials`: the `user` table, the password hash, the login check and the reset update.
- `Tokens`: the reset token.
- `App`: the session, the outcomes, the invariant and the handlers.

Two outside parts are replaced by ideal models.

- Password hashing (werkzeug) is an ideal salted hash. A hash checks
  against the password it was made from and against nothing else. The
  random salt is a parameter.
- Reset tokens (itsdangerous) are an ideal message authentication code.
  Only the holder of the secret key can produce a token for an email and a
  timestamp. A token loads when it is genuine and its age is between 0 and 3600 seconds.

Clock readings (`now`) and salts are parameters, as is the outcome of a
request's method: a form of `None` means a GET, and `Some(form)` means a POST
carrying that form.

## Model

| member | source | states |
|---|---|---|
| `App.NotesApp.constructor` | app.py:34-42 | A fresh database: both tables empty, nobody logged in, the invariant established. |
| `App.NotesApp.Check` | app.py:53-57 | `/` redirects, with no flash, to /viewall exactly when a user is logged in and to /login exactly when nobody is. |
| `App.RegisterRejection` | app.py:80-100 | "Please fill all fields." exactly when the stripped username, the stripped email or the unstripped password is empty. "Username already taken." exactly when all three are present and some user already has the stripped username. No rejection otherwise. |
| `App.NewUser` | app.py:80-105 | The inserted row has the given id, stripped names, username and email, and a hash that accepts the password as typed and no other password. |
| `App.NotesApp.Register` | app.py:77-113 | A GET changes nothing. A rejected POST leaves the user table unchanged and returns to /register with the rejection message. Otherwise exactly one user, `NewUser` under the next id, is appended and the response goes to /login. Session and notes are untouched, and the invariant (so username uniqueness) is kept. |
| `App.NotesApp.Login` | app.py:118-140 | The session becomes (id, username) of the user found under the stripped username exactly when that user's hash accepts the password. On failure the session is unchanged and the response goes to /login with "Invalid username or password.". No table changes. |
| `App.NotesApp.Logout` | app.py:145-149 | The session is Anonymous afterwards whatever it was before, so a second logout changes nothing. The tables are unchanged. |
| `App.NotesApp.AddNote` | app.py:154-181 | Anonymous: "Login required." and no change. A blank stripped title or content: back to /addnote and no change. Otherwise exactly one note is appended, with an id no existing note has, owned by the session user and stamped `now`. Every existing note is kept. |
| `App.NotesApp.ViewAll` | app.py:186-201 | Anonymous: to /login. Otherwise the listing is `SelectNotesOf` for the session user: exactly the session user's notes, each as often as in the table, in non-increasing `createdAt` order. |
| `App.NotesApp.ViewNote` | app.py:206-225 | Anonymous: to /login. The note is rendered exactly when the session user has a note of that id, and the rendered note is such a note. "Access denied." is returned exactly when the session user has no note of that id. |
| `App.NotesApp.UpdateNote` | app.py:230-265 | Anonymous: to /login, no change. No note of that id owned by the session user: "Unauthorized access." and no change. GET: the form with that note. POST: exactly the scoped `UpdateNoteRows` with the stripped title and content, without an emptiness check. |
| `App.NotesApp.DeleteNote` | app.py:270-286 | Anonymous: to /login, no change. Otherwise exactly the scoped `DeleteNoteRows`, with "Note deleted." whether or not a row matched. |
| `App.NotesApp.Search` | app.py:338-363 | Anonymous: to /login. A query that is all whitespace gives no results. Otherwise the results are `SearchNotesOf` for the stripped query: exactly the session user's notes whose title contains it, each as often as in the table, newest first. The page echoes the stripped query. |
| `App.NotesApp.Forgot` | app.py:291-304 | A GET renders the form. A POST sends mail to the given address carrying a token issued now. That token loads to the address up to `now + 3600` and fails one second later. The user table is not consulted. |
| `App.NotesApp.ResetPassword` | app.py:311-332 | A token that fails to load gives "Invalid or expired link" and changes nothing. A GET with a valid token renders the form. A POST sets the hash of the new password on every user with the token's email and changes nothing else. The invariant is kept. |
| `App.OwnerIsolation` | app.py:206-286 | A note of one user is never returned by another user's lookup, listing or search. Another user's update leaves it unchanged at its position, and another user's delete keeps it. |
| `App.UserAppendKeepsConsistent` | app.py:95-105 | Appending a user under the next id with a username nobody has keeps the invariant. |
| `App.UserAppendKeepsIds` | app.py:102-105 | Appending a user under an id above all others keeps user ids distinct and below the advanced counter. |
| `App.UserAppendKeepsUserId` | app.py:102-105 | Every existing user id remains one after an insert. |
| `App.RegisterKeepsConsistent` | app.py:86-105 | A registration that passes both checks keeps the invariant. |
| `App.SameAccountsKeepConsistent` | app.py:324-325 | Rewriting user rows while keeping every id and username keeps the invariant. |
| `App.ResetKeepsConsistent` | app.py:324-325 | The password update keeps the invariant. |
| `App.NoteAppendKeepsIds` | app.py:170-173 | Appending a note under the next id, owned by an existing user, keeps note ids distinct and below the advanced counter, and every owner existing. |
| `Credentials.GeneratePasswordHash` | app.py:90 | The hash accepts exactly the password it was made from. |
| `Credentials.SelectUser` | app.py:126-127 | The lookup by username returns a user of that name, and returns none exactly when no user has the name. |
| `Credentials.SetPasswordByEmail` | app.py:324 | Every user with the email, however many, gets the new hash. Nothing else about any user changes, and no user is added or removed. |
| `Credentials.Authenticate` | app.py:126-131 | A user is returned only when found under that name and the hash accepts the password. With unique usernames, it fails exactly when no user of that name accepts the password. |
| `Credentials.SelectUserFinds` | app.py:126-127 | With unique usernames, the lookup by a user's name finds that user. |
| `Credentials.SelectUserIsTheUser` | app.py:126-127 | With unique usernames, any user holding the name is the one the lookup returns. |
| `Credentials.InsertKeepsUnique` | app.py:95-105 | Inserting a user whose name the lookup does not find keeps usernames unique. |
| `Credentials.SelectUserAppend` | app.py:102-105 | After an insert, every earlier lookup gives what it gave before. The new user is found under a name nobody had. |
| `Credentials.RegisteredUserCanLogin` | app.py:90-131 | A user inserted under a free name with the hash of a password logs in with that password and with no other. |
| `Credentials.ResetKeepsUnique` | app.py:324 | The password update keeps usernames unique. |
| `Credentials.ResetThenLogin` | app.py:319-325 | After a reset, a user with that email logs in with the new password and nothing else. Every other user logs in exactly as before. |
| `Tokens.Dumps` | app.py:295 | The token carries the email and the time it was issued. |
| `Tokens.Loads` | app.py:314 | Loading yields the token's email exactly when the token is one this key issued under the reset salt and its age is between 0 and 3600 seconds. |
| `Tokens.TokenLifetime` | app.py:314 | An issued token loads to its email from its issue time until 3600 seconds have passed, and fails before and after. |
| `Tokens.TamperedTokenRejected` | app.py:314 | A token whose email or timestamp differs from what was signed fails to load. |
| `Tokens.OtherKeyRejected` | app.py:28 | A token signed with one secret key fails under any other key. |
| `Text.Strip` | app.py:80-83 | `str.strip()`: never longer than its input; `Text.TrimStartSpec`, `Text.TrimEndSpec`, `Text.StripSpec` and `Text.StripBlank` state what it keeps. |
| `Text.TrimStartSpec` | app.py:80 | What `lstrip` leaves is a suffix of the input, only whitespace precedes it, and it does not start with whitespace. |
| `Text.TrimEndSpec` | app.py:80 | What `rstrip` leaves is a prefix of the input, only whitespace follows it, and it does not end with whitespace. |
| `Text.StripSpec` | app.py:80-83 | A stripped field is a slice of the input with only whitespace outside it, and neither of its ends is whitespace. |
| `Text.StripBlank` | app.py:343-349 | A field is blank after stripping exactly when it consists of whitespace only. |
| `Seqs.Filter` | app.py:193-194 | A `WHERE` clause: never more rows than the table; `Seqs.FilterMembers` states which rows it keeps. |
| `Seqs.FilterMembers` | app.py:193-194 | A `WHERE` keeps exactly the rows that satisfy the condition. |
| `Seqs.FilterFilter` | app.py:353 | Filtering by one condition after another is filtering by their conjunction. |
| `Seqs.FilterIdempotent` | app.py:277-280 | Filtering twice by the same condition is filtering once. |
| `NoteStore.InsertByDate` | app.py:194 | Inserting by date adds exactly the given row to the multiset of rows. |
| `NoteStore.InsertKeepsNewestFirst` | app.py:194 | Inserting by date keeps a newest-first sequence newest first. |
| `NoteStore.SortNewestFirst` | app.py:194 | `ORDER BY created_at DESC` yields a permutation of its input, in non-increasing creation time. |
| `NoteStore.FilterKeepsNewestFirst` | app.py:194 | Selecting rows from a newest-first sequence keeps it newest first. |
| `NoteStore.FilterInsert` | app.py:193-194 | Selecting after inserting a row by date equals inserting the row, when selected, after selecting. |
| `NoteStore.FilterSort` | app.py:350-354 | Selecting and ordering commute. |
| `NoteStore.SelectNotesOf` | app.py:193-197 | The listing is newest first and holds exactly the owner's rows, each as often as in the table. |
| `NoteStore.SelectNote` | app.py:213-217 | The lookup returns a row with that id and owner, and returns none exactly when no row has both. |
| `NoteStore.UpdateNoteRows` | app.py:252-255 | Rows matching id and owner get the new title and content. All rows keep id, owner and creation time, every other row is unchanged, and the length is kept. |
| `NoteStore.DeleteNoteRows` | app.py:277-280 | A row survives exactly when it is not the owner's row of that id. |
| `NoteStore.SearchNotesOf` | app.py:349-358 | An empty query gives no rows. Otherwise the result holds exactly the owner's rows whose title contains the query, each as often as in the table, newest first. |
| `NoteStore.SearchIsFilteredListing` | app.py:349-358 | A search result is the owner's listing, filtered by title, in the same order. Among rows with equal `created_at` the order agrees only because both queries break ties the model's one fixed way; SQLite does not promise that. |
| `NoteStore.DeleteIdempotent` | app.py:277-280 | Deleting twice is deleting once. |
| `NoteStore.DeleteAbsentIsNoop` | app.py:277-280 | Deleting a missing note, or another user's note, changes nothing. |
| `NoteStore.DeleteRemovesOnlyTarget` | app.py:277-280 | With distinct ids, deleting the owner's note removes that row and no other, and keeps the order of the rest. |
| `NoteStore.UpdateAbsentIsNoop` | app.py:252-255 | Updating a missing note, or another user's note, changes nothing. |
| `NoteStore.DeleteKeepsDistinctIds` | app.py:277-280 | A delete keeps note ids distinct. |

## Left out

- Flask routing, templates, `flash` storage and `url_for` are not modelled. A response is an `Outcome` value: its flash message is an enumeration with the exact texts and categories, and a rendered page carries the rows passed to the template.
- A POST whose form lacks a key is not modelled. Python raises `KeyError` there and Flask answers 400. Forms are records with every field present.
- A GET on `/deletenote/<id>` is not modelled. Flask answers 405 because the route accepts POST only.
- The public pages `/home`, `/about` and `/contact` are not modelled. They render static templates.
- SQLite I/O, connections, `get_db_connection` and `init_db` are not modelled. The tables are sequences, and statements are atomic updates of the object.
- Concurrency is not modelled. The model has one browser session, and each handler runs as one uninterrupted step. Interleaved requests, and the errors they can cause, are not captured. For example, two registrations of the same username can both pass the SELECT at app.py:95-96 before either INSERT at app.py:102-106 runs. The second INSERT then fails on the schema's unique constraint with a server error, which `Register` never produces; username uniqueness is proved only under this one-step reading. In the same way, a note deleted between the SELECT at app.py:238-242 and the UPDATE at app.py:252-255 still yields "Note updated.".
- Ids come from two counters starting at 1, as an `AUTOINCREMENT` key would give them: a deleted note's id is never handed out again. A plain `INTEGER PRIMARY KEY` would instead reuse the largest id once that row is deleted; the counter never does. The schema file is not part of this model.
- Integer width is not modelled. Note ids taken from the URL (`<int:note_id>` at app.py:206, app.py:230 and app.py:270) and both id counters are unbounded naturals. In the source, werkzeug's converter accepts any digit string, and binding an id of 2^63 or more into `cur.execute` (app.py:213-216, app.py:238-241, app.py:277-280) raises `OverflowError`, so Flask answers 500. For such an id `ViewNote` instead flashes "Access denied.", `UpdateNote` "Unauthorized access." and `DeleteNote` "Note deleted.".
- The `created_at` default is the `now` parameter of `AddNote`. A clock is not modelled.
- `viewall` and `search` select four columns. The model hands whole rows to the page.
- Ties in `created_at` are not modelled: the model orders them one fixed way, while SQLite leaves their order unspecified.
- The title search is plain, case-sensitive substring containment. SQLite `LIKE` folds ASCII case and treats `%` and `_` in the query as wildcards; neither is modelled.
- werkzeug's hashing algorithm is replaced by an ideal salted hash. Its random salt is a parameter.
- itsdangerous serialisation and HMAC signing are replaced by an ideal signature over key, salt, email and timestamp.
- Sending the reset mail is not modelled; `Forgot` returns the mail (recipient and token) instead. Environment and configuration loading, and starting the server, are not modelled either.
- `static/theme.js`, the client-side theme toggle, is not modelled. It has no server state.
- `/logout` has no login guard in `app.py`: it clears the session and flashes "Logged out successfully." even when nobody is logged in. The model follows the code.
