/**
 * The request handlers of the notes application as one object: the
 * session of the current browser, the `user` and `notes` tables and the
 * id counters of the two tables. Handlers that change the session or a
 * table are methods; the read-only ones are functions of the state. Each
 * handler returns the response it produces: a redirect or a rendered page,
 * with the flash message it queues.
 */
module App {
  import opened Wrappers
  import opened Text
  import opened Credentials
  import opened NoteStore
  import opened Tokens
  import opened Seqs

  /** The session: nobody logged in, or the id and username stored at login. */
  datatype Session = Anonymous | Authenticated(userId: nat, username: string)

  /** The flash messages the handlers queue. */
  datatype Flash =
    | FillAllFields | UsernameTaken | RegistrationSucceeded
    | LoginSucceeded | InvalidCredentials | LoggedOut
    | LoginRequired | TitleContentRequired | NoteAdded
    | AccessDenied | UnauthorizedAccess | NoteUpdated | NoteDeleted
    | ResetLinkSent | PasswordResetSucceeded
  {
    /** The text shown to the user. */
    function Message(): string {
      match this
      case FillAllFields => "Please fill all fields."
      case UsernameTaken => "Username already taken."
      case RegistrationSucceeded => "Registration successful! Please login."
      case LoginSucceeded => "Login successful!"
      case InvalidCredentials => "Invalid username or password."
      case LoggedOut => "Logged out successfully."
      case LoginRequired => "Login required."
      case TitleContentRequired => "Title and content required."
      case NoteAdded => "Note added successfully."
      case AccessDenied => "Access denied."
      case UnauthorizedAccess => "Unauthorized access."
      case NoteUpdated => "Note updated."
      case NoteDeleted => "Note deleted."
      case ResetLinkSent => "Reset link sent to email."
      case PasswordResetSucceeded => "Password reset successful. Please login."
    }

    /** The category it is flashed with; the two reset messages are flashed
        without one, which Flask files under "message". */
    function Category(): string {
      match this
      case FillAllFields | UsernameTaken | InvalidCredentials | TitleContentRequired
         | AccessDenied | UnauthorizedAccess => "danger"
      case RegistrationSucceeded | LoginSucceeded | NoteAdded | NoteUpdated => "success"
      case LoggedOut | NoteDeleted => "info"
      case LoginRequired => "warning"
      case ResetLinkSent | PasswordResetSucceeded => "message"
    }
  }

  /** The body returned for a reset link that fails to load. */
  const InvalidLinkText := "Invalid or expired link"

  /** Where a handler redirects to. */
  datatype Target = ToLogin | ToRegister | ToViewAll | ToAddNote {
    function Url(): string {
      match this
      case ToLogin => "/login"
      case ToRegister => "/register"
      case ToViewAll => "/viewall"
      case ToAddNote => "/addnote"
    }
  }

  /** The template a handler renders, with the rows it hands to it. */
  datatype Page =
    | RegisterPage
    | LoginPage
    | AddNotePage
    | NotesPage(notes: seq<Note>)
    | SingleNotePage(note: Note)
    | UpdateNotePage(note: Note)
    | ForgotPage
    | ResetPage
    | SearchPage(results: seq<Note>, query: string)

  /** The response of a handler. */
  datatype Outcome =
    | Redirect(to: Target, flash: Option<Flash>)
    | Render(page: Page, flash: Option<Flash>)
    | PlainText(body: string)

  /** The fields of the posted registration form. */
  datatype RegisterForm = RegisterForm(firstname: string, lastname: string, username: string,
                                       email: string, password: string)

  /** The fields of the posted login form. */
  datatype LoginForm = LoginForm(username: string, password: string)

  /** The fields of the posted add-note and update-note forms. */
  datatype NoteForm = NoteForm(title: string, content: string)

  /** The reset mail sent by the forgot-password handler: its recipient and
      the token embedded in the link. */
  datatype ResetMail = ResetMail(recipient: string, token: ResetToken)

  /** Some user has id `id`. */
  predicate IsUserId(users: seq<User>, id: nat) {
    exists i :: 0 <= i < |users| && users[i].id == id
  }

  /** A logged-in session names a user that exists, by id and username. */
  predicate SessionOfUser(session: Session, users: seq<User>) {
    session.Authenticated? ==>
      exists i :: 0 <= i < |users| && users[i].id == session.userId && users[i].username == session.username
  }

  /** The checks a registration POST makes before inserting, in order: a
      username, email or password that is blank (the first two after
      stripping, the password as typed) fails with "Please fill all
      fields."; then a username some user already has fails with "Username
      already taken."; otherwise there is no rejection. */
  function RegisterRejection(users: seq<User>, f: RegisterForm): (r: Option<Flash>)
    ensures r == Some(FillAllFields) <==> Strip(f.username) == [] || Strip(f.email) == [] || f.password == []
    ensures r == Some(UsernameTaken) <==>
      && Strip(f.username) != [] && Strip(f.email) != [] && f.password != []
      && exists u :: u in users && u.username == Strip(f.username)
    ensures r.None? || r == Some(FillAllFields) || r == Some(UsernameTaken)
  {
    if Strip(f.username) == [] || Strip(f.email) == [] || f.password == [] then Some(FillAllFields)
    else if SelectUser(users, Strip(f.username)).Some? then Some(UsernameTaken)
    else None
  }

  /** The row a successful registration inserts under `id`: the names,
      username and email stripped, and the hash of the password as typed. */
  function NewUser(f: RegisterForm, id: nat, salt: Salt): (u: User)
    ensures u.id == id && u.username == Strip(f.username) && u.email == Strip(f.email)
    ensures u.firstname == Strip(f.firstname) && u.lastname == Strip(f.lastname)
    ensures CheckPasswordHash(u.password, f.password)
    ensures forall other :: other != f.password ==> !CheckPasswordHash(u.password, other)
  {
    User(id, Strip(f.firstname), Strip(f.lastname), Strip(f.username), Strip(f.email),
         GeneratePasswordHash(f.password, salt))
  }

  /** A note belonging to one user is out of reach of every other user:
      no lookup, listing or search of theirs returns it, and their update
      and delete leave it in place unchanged. */
  lemma OwnerIsolation(notes: seq<Note>, k: nat, other: nat, id: nat, title: string, content: string, query: string)
    requires k < |notes| && notes[k].owner != other
    ensures SelectNote(notes, id, other) != Some(notes[k])
    ensures notes[k] !in SelectNotesOf(notes, other)
    ensures notes[k] !in SearchNotesOf(notes, other, query)
    ensures UpdateNoteRows(notes, id, other, title, content)[k] == notes[k]
    ensures notes[k] in DeleteNoteRows(notes, id, other)
  {
  }

  /** The invariant of the application state: usernames unique, ids unique
      and below their counters, every note owned by an existing user, and
      the session naming an existing user. */
  ghost predicate Consistent(users: seq<User>, notes: seq<Note>, session: Session, nextUserId: nat, nextNoteId: nat) {
    && UniqueUsernames(users)
    && DistinctUserIds(users)
    && (forall i :: 0 <= i < |users| ==> users[i].id < nextUserId)
    && DistinctIds(notes)
    && (forall i :: 0 <= i < |notes| ==> notes[i].id < nextNoteId)
    && (forall i :: 0 <= i < |notes| ==> IsUserId(users, notes[i].owner))
    && SessionOfUser(session, users)
  }

  /** Registration keeps the invariant: a user appended under the next id
      with a name nobody has. */
  lemma UserAppendKeepsConsistent(users: seq<User>, notes: seq<Note>, session: Session, nextUserId: nat, nextNoteId: nat, u: User)
    requires Consistent(users, notes, session, nextUserId, nextNoteId)
    requires u.id == nextUserId && forall v :: v in users ==> v.username != u.username
    ensures Consistent(users + [u], notes, session, nextUserId + 1, nextNoteId)
  {
    InsertKeepsUnique(users, u);
    UserAppendKeepsIds(users, u);
    forall i | 0 <= i < |notes| ensures IsUserId(users + [u], notes[i].owner) {
      UserAppendKeepsUserId(users, u, notes[i].owner);
    }
    if session.Authenticated? {
      var j :| 0 <= j < |users| && users[j].id == session.userId && users[j].username == session.username;
      assert (users + [u])[j] == users[j];
    }
  }

  /** A user appended under an id above every existing one keeps the ids
      distinct and below the advanced counter. */
  lemma UserAppendKeepsIds(users: seq<User>, u: User)
    requires DistinctUserIds(users) && forall i :: 0 <= i < |users| ==> users[i].id < u.id
    ensures DistinctUserIds(users + [u])
    ensures forall i :: 0 <= i < |users + [u]| ==> (users + [u])[i].id < u.id + 1
  {
    var all := users + [u];
    assert forall i :: 0 <= i < |users| ==> all[i] == users[i];
  }

  /** An existing user id stays one after an append. */
  lemma UserAppendKeepsUserId(users: seq<User>, u: User, id: nat)
    requires IsUserId(users, id)
    ensures IsUserId(users + [u], id)
  {
    var j :| 0 <= j < |users| && users[j].id == id;
    assert (users + [u])[j] == users[j];
  }

  /** A registration that passes its checks keeps the invariant. */
  lemma RegisterKeepsConsistent(users: seq<User>, notes: seq<Note>, session: Session, nextUserId: nat, nextNoteId: nat,
                                f: RegisterForm, salt: Salt)
    requires Consistent(users, notes, session, nextUserId, nextNoteId)
    requires RegisterRejection(users, f).None?
    ensures Consistent(users + [NewUser(f, nextUserId, salt)], notes, session, nextUserId + 1, nextNoteId)
  {
    UserAppendKeepsConsistent(users, notes, session, nextUserId, nextNoteId, NewUser(f, nextUserId, salt));
  }

  /** `b` holds the accounts of `a` row for row: the same ids and usernames. */
  predicate SameAccounts(a: seq<User>, b: seq<User>) {
    |a| == |b| && forall i :: 0 <= i < |a| ==> a[i].id == b[i].id && a[i].username == b[i].username
  }

  /** Replacing the user rows by rows with the same accounts keeps the invariant. */
  lemma SameAccountsKeepConsistent(users: seq<User>, r: seq<User>, notes: seq<Note>, session: Session,
                                   nextUserId: nat, nextNoteId: nat)
    requires Consistent(users, notes, session, nextUserId, nextNoteId) && SameAccounts(users, r)
    ensures Consistent(r, notes, session, nextUserId, nextNoteId)
  {
    forall i | 0 <= i < |notes| ensures IsUserId(r, notes[i].owner) {
      var j :| 0 <= j < |users| && users[j].id == notes[i].owner;
      assert r[j].id == users[j].id;
    }
    if session.Authenticated? {
      var j :| 0 <= j < |users| && users[j].id == session.userId && users[j].username == session.username;
      assert r[j].id == users[j].id && r[j].username == users[j].username;
    }
  }

  /** A password reset keeps the invariant: it changes hashes only. */
  lemma ResetKeepsConsistent(users: seq<User>, notes: seq<Note>, session: Session, nextUserId: nat, nextNoteId: nat,
                             email: string, h: PasswordHash)
    requires Consistent(users, notes, session, nextUserId, nextNoteId)
    ensures Consistent(SetPasswordByEmail(users, email, h), notes, session, nextUserId, nextNoteId)
  {
    var r := SetPasswordByEmail(users, email, h);
    assert SameAccounts(users, r);
    SameAccountsKeepConsistent(users, r, notes, session, nextUserId, nextNoteId);
  }

  /** Appending a note under a fresh id owned by an existing user keeps the
      ids distinct and below the advanced counter, and every owner existing. */
  lemma NoteAppendKeepsIds(users: seq<User>, notes: seq<Note>, note: Note, next: nat)
    requires DistinctIds(notes) && (forall i :: 0 <= i < |notes| ==> notes[i].id < next)
    requires forall i :: 0 <= i < |notes| ==> IsUserId(users, notes[i].owner)
    requires note.id == next && IsUserId(users, note.owner)
    ensures DistinctIds(notes + [note])
    ensures forall i :: 0 <= i < |notes + [note]| ==> (notes + [note])[i].id < next + 1
    ensures forall i :: 0 <= i < |notes + [note]| ==> IsUserId(users, (notes + [note])[i].owner)
  {
    var all := notes + [note];
    assert forall i :: 0 <= i < |notes| ==> all[i] == notes[i];
  }

  class NotesApp {
    /** `app.secret_key`, which signs the reset tokens. */
    const secretKey: string
    var session: Session
    var users: seq<User>
    var notes: seq<Note>
    /** The id the next inserted user gets. */
    var nextUserId: nat
    /** The id the next inserted note gets. */
    var nextNoteId: nat

    /** See `Consistent`. */
    ghost predicate Valid()
      reads this
    {
      Consistent(users, notes, session, nextUserId, nextNoteId)
    }

    /** A fresh application: empty tables and nobody logged in. */
    constructor (secretKey: string)
      ensures Valid()
      ensures this.secretKey == secretKey
      ensures session == Anonymous && users == [] && notes == []
    {
      this.secretKey := secretKey;
      session := Anonymous;
      users := [];
      notes := [];
      nextUserId := 1;
      nextNoteId := 1;
    }

    // -------------------------------------------------------------------
    // Read-only handlers
    // -------------------------------------------------------------------

    /** `/`: to the listing when logged in, to login otherwise, with no flash. */
    function Check(): (out: Outcome)
      reads this
      ensures out.Redirect? && out.flash.None?
      ensures out.to == ToViewAll <==> session.Authenticated?
      ensures out.to == ToLogin <==> session.Anonymous?
    {
      if session.Authenticated? then Redirect(ToViewAll, None) else Redirect(ToLogin, None)
    }

    /** `/viewall`: to login when anonymous; otherwise the listing of exactly
        the session user's notes, newest first. */
    function ViewAll(): (out: Outcome)
      reads this
      ensures session.Anonymous? ==> out == Redirect(ToLogin, None)
      ensures session.Authenticated? ==>
        && out.Render? && out.flash.None? && out.page.NotesPage?
        && out.page.notes == SelectNotesOf(notes, session.userId)
        && NewestFirst(out.page.notes)
        && multiset(out.page.notes) == multiset(Filter(OwnedBy(session.userId), notes))
        && (forall n :: n in out.page.notes <==> n in notes && n.owner == session.userId)
    {
      match session
      case Anonymous => Redirect(ToLogin, None)
      case Authenticated(uid, _) => Render(NotesPage(SelectNotesOf(notes, uid)), None)
    }

    /** `/viewnotes/<id>`: to login when anonymous; the note when it exists
        and belongs to the session user; "Access denied." otherwise. */
    function ViewNote(noteId: nat): (out: Outcome)
      reads this
      ensures session.Anonymous? ==> out == Redirect(ToLogin, None)
      ensures out.Render? ==>
        && session.Authenticated? && out.flash.None? && out.page.SingleNotePage?
        && out.page.note in notes && out.page.note.id == noteId && out.page.note.owner == session.userId
      ensures out.Render? <==>
        session.Authenticated? && exists n :: n in notes && n.id == noteId && n.owner == session.userId
      ensures out == Redirect(ToViewAll, Some(AccessDenied)) <==>
        session.Authenticated? && forall n :: n in notes ==> !(n.id == noteId && n.owner == session.userId)
    {
      match session
      case Anonymous => Redirect(ToLogin, None)
      case Authenticated(uid, _) =>
        match SelectNote(notes, noteId, uid)
        case None => Redirect(ToViewAll, Some(AccessDenied))
        case Some(note) => Render(SingleNotePage(note), None)
    }

    /** `/search?q=`: to login when anonymous; no results for a blank query;
        otherwise exactly the session user's notes whose title contains the
        stripped query, newest first. */
    function Search(query: string): (out: Outcome)
      reads this
      ensures session.Anonymous? ==> out == Redirect(ToLogin, None)
      ensures session.Authenticated? ==>
        && out.Render? && out.flash.None? && out.page.SearchPage?
        && out.page.query == Strip(query)
        && (AllSpace(query) ==> out.page.results == [])
        && out.page.results == SearchNotesOf(notes, session.userId, Strip(query))
        && NewestFirst(out.page.results)
        && (!AllSpace(query) ==>
              multiset(out.page.results) == multiset(Filter(OwnedWithTitle(session.userId, Strip(query)), notes)))
        && (forall n :: n in out.page.results <==>
              !AllSpace(query) && n in notes && n.owner == session.userId && Contains(n.title, Strip(query)))
    {
      match session
      case Anonymous => Redirect(ToLogin, None)
      case Authenticated(uid, _) =>
        var q := Strip(query);
        StripBlank(query);
        Render(SearchPage(SearchNotesOf(notes, uid, q), q), None)
    }

    /** `/forgot`: the form on a GET; on a POST, the reset mail to the given
        address, carrying a token for that address issued now. The table
        of users is not consulted. */
    function Forgot(email: Option<string>, now: int): (r: (Outcome, Option<ResetMail>))
      ensures email.None? ==> r == (Render(ForgotPage, None), None)
      ensures email.Some? ==> r.0 == Render(ForgotPage, Some(ResetLinkSent)) && r.1.Some?
      ensures email.Some? ==>
        && r.1.value.recipient == email.value
        && Loads(secretKey, r.1.value.token, now + MaxAge) == Some(email.value)
        && Loads(secretKey, r.1.value.token, now + MaxAge + 1).None?
    {
      match email
      case None => (Render(ForgotPage, None), None)
      case Some(address) => (Render(ForgotPage, Some(ResetLinkSent)), Some(ResetMail(address, Dumps(secretKey, address, now))))
    }

    // -------------------------------------------------------------------
    // Handlers that change the session or the tables
    // -------------------------------------------------------------------

    /** `/register`. A GET renders the form. A POST is rejected as
        `RegisterRejection` says, with the user table unchanged; otherwise
        it appends exactly one user, `NewUser` under the next id. */
    method Register(form: Option<RegisterForm>, salt: Salt) returns (out: Outcome)
      requires Valid()
      modifies this
      ensures Valid()
      ensures session == old(session) && notes == old(notes) && nextNoteId == old(nextNoteId)
      ensures form.None? ==>
        users == old(users) && nextUserId == old(nextUserId) && out == Render(RegisterPage, None)
      ensures form.Some? && RegisterRejection(old(users), form.value).Some? ==>
        && users == old(users) && nextUserId == old(nextUserId)
        && out == Redirect(ToRegister, RegisterRejection(old(users), form.value))
      ensures form.Some? && RegisterRejection(old(users), form.value).None? ==>
        && users == old(users) + [NewUser(form.value, old(nextUserId), salt)]
        && nextUserId == old(nextUserId) + 1
        && out == Redirect(ToLogin, Some(RegistrationSucceeded))
    {
      match form
      case None =>
        out := Render(RegisterPage, None);
      case Some(f) =>
        var rejection := RegisterRejection(users, f);
        if rejection.Some? {
          out := Redirect(ToRegister, rejection);
        } else {
          var user := NewUser(f, nextUserId, salt);
          RegisterKeepsConsistent(users, notes, session, nextUserId, nextNoteId, f, salt);
          users := users + [user];
          nextUserId := nextUserId + 1;
          out := Redirect(ToLogin, Some(RegistrationSucceeded));
        }
    }

    /** `/login`. A POST looks the stripped username up and checks the
        password; on success the session becomes that user's, on failure it
        is left as it was. */
    method Login(form: Option<LoginForm>) returns (out: Outcome)
      requires Valid()
      modifies this
      ensures Valid()
      ensures users == old(users) && notes == old(notes)
      ensures nextUserId == old(nextUserId) && nextNoteId == old(nextNoteId)
      ensures form.None? ==> session == old(session) && out == Render(LoginPage, None)
      ensures form.Some? ==>
        match Authenticate(users, Strip(form.value.username), form.value.password)
        case Some(u) => session == Authenticated(u.id, u.username) && out == Redirect(ToViewAll, Some(LoginSucceeded))
        case None => session == old(session) && out == Redirect(ToLogin, Some(InvalidCredentials))
    {
      if form.None? {
        return Render(LoginPage, None);
      }
      var found := Authenticate(users, Strip(form.value.username), form.value.password);
      if found.Some? {
        var u := found.value;
        session := Authenticated(u.id, u.username);
        out := Redirect(ToViewAll, Some(LoginSucceeded));
      } else {
        out := Redirect(ToLogin, Some(InvalidCredentials));
      }
    }

    /** `/logout`: clears the session whatever it was, so a second logout
        changes nothing; the tables are untouched. */
    method Logout() returns (out: Outcome)
      requires Valid()
      modifies this
      ensures Valid()
      ensures session == Anonymous
      ensures users == old(users) && notes == old(notes)
      ensures nextUserId == old(nextUserId) && nextNoteId == old(nextNoteId)
      ensures out == Redirect(ToLogin, Some(LoggedOut))
    {
      session := Anonymous;
      out := Redirect(ToLogin, Some(LoggedOut));
    }

    /** `/addnote`. Anonymous: to login with "Login required.". A POST
        rejects a blank stripped title or content; otherwise it appends one
        note under a fresh id, owned by the session user and stamped `now`,
        leaving every existing note as it was. */
    method AddNote(form: Option<NoteForm>, now: int) returns (out: Outcome)
      requires Valid()
      modifies this
      ensures Valid()
      ensures session == old(session) && users == old(users) && nextUserId == old(nextUserId)
      ensures session.Anonymous? ==>
        notes == old(notes) && nextNoteId == old(nextNoteId) && out == Redirect(ToLogin, Some(LoginRequired))
      ensures session.Authenticated? && form.None? ==>
        notes == old(notes) && nextNoteId == old(nextNoteId) && out == Render(AddNotePage, None)
      ensures session.Authenticated? && form.Some? ==>
        var title, content := Strip(form.value.title), Strip(form.value.content);
        if title == [] || content == [] then
          notes == old(notes) && nextNoteId == old(nextNoteId) && out == Redirect(ToAddNote, Some(TitleContentRequired))
        else
          && notes == old(notes) + [Note(old(nextNoteId), title, content, session.userId, now)]
          && (forall n :: n in old(notes) ==> n.id != old(nextNoteId))
          && nextNoteId == old(nextNoteId) + 1
          && out == Redirect(ToViewAll, Some(NoteAdded))
    {
      if session.Anonymous? {
        return Redirect(ToLogin, Some(LoginRequired));
      }
      if form.None? {
        return Render(AddNotePage, None);
      }
      var title, content := Strip(form.value.title), Strip(form.value.content);
      if title == [] || content == [] {
        return Redirect(ToAddNote, Some(TitleContentRequired));
      }
      var note := Note(nextNoteId, title, content, session.userId, now);
      NoteAppendKeepsIds(users, notes, note, nextNoteId);
      notes := notes + [note];
      nextNoteId := nextNoteId + 1;
      out := Redirect(ToViewAll, Some(NoteAdded));
    }

    /** `/updatenote/<id>`. Anonymous: to login. A note that is missing or
        not the session user's: "Unauthorized access." and no change. A GET
        renders the note; a POST overwrites its title and content with the
        stripped fields, blank or not, keeping its id, owner and creation
        time. */
    method UpdateNote(noteId: nat, form: Option<NoteForm>) returns (out: Outcome)
      requires Valid()
      modifies this
      ensures Valid()
      ensures session == old(session) && users == old(users)
      ensures nextUserId == old(nextUserId) && nextNoteId == old(nextNoteId)
      ensures session.Anonymous? ==> notes == old(notes) && out == Redirect(ToLogin, None)
      ensures session.Authenticated? ==>
        match SelectNote(old(notes), noteId, session.userId)
        case None => notes == old(notes) && out == Redirect(ToViewAll, Some(UnauthorizedAccess))
        case Some(note) =>
          if form.None? then notes == old(notes) && out == Render(UpdateNotePage(note), None)
          else
            && notes == UpdateNoteRows(old(notes), noteId, session.userId, Strip(form.value.title), Strip(form.value.content))
            && out == Redirect(ToViewAll, Some(NoteUpdated))
    {
      if session.Anonymous? {
        return Redirect(ToLogin, None);
      }
      var found := SelectNote(notes, noteId, session.userId);
      if found.None? {
        return Redirect(ToViewAll, Some(UnauthorizedAccess));
      }
      if form.None? {
        return Render(UpdateNotePage(found.value), None);
      }
      ghost var before := notes;
      notes := UpdateNoteRows(notes, noteId, session.userId, Strip(form.value.title), Strip(form.value.content));
      assert forall i :: 0 <= i < |notes| ==> notes[i].id == before[i].id && notes[i].owner == before[i].owner;
      out := Redirect(ToViewAll, Some(NoteUpdated));
    }

    /** `/deletenote/<id>`. Anonymous: to login. Otherwise it deletes the
        note only when it belongs to the session user; a missing or foreign
        id deletes nothing, and the response is the same either way. */
    method DeleteNote(noteId: nat) returns (out: Outcome)
      requires Valid()
      modifies this
      ensures Valid()
      ensures session == old(session) && users == old(users)
      ensures nextUserId == old(nextUserId) && nextNoteId == old(nextNoteId)
      ensures session.Anonymous? ==> notes == old(notes) && out == Redirect(ToLogin, None)
      ensures session.Authenticated? ==>
        notes == DeleteNoteRows(old(notes), noteId, session.userId) && out == Redirect(ToViewAll, Some(NoteDeleted))
    {
      if session.Anonymous? {
        return Redirect(ToLogin, None);
      }
      ghost var before := notes;
      notes := DeleteNoteRows(notes, noteId, session.userId);
      DeleteKeepsDistinctIds(NotTarget(noteId, session.userId), before);
      forall i | 0 <= i < |notes| ensures notes[i].id < nextNoteId && IsUserId(users, notes[i].owner) {
        assert notes[i] in before;
      }
      out := Redirect(ToViewAll, Some(NoteDeleted));
    }

    /** `/reset/<token>`. A token that fails to load gives the plain text
        "Invalid or expired link". With a valid token, a GET renders the
        form and a POST sets the hash of the new password, unchecked, on
        every user with the token's email (none, one or several), then
        redirects to login. The session and the notes are untouched. */
    method ResetPassword(token: ResetToken, newPassword: Option<string>, now: int, salt: Salt) returns (out: Outcome)
      requires Valid()
      modifies this
      ensures Valid()
      ensures session == old(session) && notes == old(notes)
      ensures nextUserId == old(nextUserId) && nextNoteId == old(nextNoteId)
      ensures match Loads(secretKey, token, now)
        case None => users == old(users) && out == PlainText(InvalidLinkText)
        case Some(email) =>
          if newPassword.None? then users == old(users) && out == Render(ResetPage, None)
          else
            && users == SetPasswordByEmail(old(users), email, GeneratePasswordHash(newPassword.value, salt))
            && out == Redirect(ToLogin, Some(PasswordResetSucceeded))
    {
      var loaded := Loads(secretKey, token, now);
      if loaded.None? {
        return PlainText(InvalidLinkText);
      }
      if newPassword.None? {
        return Render(ResetPage, None);
      }
      var hashed := GeneratePasswordHash(newPassword.value, salt);
      ResetKeepsConsistent(users, notes, session, nextUserId, nextNoteId, loaded.value, hashed);
      users := SetPasswordByEmail(users, loaded.value, hashed);
      out := Redirect(ToLogin, Some(PasswordResetSucceeded));
    }
  }
}
