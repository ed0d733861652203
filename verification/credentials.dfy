/**
 * The `user` table and its credential handling: the password hash, the
 * lookup by username used by login, the insert done by registration and
 * the password overwrite done by a password reset.
 */
module Credentials {
  import opened Wrappers

  /** The random salt that `generate_password_hash` draws; a parameter here. */
  type Salt = nat

  /** A stored password hash, modelled as an ideal salted one-way hash: the
      only way to learn anything from it is `CheckPasswordHash`, and two
      different passwords never check against the same hash. The record
      keeps what the hash was computed from so that the check can be
      stated; no handler reads it directly. */
  datatype PasswordHash = PasswordHash(salt: Salt, digestOf: string)

  /** `check_password_hash(h, candidate)`. */
  predicate CheckPasswordHash(h: PasswordHash, candidate: string) {
    h.digestOf == candidate
  }

  /** `generate_password_hash(password)` with the salt it drew: the hash
      checks against the password it was made from and against nothing else. */
  function GeneratePasswordHash(password: string, salt: Salt): (h: PasswordHash)
    ensures h.salt == salt
    ensures forall candidate :: CheckPasswordHash(h, candidate) <==> candidate == password
  {
    PasswordHash(salt, password)
  }

  /** A row of `user(id, firstname, lastname, username, email, password)`. */
  datatype User = User(id: nat, firstname: string, lastname: string, username: string,
                       email: string, password: PasswordHash)

  /** No two users share a username. */
  predicate UniqueUsernames(users: seq<User>) {
    forall i, j :: 0 <= i < j < |users| ==> users[i].username != users[j].username
  }

  /** No two users share an id (the primary key). */
  predicate DistinctUserIds(users: seq<User>) {
    forall i, j :: 0 <= i < j < |users| ==> users[i].id != users[j].id
  }

  /** `SELECT * FROM user WHERE username=?`, first row: present exactly when
      some user has that username. */
  function SelectUser(users: seq<User>, username: string): (r: Option<User>)
    ensures r.Some? ==> r.value in users && r.value.username == username
    ensures r.None? <==> forall u :: u in users ==> u.username != username
  {
    if users == [] then None
    else if users[0].username == username then Some(users[0])
    else SelectUser(users[1..], username)
  }

  /** `UPDATE user SET password=? WHERE email=?`: every user with that email,
      however many, gets the new hash; nothing else about any user changes. */
  function SetPasswordByEmail(users: seq<User>, email: string, h: PasswordHash): (r: seq<User>)
    ensures |r| == |users|
    ensures forall i :: 0 <= i < |r| ==> r[i] == users[i].(password := r[i].password)
    ensures forall i :: 0 <= i < |r| && users[i].email == email ==> r[i].password == h
    ensures forall i :: 0 <= i < |r| && users[i].email != email ==> r[i] == users[i]
  {
    if users == [] then []
    else
      var u := users[0];
      [if u.email == email then u.(password := h) else u] + SetPasswordByEmail(users[1..], email, h)
  }

  /** Login's credential check: the user found by `username` when the
      password checks against its hash. With unique usernames, it fails
      exactly when no user of that name accepts the password. */
  function Authenticate(users: seq<User>, username: string, password: string): (r: Option<User>)
    ensures r.Some? ==> r.value in users && r.value.username == username
                        && CheckPasswordHash(r.value.password, password)
    ensures UniqueUsernames(users) ==>
      (r.None? <==> forall u :: u in users && u.username == username ==> !CheckPasswordHash(u.password, password))
  {
    var found := SelectUser(users, username);
    SelectUserIsTheUser(users, username);
    if found.Some? && CheckPasswordHash(found.value.password, password) then found else None
  }

  /** With unique usernames, the lookup by a user's name finds that user. */
  lemma {:induction false} SelectUserFinds(users: seq<User>, k: nat)
    requires UniqueUsernames(users) && k < |users|
    ensures SelectUser(users, users[k].username) == Some(users[k])
  {
    if k > 0 {
      assert users[0].username != users[k].username;
      SelectUserFinds(users[1..], k - 1);
    }
  }

  /** With unique usernames, whatever user has the name is the one the lookup finds. */
  lemma SelectUserIsTheUser(users: seq<User>, username: string)
    ensures UniqueUsernames(users) ==>
      forall u :: u in users && u.username == username ==> SelectUser(users, username) == Some(u)
  {
    if UniqueUsernames(users) {
      forall u | u in users && u.username == username ensures SelectUser(users, username) == Some(u) {
        var k :| 0 <= k < |users| && users[k] == u;
        SelectUserFinds(users, k);
      }
    }
  }

  /** Appending a user whose name is not taken keeps usernames unique. */
  lemma InsertKeepsUnique(users: seq<User>, u: User)
    requires UniqueUsernames(users) && SelectUser(users, u.username).None?
    ensures UniqueUsernames(users + [u])
  {
    forall i | 0 <= i < |users| ensures users[i].username != u.username {
      assert users[i] in users;
    }
  }

  /** Appending a user leaves every earlier lookup as it was, and the new
      user is found under a name nobody had. */
  lemma {:induction false} SelectUserAppend(users: seq<User>, u: User, username: string)
    ensures SelectUser(users + [u], username) ==
      if SelectUser(users, username).Some? then SelectUser(users, username)
      else if u.username == username then Some(u) else None
  {
    if users == [] {
      assert [] + [u] == [u];
    } else {
      assert (users + [u])[1..] == users[1..] + [u];
      SelectUserAppend(users[1..], u, username);
    }
  }

  /** Registration then login: a user inserted under a free name with the
      hash of `password` is found by that name and accepts that password,
      and no other. */
  lemma RegisteredUserCanLogin(users: seq<User>, u: User, password: string, salt: Salt)
    requires SelectUser(users, u.username).None?
    requires u.password == GeneratePasswordHash(password, salt)
    ensures Authenticate(users + [u], u.username, password) == Some(u)
    ensures forall other :: other != password ==> Authenticate(users + [u], u.username, other).None?
  {
    SelectUserAppend(users, u, u.username);
  }

  /** The reset keeps the usernames, so it keeps them unique. */
  lemma ResetKeepsUnique(users: seq<User>, email: string, h: PasswordHash)
    requires UniqueUsernames(users)
    ensures UniqueUsernames(SetPasswordByEmail(users, email, h))
  {
    var r := SetPasswordByEmail(users, email, h);
    assert forall i :: 0 <= i < |r| ==> r[i].username == users[i].username;
  }

  /** Reset then login: after resetting the password of an email to the hash
      of `password`, every user with that email logs in with `password`
      and with nothing else, and every other user logs in as before. */
  lemma ResetThenLogin(users: seq<User>, email: string, password: string, salt: Salt, k: nat, candidate: string)
    requires UniqueUsernames(users) && k < |users|
    ensures var r := SetPasswordByEmail(users, email, GeneratePasswordHash(password, salt));
      && (users[k].email == email ==>
            (Authenticate(r, users[k].username, candidate).Some? <==> candidate == password))
      && (users[k].email != email ==>
            Authenticate(r, users[k].username, candidate) == Authenticate(users, users[k].username, candidate))
  {
    var r := SetPasswordByEmail(users, email, GeneratePasswordHash(password, salt));
    ResetKeepsUnique(users, email, GeneratePasswordHash(password, salt));
    SelectUserFinds(r, k);
    SelectUserFinds(users, k);
  }
}
