/** The session held by the application shell (App.tsx): the signed-in
    user and, while an administrator acts as a student, the administrator
    kept aside. */
module App {
  import opened Types
  import Store

  /** What the main area renders. */
  datatype Screen = LoginScreen | AdminScreen | StudentScreen

  class Session {
    var user: Option<Student>
    var originalUser: Option<Student>

    /** The kept-aside user exists only beside a signed-in user, and is an
        administrator. */
    ghost predicate Valid()
      reads this
    {
      originalUser.Some? ==> user.Some? && originalUser.value.role == Admin
    }

    predicate Impersonating()
      reads this
    {
      originalUser.Some?
    }

    /** The first-login modal is open exactly when the signed-in user must
        change the password. */
    predicate ForcedChangeOpen()
      reads this
    {
      user.Some? && user.value.mustChangePassword
    }

    /** The own-password modal is mounted only for a signed-in user who is
        not being impersonated. */
    predicate OwnChangeAvailable()
      reads this
    {
      user.Some? && originalUser.None?
    }

    /** renderContent. */
    function CurrentScreen(): (r: Screen)
      reads this
      ensures r == LoginScreen <==> user.None?
      ensures r == AdminScreen <==> user.Some? && user.value.role == Admin
      ensures r == StudentScreen <==> user.Some? && user.value.role.Student?
    {
      if user.None? then LoginScreen
      else if user.value.role == Admin then AdminScreen
      else StudentScreen
    }

    constructor ()
      ensures Valid() && user.None? && originalUser.None?
      ensures CurrentScreen() == LoginScreen
    {
      user := None;
      originalUser := None;
    }

    /** login: the user the store accepts, the first with the code, becomes
        the session's user; a refused login changes nothing. */
    method Login(db: Store.MockDb, code: string, password: string) returns (r: Outcome)
      requires Valid()
      modifies this`user
      ensures Valid()
      ensures r.Done? <==> exists i :: db.IsFirstWithCode(i, code) && db.users[i].id in db.userPasswords
                                      && db.userPasswords[db.users[i].id] == Store.Hash(password)
      ensures r.Done? ==> exists i :: db.IsFirstWithCode(i, code) && user == Some(db.users[i])
      ensures r.Fail? ==> r.error == InvalidCredentials && user == old(user)
      ensures r.Done? ==> user.Some? && user.value in db.users && user.value.code == code
                          && user.value.id in db.userPasswords
                          && db.userPasswords[user.value.id] == Store.Hash(password)
    {
      var found := db.Login(code, password);
      if found.Err? {
        return Fail(found.error);
      }
      user := Some(found.value);
      return Done;
    }

    /** logout clears both users. */
    method Logout()
      modifies this
      ensures Valid() && user.None? && originalUser.None?
      ensures CurrentScreen() == LoginScreen
    {
      user := None;
      originalUser := None;
    }

    /** changePassword: with a signed-in user, the store's change is made
        and the same user is kept with the forced-change flag cleared; a
        store failure is passed on and changes nothing here; with nobody
        signed in nothing happens. */
    method ChangePassword(db: Store.MockDb, newPassword: string) returns (r: Outcome)
      requires Valid() && db.Valid()
      modifies this`user, db`users, db`userPasswords
      ensures Valid() && db.Valid()
      ensures old(user).None? ==> r.Done? && user == old(user)
                                  && db.users == old(db.users) && db.userPasswords == old(db.userPasswords)
      ensures old(user).Some? ==> (r.Done? <==> old(user).value.id in Store.Ids(old(db.users)))
      ensures r.Fail? ==> r.error == UserNotFound && user == old(user)
                          && db.users == old(db.users) && db.userPasswords == old(db.userPasswords)
      ensures old(user).Some? && r.Done? ==>
                && user == Some(old(user).value.(mustChangePassword := false))
                && !ForcedChangeOpen()
                && db.userPasswords == old(db.userPasswords)[old(user).value.id := Store.Hash(newPassword)]
                && var i := Store.IndexOfId(old(db.users), old(user).value.id).value;
                   db.users == old(db.users)[i := old(db.users)[i].(mustChangePassword := false)]
    {
      if user.None? {
        return Done;
      }
      var current := user.value;
      r := db.ChangePassword(current.id, newPassword);
      if r.Done? {
        user := Some(current.(mustChangePassword := false));
      }
    }

    /** impersonate: only an administrator may act as another user; the
        administrator is kept aside and the other user signed in. */
    method Impersonate(other: Student)
      requires Valid()
      modifies this
      ensures Valid()
      ensures old(user).Some? && old(user).value.role == Admin ==>
                originalUser == old(user) && user == Some(other) && !OwnChangeAvailable()
      ensures !(old(user).Some? && old(user).value.role == Admin) ==>
                user == old(user) && originalUser == old(originalUser)
    {
      if user.Some? && user.value.role == Admin {
        originalUser := user;
        user := Some(other);
      }
    }

    /** stopImpersonating: the kept-aside administrator is signed in again;
        without one nothing happens. */
    method StopImpersonating()
      requires Valid()
      modifies this
      ensures Valid()
      ensures old(originalUser).Some? ==>
                user == old(originalUser) && originalUser.None? && CurrentScreen() == AdminScreen
      ensures old(originalUser).None? ==> user == old(user) && originalUser.None?
    {
      if originalUser.Some? {
        user := originalUser;
        originalUser := None;
      }
    }

    /** Acting as a user and stopping again gives back the administrator's
        session as it was, wherever it started. */
    method ImpersonateAndReturn(other: Student)
      requires Valid() && user.Some? && user.value.role == Admin
      modifies this
      ensures Valid()
      ensures user == old(user) && originalUser.None?
    {
      Impersonate(other);
      StopImpersonating();
    }
  }
}
