/** The password change a signed-in user asks for
    (components/ChangeOwnPasswordModal.tsx): the current password, the new
    one and its confirmation, checked locally and then by the store. */
module ChangeOwnPasswordModal {
  import opened Types
  import Store
  import opened ChangePasswordModal

  class ChangeOwnPasswordForm {
    var currentPassword: string
    var newPassword: string
    var confirmPassword: string
    var error: FormError
    var succeeded: bool
    var isLoading: bool

    /** Every field back to empty or false. */
    predicate Cleared()
      reads this
    {
      currentPassword == "" && newPassword == "" && confirmPassword == ""
      && error == NoError && !succeeded && !isLoading
    }

    constructor ()
      ensures Cleared()
    {
      currentPassword, newPassword, confirmPassword := "", "", "";
      error, succeeded, isLoading := NoError, false, false;
    }

    method SetFields(current: string, next: string, confirmation: string)
      modifies this`currentPassword, this`newPassword, this`confirmPassword
      ensures currentPassword == current && newPassword == next && confirmPassword == confirmation
    {
      currentPassword, newPassword, confirmPassword := current, next, confirmation;
    }

    /** resetState, also run by handleClose. */
    method ResetState()
      modifies this
      ensures Cleared()
    {
      currentPassword := "";
      newPassword := "";
      confirmPassword := "";
      error := NoError;
      succeeded := false;
      isLoading := false;
    }

    /** handleSubmit: a failed local check sets its message and calls
        nothing; with no signed-in user the authentication message is set
        and nothing is called; otherwise the store checks the current
        password, and a success is reported. Loading ends on every path
        that started it. */
    method HandleSubmit(user: Option<Student>, db: Store.MockDb) returns (called: bool)
      requires db.Valid()
      modifies this`error, this`succeeded, this`isLoading, db`users, db`userPasswords
      ensures db.Valid()
      ensures called <==> CheckNewPassword(newPassword, confirmPassword) == Accepted && user.Some?
      ensures CheckNewPassword(newPassword, confirmPassword) != Accepted ==>
                error == CheckError(CheckNewPassword(newPassword, confirmPassword))
                && succeeded == old(succeeded) && isLoading == old(isLoading)
      ensures CheckNewPassword(newPassword, confirmPassword) == Accepted && user.None? ==>
                error == NotSignedIn && !succeeded && !isLoading
      ensures !called ==> db.users == old(db.users) && db.userPasswords == old(db.userPasswords)
      ensures called ==> !isLoading
                         && (succeeded <==> user.value.id in Store.Ids(old(db.users))
                                            && old(db.userPasswords)[user.value.id] == Store.Hash(currentPassword))
                         && (succeeded ==> error == NoError
                                           && db.userPasswords == old(db.userPasswords)[user.value.id := Store.Hash(newPassword)])
                         && (!succeeded ==> error == ServerError(WrongCurrentPassword)
                                            && db.users == old(db.users) && db.userPasswords == old(db.userPasswords))
      ensures called && succeeded ==>
                var i := Store.IndexOfId(old(db.users), user.value.id).value;
                db.users == old(db.users)[i := old(db.users)[i].(mustChangePassword := false)]
    {
      var check := CheckNewPassword(newPassword, confirmPassword);
      if check != Accepted {
        error := CheckError(check);
        return false;
      }
      error := NoError;
      succeeded := false;
      isLoading := true;
      if user.None? {
        error := NotSignedIn;
        isLoading := false;
        return false;
      }
      var r := db.ChangeOwnPassword(user.value.id, currentPassword, newPassword);
      if r.Done? {
        succeeded := true;
      } else {
        error := ServerError(r.error);
      }
      isLoading := false;
      return true;
    }
  }
}
