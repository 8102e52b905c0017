/** The forgotten-password flow (components/ForgotPasswordModal.tsx): step
    1 identifies the student by code and birth date, step 2 sets a new
    password for the student found. */
module ForgotPasswordModal {
  import opened Types
  import Store
  import opened ChangePasswordModal

  /** `if (!userIdToReset)`: no id, or the id 0. */
  predicate Falsy(id: Option<int>)
  {
    id.None? || id.value == 0
  }

  class ForgotPasswordFlow {
    var step: int
    var code: string
    var birthDate: string
    var newPassword: string
    var confirmPassword: string
    var error: FormError
    var succeeded: bool
    var isLoading: bool
    var userIdToReset: Option<int>

    /** The flow is at step 1 or 2, and it holds a target id exactly at step 2. */
    ghost predicate Valid()
      reads this
    {
      (step == 1 || step == 2) && (step == 2 <==> userIdToReset.Some?)
    }

    predicate Initial()
      reads this
    {
      step == 1 && code == "" && birthDate == "" && newPassword == "" && confirmPassword == ""
      && error == NoError && !succeeded && !isLoading && userIdToReset.None?
    }

    constructor ()
      ensures Initial() && Valid()
    {
      step := 1;
      code, birthDate, newPassword, confirmPassword := "", "", "", "";
      error, succeeded, isLoading := NoError, false, false;
      userIdToReset := None;
    }

    method SetIdentity(c: string, d: string)
      modifies this`code, this`birthDate
      ensures code == c && birthDate == d
    {
      code, birthDate := c, d;
    }

    method SetPasswords(next: string, confirmation: string)
      modifies this`newPassword, this`confirmPassword
      ensures newPassword == next && confirmPassword == confirmation
    {
      newPassword, confirmPassword := next, confirmation;
    }

    /** resetAllState, also run by handleClose. */
    method ResetAllState()
      modifies this
      ensures Initial() && Valid()
    {
      step := 1;
      code := "";
      birthDate := "";
      newPassword := "";
      confirmPassword := "";
      error := NoError;
      succeeded := false;
      isLoading := false;
      userIdToReset := None;
    }

    /** handleVerify: the first student matching the code and birth date becomes the
        target and the flow moves to step 2; otherwise the step and target
        stay and the failure is shown. */
    method HandleVerify(db: Store.MockDb)
      requires Valid()
      modifies this`error, this`isLoading, this`userIdToReset, this`step
      ensures Valid() && !isLoading
      ensures (error == NoError) <==> exists i :: 0 <= i < |db.users| && db.users[i].role == Role.Student
                                                 && db.users[i].code == code && db.users[i].birthDate == birthDate
      ensures error == NoError ==>
                step == 2 && exists i :: db.IsFirstIdentity(i, code, birthDate) && userIdToReset == Some(db.users[i].id)
      ensures error != NoError ==>
                error == ServerError(VerificationFailed) && step == old(step) && userIdToReset == old(userIdToReset)
    {
      error := NoError;
      isLoading := true;
      var r := db.VerifyStudentForPasswordReset(code, birthDate);
      if r.Ok? {
        userIdToReset := Some(r.value);
        step := 2;
      } else {
        error := ServerError(r.error);
      }
      isLoading := false;
    }

    /** handleResetPassword: the local checks come first; with a falsy
        target the handler returns after raising the loading flag, without
        a call; otherwise the store sets the new password. */
    method HandleResetPassword(db: Store.MockDb) returns (called: bool)
      requires Valid() && db.Valid()
      modifies this`error, this`succeeded, this`isLoading, db`users, db`userPasswords
      ensures Valid() && db.Valid()
      ensures called <==> CheckNewPassword(newPassword, confirmPassword) == Accepted && !Falsy(userIdToReset)
      ensures CheckNewPassword(newPassword, confirmPassword) != Accepted ==>
                error == CheckError(CheckNewPassword(newPassword, confirmPassword)) && isLoading == old(isLoading)
      ensures CheckNewPassword(newPassword, confirmPassword) == Accepted && Falsy(userIdToReset) ==>
                error == NoError && isLoading
      ensures !called ==> succeeded == old(succeeded) && db.users == old(db.users)
                          && db.userPasswords == old(db.userPasswords)
      ensures called ==> !isLoading
                         && (error == NoError <==> userIdToReset.value in Store.Ids(old(db.users)))
                         && (error == NoError ==> succeeded && db.userPasswords
                                                  == old(db.userPasswords)[userIdToReset.value := Store.Hash(newPassword)])
                         && (error != NoError ==> error == ServerError(UnexpectedError) && succeeded == old(succeeded)
                                                  && db.users == old(db.users) && db.userPasswords == old(db.userPasswords))
      ensures called && error == NoError ==>
                var i := Store.IndexOfId(old(db.users), userIdToReset.value).value;
                db.users == old(db.users)[i := old(db.users)[i].(mustChangePassword := false)]
    {
      var check := CheckNewPassword(newPassword, confirmPassword);
      if check != Accepted {
        error := CheckError(check);
        return false;
      }
      error := NoError;
      isLoading := true;
      if Falsy(userIdToReset) {
        return false;
      }
      var r := db.ResetPasswordAfterVerification(userIdToReset.value, newPassword);
      if r.Done? {
        succeeded := true;
      } else {
        error := ServerError(r.error);
      }
      isLoading := false;
      return true;
    }
  }
}
