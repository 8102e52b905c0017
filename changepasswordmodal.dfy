/** The first-login password modal (components/ChangePasswordModal.tsx):
    the strength score shown under the new password, and the checks made
    before the new password is submitted. The other two password forms use
    the same score and the same checks. */
module ChangePasswordModal {
  import opened Types
  import opened Text
  import Store
  import App

  /** The five things the strength score rewards. */
  datatype Criterion = LongerThanEight | HasUppercase | HasLowercase | HasDigitChar | HasOtherChar

  /** The criteria a password meets; the regular expressions `[A-Z]`,
      `[a-z]`, `[0-9]` and `[^A-Za-z0-9]` each ask for one such character. */
  function Criteria(password: string): (r: set<Criterion>)
    ensures LongerThanEight in r <==> |password| > 8
    ensures HasUppercase in r <==> HasUpper(password)
    ensures HasLowercase in r <==> HasLower(password)
    ensures HasDigitChar in r <==> HasDigit(password)
    ensures HasOtherChar in r <==> HasOther(password)
  {
    Part(|password| > 8, LongerThanEight) + Part(HasUpper(password), HasUppercase)
    + Part(HasLower(password), HasLowercase) + Part(HasDigit(password), HasDigitChar)
    + Part(HasOther(password), HasOtherChar)
  }

  function Part(met: bool, c: Criterion): set<Criterion>
  {
    if met then {c} else {}
  }

  function Point(met: bool): nat
  {
    if met then 1 else 0
  }

  lemma DisjointUnion(a: set<Criterion>, b: set<Criterion>)
    requires a * b == {}
    ensures |a + b| == |a| + |b|
  {
  }

  /** The five parts are disjoint, so the number of criteria met is the sum
      of one point per criterion. */
  lemma CriteriaCount(password: string)
    ensures |Criteria(password)| == Point(|password| > 8) + Point(HasUpper(password)) + Point(HasLower(password))
                                    + Point(HasDigit(password)) + Point(HasOther(password))
  {
    var p1 := Part(|password| > 8, LongerThanEight);
    var p2 := Part(HasUpper(password), HasUppercase);
    var p3 := Part(HasLower(password), HasLowercase);
    var p4 := Part(HasDigit(password), HasDigitChar);
    var p5 := Part(HasOther(password), HasOtherChar);
    DisjointUnion(p1, p2);
    DisjointUnion(p1 + p2, p3);
    DisjointUnion(p1 + p2 + p3, p4);
    DisjointUnion(p1 + p2 + p3 + p4, p5);
  }

  const AllCriteria: set<Criterion> := {LongerThanEight, HasUppercase, HasLowercase, HasDigitChar, HasOtherChar}

  /** getStrength: one point per criterion met. */
  method GetStrength(password: string) returns (score: nat)
    ensures score == |Criteria(password)|
  {
    score := 0;
    if |password| > 8 {
      score := score + 1;
    }
    if HasUpper(password) {
      score := score + 1;
    }
    if HasLower(password) {
      score := score + 1;
    }
    if HasDigit(password) {
      score := score + 1;
    }
    if HasOther(password) {
      score := score + 1;
    }
    CriteriaCount(password);
  }

  lemma SubsetCardinality(a: set<Criterion>, b: set<Criterion>)
    requires a <= b
    ensures |a| <= |b|
  {
    assert b == a + (b - a);
  }

  /** The score lies in 0..5, so it always indexes the six labels and colours. */
  lemma StrengthInRange(password: string)
    ensures 0 <= |Criteria(password)| <= 5 < |StrengthLabels|
  {
    SubsetCardinality(Criteria(password), AllCriteria);
  }

  /** Meeting more criteria never lowers the score. */
  lemma StrengthMonotone(p: string, q: string)
    requires Criteria(p) <= Criteria(q)
    ensures |Criteria(p)| <= |Criteria(q)|
  {
    SubsetCardinality(Criteria(p), Criteria(q));
  }

  const StrengthLabels: seq<string> := ["R\U{1EA5}t y\U{1EBF}u", "Y\U{1EBF}u", "Trung b\U{00EC}nh", "T\U{1ED1}t",
                                         "M\U{1EA1}nh", "R\U{1EA5}t m\U{1EA1}nh"]

  /** `labels[strength]`. */
  function StrengthLabel(password: string): (r: string)
    ensures r in StrengthLabels
  {
    StrengthInRange(password);
    StrengthLabels[|Criteria(password)|]
  }

  const MinPasswordLength: nat := 8

  /** The outcome of the local checks on a new password and its confirmation. */
  datatype NewPasswordCheck = TooShort | Mismatch | Accepted

  /** The length is checked first, then the confirmation. */
  function CheckNewPassword(newPassword: string, confirmation: string): (r: NewPasswordCheck)
    ensures r == Accepted <==> |newPassword| >= MinPasswordLength && newPassword == confirmation
    ensures |newPassword| < MinPasswordLength ==> r == TooShort
    ensures r == Mismatch <==> |newPassword| >= MinPasswordLength && newPassword != confirmation
  {
    if |newPassword| < MinPasswordLength then TooShort
    else if newPassword != confirmation then Mismatch
    else Accepted
  }

  /** An eight-character password is accepted but earns no length point:
      the check wants at least eight, the score more than eight. */
  lemma EightCharactersAcceptedWithoutLengthPoint(password: string)
    requires |password| == 8
    ensures CheckNewPassword(password, password) == Accepted
    ensures LongerThanEight !in Criteria(password)
  {
  }

  /** What the forms show after a submission. */
  datatype FormError = NoError | LengthError | MismatchError | NotSignedIn | ServerError(error: ApiError)

  function CheckError(check: NewPasswordCheck): FormError
  {
    match check
    case TooShort => LengthError
    case Mismatch => MismatchError
    case Accepted => NoError
  }

  class ChangePasswordForm {
    var newPassword: string
    var confirmPassword: string
    var error: FormError
    var isLoading: bool

    constructor ()
      ensures newPassword == "" && confirmPassword == "" && error == NoError && !isLoading
    {
      newPassword := "";
      confirmPassword := "";
      error := NoError;
      isLoading := false;
    }

    method SetNewPassword(value: string)
      modifies this`newPassword
      ensures newPassword == value
    {
      newPassword := value;
    }

    method SetConfirmPassword(value: string)
      modifies this`confirmPassword
      ensures confirmPassword == value
    {
      confirmPassword := value;
    }

    /** handleSubmit: a failed check sets its message and submits nothing;
        otherwise the password goes to the session's changePassword, whose
        failure becomes the message, and loading ends. */
    method HandleSubmit(session: App.Session, db: Store.MockDb) returns (submitted: bool)
      requires session.Valid() && db.Valid()
      modifies this`error, this`isLoading, session`user, db`users, db`userPasswords
      ensures session.Valid() && db.Valid()
      ensures submitted <==> CheckNewPassword(old(newPassword), old(confirmPassword)) == Accepted
      ensures !submitted ==> error == CheckError(CheckNewPassword(newPassword, confirmPassword))
                             && isLoading == old(isLoading) && session.user == old(session.user)
                             && db.users == old(db.users) && db.userPasswords == old(db.userPasswords)
      ensures submitted ==> !isLoading
      ensures submitted && old(session.user).Some? ==>
                (error == NoError <==> old(session.user).value.id in Store.Ids(old(db.users)))
      ensures submitted && error == NoError && old(session.user).Some? ==>
                && session.user == Some(old(session.user).value.(mustChangePassword := false))
                && db.userPasswords == old(db.userPasswords)[old(session.user).value.id := Store.Hash(newPassword)]
                && var i := Store.IndexOfId(old(db.users), old(session.user).value.id).value;
                   db.users == old(db.users)[i := old(db.users)[i].(mustChangePassword := false)]
      ensures error != NoError ==> session.user == old(session.user)
                                   && db.users == old(db.users) && db.userPasswords == old(db.userPasswords)
    {
      var check := CheckNewPassword(newPassword, confirmPassword);
      if check != Accepted {
        error := CheckError(check);
        return false;
      }
      error := NoError;
      isLoading := true;
      var r := session.ChangePassword(db, newPassword);
      if r.Fail? {
        error := ServerError(r.error);
      }
      isLoading := false;
      return true;
    }
  }
}
