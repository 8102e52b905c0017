/** The student's registration form (components/StudentDashboard.tsx): the
    bounded subject toggles, the ordered checks before saving, the save
    button's state, the countdown and the "already registered" test. */
module StudentDashboard {
  import opened Types
  import opened Text
  import opened Lists
  import opened Catalogue
  import Store

  /** At most four review subjects and two exam subjects can be chosen. */
  const ReviewLimit: nat := 4
  const ExamLimit: nat := 2

  /** The exam-subject count the save checks demand. */
  const RequiredExamCount: nat := 2

  function Other(id: int): int -> bool
  {
    (x: int) => x != id
  }

  /** The state updater of handleSelectionChange: nothing while locked; a
      chosen id is removed; a new id is appended only below the limit. */
  function Toggle(prev: seq<int>, id: int, limit: nat, locked: bool): (r: seq<int>)
    ensures forall x :: x != id ==> (x in r <==> x in prev)
    ensures id in r <==> if locked then id in prev else id !in prev && |prev| < limit
  {
    if locked then prev
    else if id in prev then FilterMembers(prev, Other(id)); Filter(prev, Other(id))
    else if |prev| < limit then prev + [id]
    else prev
  }

  predicate Distinct(s: seq<int>)
  {
    forall i, j :: 0 <= i < j < |s| ==> s[i] != s[j]
  }

  /** While locked, a selection change does nothing. */
  lemma LockedToggleIsNoop(prev: seq<int>, id: int, limit: nat)
    ensures Toggle(prev, id, limit, true) == prev
  {
  }

  /** Toggling a chosen id removes it and keeps every other id, in order. */
  lemma {:induction false} ToggleRemoves(prev: seq<int>, id: int, limit: nat)
    requires id in prev
    ensures Toggle(prev, id, limit, false) == Filter(prev, Other(id))
    ensures id !in Toggle(prev, id, limit, false)
    ensures forall x :: x in Toggle(prev, id, limit, false) <==> x in prev && x != id
  {
    var r := Filter(prev, Other(id));
    forall x | x in r ensures x in prev && x != id {
      var k :| 0 <= k < |r| && r[k] == x;
    }
    forall x | x in prev && x != id ensures x in r {
      var k :| 0 <= k < |prev| && prev[k] == x;
    }
  }

  /** Toggling a new id appends it exactly when the list is below the limit;
      otherwise the list is unchanged. */
  lemma ToggleAdds(prev: seq<int>, id: int, limit: nat)
    requires id !in prev
    ensures |prev| < limit ==> Toggle(prev, id, limit, false) == prev + [id]
    ensures |prev| >= limit ==> Toggle(prev, id, limit, false) == prev
  {
  }

  /** A list within the limit stays within it. */
  lemma ToggleKeepsBound(prev: seq<int>, id: int, limit: nat, locked: bool)
    requires |prev| <= limit
    ensures |Toggle(prev, id, limit, locked)| <= limit
  {
  }

  /** A list without repeats stays without repeats. */
  lemma {:induction false} ToggleKeepsDistinct(prev: seq<int>, id: int, limit: nat, locked: bool)
    requires Distinct(prev)
    ensures Distinct(Toggle(prev, id, limit, locked))
  {
    if !locked && id in prev {
      FilterKeepsDistinct(prev, Other(id));
    }
  }

  lemma {:induction false} FilterKeepsDistinct(s: seq<int>, p: int -> bool)
    requires Distinct(s)
    ensures Distinct(Filter(s, p))
  {
    if s != [] {
      FilterKeepsDistinct(s[1..], p);
      var rest := Filter(s[1..], p);
      if p(s[0]) {
        forall k | 0 <= k < |rest| ensures rest[k] != s[0] {
          var m :| 0 <= m < |s[1..]| && s[1..][m] == rest[k];
          assert s[m + 1] == rest[k];
        }
        assert Filter(s, p) == [s[0]] + rest;
      }
    }
  }

  /** Adding an id and toggling it again gives back the original list. */
  lemma ToggleTwiceAfterAdd(prev: seq<int>, id: int, limit: nat)
    requires id !in prev && |prev| < limit
    ensures Toggle(Toggle(prev, id, limit, false), id, limit, false) == prev
  {
    FilterAppend(prev, [id], Other(id));
    FilterAll(prev, Other(id));
    assert Filter([id], Other(id)) == [];
  }

  /** A required field whose value is missing, falsy or only whitespace. */
  function FieldBlank(data: map<string, string>, f: CustomField): (r: bool)
    ensures r <==> f.required && (f.id !in data || AllWhitespace(data[f.id]))
  {
    if f.id in data then
      TrimEmptyIffAllWhitespace(data[f.id]);
      f.required && (data[f.id] == "" || Trim(data[f.id]) == "")
    else f.required
  }

  function Blank(data: map<string, string>): CustomField -> bool
  {
    (f: CustomField) => FieldBlank(data, f)
  }

  /** What a click on "save" leads to. */
  datatype SaveOutcome = Locked | ExamIncomplete | MissingField(caption: string) | Proceed

  /** The save checks in the order the form applies them: the (client-side)
      lock, then the exam-subject count when that section is shown, then the
      first blank required field in catalogue order when custom fields are
      shown. The number of review subjects is never checked. */
  function SaveCheck(locked: bool, settings: RegistrationSettings, exam: seq<int>,
                     fields: seq<CustomField>, data: map<string, string>): (r: SaveOutcome)
    ensures r == Locked <==> locked
    ensures r == ExamIncomplete <==> !locked && settings.showExamSubjects && |exam| != RequiredExamCount
    ensures r.MissingField? ==> settings.showCustomFields && !(settings.showExamSubjects && |exam| != RequiredExamCount)
  {
    if locked then Locked
    else if settings.showExamSubjects && |exam| != RequiredExamCount then ExamIncomplete
    else if settings.showCustomFields && FindFirst(fields, Blank(data)).Some?
    then MissingField(fields[FindFirst(fields, Blank(data)).value].caption)
    else Proceed
  }

  /** The lock check comes first and wins over every other failure. */
  lemma LockWins(settings: RegistrationSettings, exam: seq<int>, fields: seq<CustomField>, data: map<string, string>)
    ensures SaveCheck(true, settings, exam, fields, data) == Locked
  {
  }

  /** The save call is reached exactly when every check passes. */
  lemma ProceedIffAllChecksPass(locked: bool, settings: RegistrationSettings, exam: seq<int>,
                                fields: seq<CustomField>, data: map<string, string>)
    ensures SaveCheck(locked, settings, exam, fields, data) == Proceed <==>
      && !locked
      && (settings.showExamSubjects ==> |exam| == RequiredExamCount)
      && (settings.showCustomFields ==> forall i :: 0 <= i < |fields| ==> !FieldBlank(data, fields[i]))
  {
  }

  /** A missing-field report names the first blank required field of the
      catalogue, and only when the earlier checks passed. */
  lemma MissingFieldIsFirstBlank(locked: bool, settings: RegistrationSettings, exam: seq<int>,
                                 fields: seq<CustomField>, data: map<string, string>, caption: string)
    requires SaveCheck(locked, settings, exam, fields, data) == MissingField(caption)
    ensures !locked && settings.showCustomFields
    ensures settings.showExamSubjects ==> |exam| == RequiredExamCount
    ensures exists i :: (0 <= i < |fields| && FieldBlank(data, fields[i]) && fields[i].caption == caption
                         && forall j :: 0 <= j < i ==> !FieldBlank(data, fields[j]))
  {
    var i := FindFirst(fields, Blank(data)).value;
    assert FieldBlank(data, fields[i]);
  }

  /** handleSave's checks as the source runs them: early returns, and a
      loop over the custom-field catalogue. */
  method ValidateSave(locked: bool, settings: RegistrationSettings, exam: seq<int>,
                      fields: seq<CustomField>, data: map<string, string>) returns (r: SaveOutcome)
    ensures r == SaveCheck(locked, settings, exam, fields, data)
  {
    if locked {
      return Locked;
    }
    if settings.showExamSubjects && |exam| != RequiredExamCount {
      return ExamIncomplete;
    }
    if settings.showCustomFields {
      for i := 0 to |fields|
        invariant forall j :: 0 <= j < i ==> !FieldBlank(data, fields[j])
      {
        if FieldBlank(data, fields[i]) {
          assert Blank(data)(fields[i]);
          return MissingField(fields[i].caption);
        }
      }
    }
    return Proceed;
  }

  /** The save button is disabled while saving, or while exam subjects are
      shown and not exactly two are chosen. */
  predicate SaveDisabled(isSaving: bool, settings: RegistrationSettings, exam: seq<int>)
  {
    isSaving || (settings.showExamSubjects && |exam| != RequiredExamCount)
  }

  /** A click on an enabled save button never fails on the exam count. */
  lemma EnabledSaveNeverFailsOnExamCount(settings: RegistrationSettings, exam: seq<int>, locked: bool,
                                         fields: seq<CustomField>, data: map<string, string>)
    requires !SaveDisabled(false, settings, exam)
    ensures SaveCheck(locked, settings, exam, fields, data) != ExamIncomplete
  {
  }

  /** The countdown: nothing for a missing deadline, the empty record once
      the deadline is reached, otherwise its four parts. */
  datatype TimeLeft = Expired | Remaining(days: int, hours: int, minutes: int, seconds: int)

  const MillisPerSecond: int := 1000
  const MillisPerMinute: int := 60 * 1000
  const MillisPerHour: int := 60 * 60 * 1000
  const MillisPerDay: int := 24 * 60 * 60 * 1000

  /** calculateTimeLeft, with both instants in milliseconds. For a positive
      difference the source's `Math.floor` of a quotient is integer division,
      and the floor of a remainder is the integer remainder. */
  function CalculateTimeLeft(deadline: Option<int>, now: int): (r: Option<TimeLeft>)
    ensures r.None? <==> deadline.None?
    ensures r == Some(Expired) <==> deadline.Some? && deadline.value <= now
  {
    if deadline.None? then None
    else
      var d := deadline.value - now;
      if d > 0 then
        Some(Remaining(d / MillisPerDay, (d / MillisPerHour) % 24, (d / MillisPerMinute) % 60,
                       (d / MillisPerSecond) % 60))
      else Some(Expired)
  }

  /** The parts are in range and add back up to the difference, up to the
      milliseconds below one second. */
  lemma TimeLeftParts(deadline: int, now: int)
    requires deadline > now
    ensures var t := CalculateTimeLeft(Some(deadline), now).value;
      && t.Remaining?
      && t.days >= 0 && 0 <= t.hours < 24 && 0 <= t.minutes < 60 && 0 <= t.seconds < 60
      && t.days * MillisPerDay + t.hours * MillisPerHour + t.minutes * MillisPerMinute
         + t.seconds * MillisPerSecond + (deadline - now) % MillisPerSecond == deadline - now
  {
    var d := deadline - now;
    var s := d / 1000;
    assert d == 1000 * s + d % 1000;
    assert d / 60000 == s / 60;
    assert d / 3600000 == s / 3600;
    assert d / 86400000 == s / 86400;
    assert s == 60 * (s / 60) + s % 60;
    assert s / 3600 == (s / 60) / 60;
    assert s / 60 == 60 * (s / 3600) + (s / 60) % 60;
    assert s / 86400 == (s / 3600) / 24;
    assert s / 3600 == 24 * (s / 86400) + (s / 3600) % 24;
  }

  /** A deadline already reached gives the empty record; no deadline gives nothing. */
  lemma TimeLeftEnds(deadline: Option<int>, now: int)
    ensures deadline.None? <==> CalculateTimeLeft(deadline, now).None?
    ensures deadline.Some? && deadline.value <= now ==> CalculateTimeLeft(deadline, now) == Some(Expired)
  {
  }

  /** The ids whose name is found, not empty, in the catalogue, in order. */
  function RegisteredNames(ids: seq<int>, catalogue: seq<Subject>): (r: seq<string>)
    ensures |r| <= |ids|
    ensures r == [] <==> forall i :: 0 <= i < |ids| ==> !Named(catalogue, ids[i])
  {
    if ids == [] then []
    else if Named(catalogue, ids[0]) then [NameOf(catalogue, ids[0]).value] + RegisteredNames(ids[1..], catalogue)
    else RegisteredNames(ids[1..], catalogue)
  }

  function NamedIn(catalogue: seq<Subject>): int -> bool
  {
    (id: int) => Named(catalogue, id)
  }

  /** The catalogue name of each id, in the ids' order ("" for an id
      without one). */
  function NamesOf(ids: seq<int>, catalogue: seq<Subject>): (r: seq<string>)
    ensures |r| == |ids|
    ensures forall k :: 0 <= k < |r| && Named(catalogue, ids[k]) ==> NameOf(catalogue, ids[k]) == Some(r[k]) && r[k] != ""
  {
    if ids == [] then []
    else [if Named(catalogue, ids[0]) then NameOf(catalogue, ids[0]).value else ""] + NamesOf(ids[1..], catalogue)
  }

  /** The names shown are the names of the named ids, one per named id and
      in the order the ids were chosen; unnamed ids are skipped. */
  lemma {:induction false} RegisteredNamesInOrder(ids: seq<int>, catalogue: seq<Subject>)
    ensures RegisteredNames(ids, catalogue) == NamesOf(Filter(ids, NamedIn(catalogue)), catalogue)
  {
    if ids != [] {
      RegisteredNamesInOrder(ids[1..], catalogue);
      var rest := Filter(ids[1..], NamedIn(catalogue));
      if Named(catalogue, ids[0]) {
        assert Filter(ids, NamedIn(catalogue)) == [ids[0]] + rest;
        assert ([ids[0]] + rest)[1..] == rest;
      }
    }
  }

  /** The summary card shows when some chosen subject, review or exam, has a
      name in the combined catalogue (review entries first, exam entries last). */
  predicate HasRegistered(s: Student, review: seq<Subject>, exam: seq<Subject>)
  {
    |RegisteredNames(s.reviewSubjects, review + exam)| > 0 || |RegisteredNames(s.examSubjects, review + exam)| > 0
  }

  lemma HasRegisteredIffSomeNamed(s: Student, review: seq<Subject>, exam: seq<Subject>)
    ensures HasRegistered(s, review, exam) <==>
      (exists i :: 0 <= i < |s.reviewSubjects| && Named(review + exam, s.reviewSubjects[i]))
      || (exists i :: 0 <= i < |s.examSubjects| && Named(review + exam, s.examSubjects[i]))
  {
  }

  /** The message line under the form. */
  datatype SaveMessage =
    | NoMessage
    | LockedMessage
    | ExamCountMessage
    | RequiredFieldMessage(caption: string)
    | SavedMessage
    | ErrorMessage(error: ApiError)

  function MessageFor(outcome: SaveOutcome): SaveMessage
  {
    match outcome
    case Locked => LockedMessage
    case ExamIncomplete => ExamCountMessage
    case MissingField(caption) => RequiredFieldMessage(caption)
    case Proceed => NoMessage
  }

  /** The form's state after its data has been loaded. */
  class RegistrationForm {
    var isLocked: bool
    var settings: RegistrationSettings
    var customFields: seq<CustomField>
    var selectedReview: seq<int>
    var selectedExam: seq<int>
    var customData: map<string, string>
    var isSaving: bool
    var saveMessage: SaveMessage

    /** fetchInitialData: the selections and answers start from the stored
        record, the lock and the catalogue from the store's answers. */
    constructor (student: Student, locked: bool, settings: RegistrationSettings, fields: seq<CustomField>)
      ensures isLocked == locked && this.settings == settings && customFields == fields
      ensures selectedReview == student.reviewSubjects && selectedExam == student.examSubjects
      ensures customData == student.customData
      ensures !isSaving && saveMessage == NoMessage
    {
      isLocked := locked;
      this.settings := settings;
      customFields := fields;
      selectedReview := student.reviewSubjects;
      selectedExam := student.examSubjects;
      customData := student.customData;
      isSaving := false;
      saveMessage := NoMessage;
    }

    method ChangeReview(id: int)
      modifies this`selectedReview
      ensures selectedReview == Toggle(old(selectedReview), id, ReviewLimit, isLocked)
    {
      if isLocked {
        return;
      }
      selectedReview := Toggle(selectedReview, id, ReviewLimit, false);
    }

    method ChangeExam(id: int)
      modifies this`selectedExam
      ensures selectedExam == Toggle(old(selectedExam), id, ExamLimit, isLocked)
    {
      if isLocked {
        return;
      }
      selectedExam := Toggle(selectedExam, id, ExamLimit, false);
    }

    /** handleCustomDataChange: one answer is set, the others stay. */
    method ChangeCustomData(fieldId: string, value: string)
      modifies this`customData
      ensures customData == old(customData)[fieldId := value]
    {
      customData := customData[fieldId := value];
    }

    /** handleSave: the checks run on the form's own state; only when they
        all pass is the store asked to save, and the store then applies its
        own lock rule with the current time. */
    method HandleSave(db: Store.MockDb, userId: int, now: int)
      requires db.Valid()
      modifies this`isSaving, this`saveMessage, db`users
      ensures db.Valid()
      ensures isSaving == (old(isSaving) && SaveCheck(isLocked, settings, selectedExam, customFields, customData) != Proceed)
      ensures SaveCheck(isLocked, settings, selectedExam, customFields, customData) != Proceed ==>
                db.users == old(db.users)
                && saveMessage == MessageFor(SaveCheck(isLocked, settings, selectedExam, customFields, customData))
      ensures SaveCheck(isLocked, settings, selectedExam, customFields, customData) == Proceed ==>
                if !EffectivelyLocked(db.isRegistrationLocked, db.registrationDeadline, now)
                   && userId in Store.Ids(old(db.users))
                then saveMessage == SavedMessage
                     && var i := Store.IndexOfId(old(db.users), userId).value;
                        db.users == old(db.users)[i := old(db.users)[i].(reviewSubjects := selectedReview,
                                                                         examSubjects := selectedExam,
                                                                         customData := customData,
                                                                         registrationDate := Some(now))]
                else db.users == old(db.users)
                     && saveMessage == ErrorMessage(if EffectivelyLocked(db.isRegistrationLocked, db.registrationDeadline, now)
                                                    then RegistrationLocked else UserNotFound)
    {
      var outcome := ValidateSave(isLocked, settings, selectedExam, customFields, customData);
      if outcome != Proceed {
        saveMessage := MessageFor(outcome);
        return;
      }
      isSaving := true;
      saveMessage := NoMessage;
      var r := db.UpdateStudentRegistration(userId, Store.Registration(selectedReview, selectedExam, customData), now);
      if r.Done? {
        saveMessage := SavedMessage;
      } else {
        saveMessage := ErrorMessage(r.error);
      }
      isSaving := false;
    }
  }
}
