# Student subject registration: a Dafny model

This project models a web application that high-school students use to register
for review subjects and graduation-exam subjects. Administrators use it to
manage the student list, the subject catalogues, the custom form fields and the
registration window. The model covers these parts:

- the in-memory data store behind the API (`services/api.ts`), as the class
  `Store.MockDb`;
- the student's registration screen (`components/StudentDashboard.tsx`);
- the administrator's screens (`components/AdminDashboard.tsx`);
- the session shell with impersonation (`App.tsx`);
- the three password forms (`components/ChangePasswordModal.tsx`,
  `components/ChangeOwnPasswordModal.tsx` and
  `components/ForgotPasswordModal.tsx`).

Each source file is one module. Shared pieces have their own modules:

- `Types` holds the records of `types.ts`, plus `Option`, `Result` and the
  API's error kinds.
- `Text` holds JavaScript `trim`, substring search and the character classes
  the password score uses.
- `Lists` holds `find`/`findIndex` and `filter`.
- `Catalogue` holds the id-to-name `Map` built from a subject list.

Record fields carry English names:

| source | model |
|---|---|
| `ma_hocsinh` | `code` |
| `hoten` | `fullName` |
| `ngaysinh` | `birthDate` |
| `lop` | `className` |
| `cccd` | `citizenId` |
| `label` of a custom field | `caption` |
| `type` of a custom field | `kind` |

Each API call throws or resolves. The model turns this into a `Result` or
`Outcome` value, and the call is one atomic step. The clock is an explicit
`now` parameter in milliseconds, and so are the ids that `Date.now()` would
produce. Stored passwords are the text `_hashed_` followed by the plain
password, as in the source. `Store.Hash` builds that text, and
`Store.Revealed` takes it apart.

Below each screen, the model keeps the state the screen changes as fields of a
class:

- `StudentDashboard.RegistrationForm` holds the selections, the custom answers
  and the save message.
- `AdminDashboard.StudentTable` holds the page and the selected rows.
- `App.Session` holds the user and the original user.
- The password forms hold their inputs, error, success flag and loading flag.

Each handler is a method whose contract states the new state in terms of the
old one. Pure computations are functions, and the lemmas state what is
promised about them:

- the subject toggles;
- the save checks;
- the countdown;
- filtering, pagination and the per-subject counts;
- the import defaults;
- the password score.

Some things about the source as written, which the model follows:

- A registration counts as complete with exactly two review subjects and two
  exam subjects (`components/AdminDashboard.tsx:294`), while the student may
  pick up to four review subjects (`components/StudentDashboard.tsx:306`).
- `ForgotPasswordModal.handleResetPassword` raises the loading flag and then
  returns when the target id is falsy, so the flag stays raised. The step
  invariant of `ForgotPasswordModal.ForgotPasswordFlow` means this only happens
  before a student has been verified.
- An imported row with neither a `cccd` cell nor a `ma_hocsinh` cell gets the
  text `undefined` as its initial-password source.
- The strength score gives its length point only above eight characters,
  though eight characters already pass the length check.

## Model

| member | source | states |
|---|---|---|
| Types.PastDeadlineAlwaysLocked | services/api.ts:127-128 | past the deadline, registration is locked whatever the manual flag says |
| Types.OpenIffUnflaggedAndInTime | services/api.ts:253-257 | registration is open exactly when the flag is off and the deadline has not passed |
| Types.EffectivelyLocked | services/api.ts:127-128 | the effective lock; PastDeadlineAlwaysLocked and OpenIffUnflaggedAndInTime state when it holds |
| Text.TrimStart | components/AdminDashboard.tsx:1010 | the result is a suffix of the input, with all leading whitespace removed |
| Text.TrimEnd | components/AdminDashboard.tsx:1010 | the result is a prefix of the input, with all trailing whitespace removed |
| Text.Trim | components/AdminDashboard.tsx:1010 | no longer than the input, and neither starts nor ends with whitespace |
| Text.TrimIsInnerPiece | components/StudentDashboard.tsx:210 | the trimmed text is a contiguous piece of the input that neither starts nor ends with whitespace |
| Text.TrimEmptyIffAllWhitespace | components/StudentDashboard.tsx:210 | trimming gives "" exactly when every character is whitespace |
| Text.EmptyNeedleMatches | components/AdminDashboard.tsx:450-451 | the empty search term is contained in every text, so an empty search hides no one |
| Lists.FindFirst | services/api.ts:59 | the index found is the first one satisfying the test; None exactly when no element does |
| Lists.Filter | services/api.ts:198 | the result keeps every element that passes and only those, and is no longer than the input |
| Lists.FilterMembers | services/api.ts:198 | an element is kept exactly when it occurs and passes |
| Lists.FilterAppend | services/api.ts:198 | filtering distributes over concatenation |
| Lists.FilterComplementLengths | components/AdminDashboard.tsx:294 | filtering by a test and by its negation splits the list by length |
| Lists.FilterAll | components/StudentDashboard.tsx:184 | a filter that keeps every element returns the list unchanged |
| Lists.FilterFilter | components/AdminDashboard.tsx:449-456 | filtering by a conjunction is filtering by each conjunct in turn |
| Lists.FilterSame | services/api.ts:195-198 | filters by tests that agree give the same list |
| Catalogue.NameOf | components/AdminDashboard.tsx:297-298 | the Map lookup gives None exactly when no entry has the id, and otherwise the name of the last entry with the id |
| Catalogue.NameOfUnique | components/StudentDashboard.tsx:255-258 | with distinct ids, an entry's id gives back that entry's name |
| Store.HashInjective | services/api.ts:62 | different passwords give different stored hashes |
| Store.Hash | services/api.ts:62 | the stored text carries the prefix, and the plain password is what follows it |
| Store.DefaultSecret | services/api.ts:160 | the initial password, the cccd or else the code; AddStudent and BatchPasswords state its use |
| Store.Enrolled | services/api.ts:150-158 | the record addStudent appends; AddStudent states its use |
| Store.Imported | services/api.ts:166-177 | the record addStudentsBatch appends; ImportedRecords states its use |
| Store.ImportedRecords | services/api.ts:166-178 | one record per row, with consecutive ids from the counter, the row's fields, no subjects, no registration date and a forced password change |
| Store.IndexOfIdFinds | services/api.ts:70 | with unique ids, the index search succeeds exactly for a present id and finds that id |
| Store.SameIdReplacement | services/api.ts:72 | replacing a record by one with the same id keeps the id set and its uniqueness |
| Store.FilterKeepsIdsUnique | services/api.ts:198 | removing records keeps the ids unique |
| Store.FilterIds | services/api.ts:214-215 | the ids left after a filter are the ids of the records kept |
| Store.Revealed | services/api.ts:230-239 | a missing or empty entry is PasswordNotFound; an entry with the prefix gives the text after the prefix; any other entry gives the fixed message |
| Store.RevealAfterSet | services/api.ts:235-236 | revealing a freshly set password gives back the plain password |
| Store.AppendFresh | services/api.ts:152-160 | appending a record with the counter's id keeps the store consistent once the counter moves on |
| Store.FilterKeepsBound | services/api.ts:198 | removing records keeps every id below the counter |
| Store.BatchPasswords | services/api.ts:180 | one password per imported id, from the row's cccd or else its code |
| Store.AsSetAppend | services/api.ts:202-204 | the id set of a list grows by the appended id |
| Store.KeepEntries | services/api.ts:218-223 | the copied map holds exactly the entries whose key is kept |
| Store.RemoveKeys | services/api.ts:201-204 | deleting each listed id leaves the map without exactly those keys |
| Store.ConsistentAppend | services/api.ts:159-160 | appending a fresh record and its password keeps ids unique, below the counter and matched with the password keys |
| Store.ImportStep | services/api.ts:166-181 | one imported row extends the records and passwords made so far |
| Store.ImportDoneRecords | services/api.ts:179 | after all rows, the records are the old ones followed by one per row |
| Store.ImportDonePasswords | services/api.ts:180 | after all rows, the passwords are the old ones plus one per row |
| Store.ImportRows | services/api.ts:164-182 | the batch appends one record and one password per row and keeps the store consistent |
| Store.SeedUsers | services/api.ts:13-24 | the seed holds ten users numbered 1 to 10 |
| Store.NumberedUsers | services/api.ts:13-36 | ids numbered from 1 are unique and fill 1..n |
| Store.SeedConsistent | services/api.ts:13-36 | the seed users and seed passwords are consistent with the counter at 11 |
| Store.MockDb.constructor | services/api.ts:5-51 | the seeded store: unlocked, deadline ten days ahead, all sections shown, exactly the ten seed users and their ten passwords, the nine review and six exam subjects and the two custom fields of the seed, next id 11 |
| Store.MockDb.Login | services/api.ts:57-66 | succeeds exactly when the first user with the code has the stored hash of the password, and returns that first user; otherwise InvalidCredentials |
| Store.MockDb.ChangePassword | services/api.ts:68-77 | for a present id, sets the new password and clears the forced change; otherwise UserNotFound and nothing changes |
| Store.MockDb.ChangeOwnPassword | services/api.ts:79-90 | the same update, only when the current password matches; otherwise WrongCurrentPassword and nothing changes |
| Store.MockDb.VerifyStudentForPasswordReset | services/api.ts:92-103 | succeeds exactly when a student with that code and birth date exists, and returns the id of the first such student; otherwise VerificationFailed |
| Store.MockDb.ResetPasswordAfterVerification | services/api.ts:105-114 | for a present id, sets the new password and clears the forced change; otherwise UnexpectedError |
| Store.MockDb.GetStudentById | services/api.ts:116-123 | returns a student with the id exactly when one exists, an administrator never; otherwise StudentNotFound |
| Store.MockDb.UpdateStudentRegistration | services/api.ts:125-140 | refused while effectively locked, checked before the lookup; otherwise the user's subjects and answers are replaced and the registration time set to now |
| Store.MockDb.GetStudents | services/api.ts:143-146 | the filter of the store by the Student role: every student once, in store order, and no administrator |
| Store.MockDb.AddStudent | services/api.ts:148-162 | the new student takes the counter's id and a forced change, is appended, and gets the hash of its cccd or code |
| Store.MockDb.AddStudentsBatch | services/api.ts:164-182 | appends one record and one password per row with consecutive ids, and keeps the store consistent |
| Store.MockDb.UpdateStudent | services/api.ts:184-191 | replaces the form's fields of the student with the id; otherwise StudentNotFound and nothing changes |
| Store.MockDb.DeleteStudentsBatch | services/api.ts:193-209 | removes exactly the listed users and their passwords |
| Store.MockDb.DeleteAllStudents | services/api.ts:211-228 | keeps only the administrators and their passwords |
| Store.MockDb.GetStudentPassword | services/api.ts:230-239 | the revealed password of the id |
| Store.MockDb.ResetStudentPassword | services/api.ts:241-251 | a non-empty custom password is set with no forced change; otherwise the code is set with a forced change; an unknown id is StudentNotFound |
| Store.MockDb.GetRegistrationStatus | services/api.ts:253-257 | locked exactly when the flag is set or now is past the deadline |
| Store.MockDb.SetRegistrationStatus | services/api.ts:259-263 | stores and returns the flag |
| Store.MockDb.GetRegistrationDeadline | services/api.ts:265-268 | returns the deadline |
| Store.MockDb.SetRegistrationDeadline | services/api.ts:270-274 | stores and returns the deadline |
| Store.MockDb.GetRegistrationSettings | services/api.ts:276-279 | returns the settings |
| Store.MockDb.UpdateRegistrationSettings | services/api.ts:281-284 | replaces the settings |
| Store.MockDb.GetSubjects | services/api.ts:286-292 | returns both catalogues |
| Store.MockDb.UpdateSubjects | services/api.ts:294-298 | replaces both catalogues |
| Store.MockDb.GetCustomFormFields | services/api.ts:300-303 | returns the custom fields |
| Store.MockDb.UpdateCustomFormFields | services/api.ts:305-308 | replaces the custom fields |
| StudentDashboard.LockedToggleIsNoop | components/StudentDashboard.tsx:179-180 | while locked, a click changes nothing |
| StudentDashboard.Toggle | components/StudentDashboard.tsx:179-190 | only the clicked id can change membership; it is in the result exactly when it was and the form is locked, or it was not, the form is unlocked and the list is below the limit |
| StudentDashboard.ToggleRemoves | components/StudentDashboard.tsx:183-184 | clicking a selected subject is the filter of the selection by the other ids: every copy goes and the rest stay in order |
| StudentDashboard.ToggleAdds | components/StudentDashboard.tsx:185-187 | clicking an unselected subject below the limit appends it |
| StudentDashboard.ToggleKeepsBound | components/StudentDashboard.tsx:179-190 | a selection within the limit stays within it |
| StudentDashboard.ToggleKeepsDistinct | components/StudentDashboard.tsx:179-190 | a selection without repeats stays without repeats |
| StudentDashboard.FilterKeepsDistinct | components/StudentDashboard.tsx:184 | removing elements keeps a list free of repeats |
| StudentDashboard.ToggleTwiceAfterAdd | components/StudentDashboard.tsx:179-190 | adding a subject and clicking it again gives back the previous selection |
| StudentDashboard.LockWins | components/StudentDashboard.tsx:197-200 | a locked window refuses the save before any other check |
| StudentDashboard.SaveCheck | components/StudentDashboard.tsx:196-216 | locked exactly when the form is locked; the exam-count refusal exactly when unlocked, exams shown and not two chosen; a missing field only when custom fields are shown and the earlier checks passed |
| StudentDashboard.FieldBlank | components/StudentDashboard.tsx:210 | a field is blank exactly when it is required and its answer is missing or all whitespace |
| StudentDashboard.ProceedIffAllChecksPass | components/StudentDashboard.tsx:196-218 | the save reaches the store exactly when unlocked, the exam count fits when shown, and no required field is blank |
| StudentDashboard.MissingFieldIsFirstBlank | components/StudentDashboard.tsx:208-216 | the reported field is the first required one left blank |
| StudentDashboard.ValidateSave | components/StudentDashboard.tsx:196-216 | the loop over the fields gives the same verdict as the checks |
| StudentDashboard.EnabledSaveNeverFailsOnExamCount | components/StudentDashboard.tsx:260-261 | a save the button allows never fails on the exam count |
| StudentDashboard.SaveDisabled | components/StudentDashboard.tsx:260-261 | the button's disabled state; EnabledSaveNeverFailsOnExamCount states what it guarantees |
| StudentDashboard.TimeLeftParts | components/StudentDashboard.tsx:14-28 | the days, hours, minutes and seconds are in range and add back to the whole seconds left |
| StudentDashboard.TimeLeftEnds | components/StudentDashboard.tsx:14-28 | no deadline gives nothing; a deadline reached gives Expired |
| StudentDashboard.CalculateTimeLeft | components/StudentDashboard.tsx:14-28 | nothing exactly without a deadline; Expired exactly when the deadline is not after now |
| StudentDashboard.RegisteredNames | components/StudentDashboard.tsx:255-258 | the names shown are at most one per chosen id, and none exactly when no chosen id has a non-empty name |
| StudentDashboard.NamesOf | components/StudentDashboard.tsx:256-257 | one name per id, in order; for a named id, its non-empty catalogue name |
| StudentDashboard.RegisteredNamesInOrder | components/StudentDashboard.tsx:255-258 | the names joined at StudentDashboard.tsx:281 and :287 are the names of the chosen ids filtered to the named ones: one per named id, in the order chosen |

| StudentDashboard.HasRegisteredIffSomeNamed | components/StudentDashboard.tsx:255-258 | the registered view shows exactly when some chosen id has a non-empty name |
| StudentDashboard.HasRegistered | components/StudentDashboard.tsx:258 | the summary test; HasRegisteredIffSomeNamed states when it holds |
| StudentDashboard.RegistrationForm.constructor | components/StudentDashboard.tsx:150-166 | the form starts from the student's saved selections and answers |
| StudentDashboard.RegistrationForm.ChangeReview | components/StudentDashboard.tsx:179-190 | a review click is the toggle with limit 4 under the lock |
| StudentDashboard.RegistrationForm.ChangeExam | components/StudentDashboard.tsx:179-190 | an exam click is the toggle with limit 2 under the lock |
| StudentDashboard.RegistrationForm.ChangeCustomData | components/StudentDashboard.tsx:192-194 | sets one field's answer |
| StudentDashboard.RegistrationForm.HandleSave | components/StudentDashboard.tsx:196-234 | a failed check shows its message and leaves the store alone; otherwise the store's update is made, or its refusal is shown; the store stays consistent |
| AdminDashboard.IncompleteCardCountsIncomplete | components/AdminDashboard.tsx:376-378 | the "not completed" card equals the number of incomplete registrations |
| AdminDashboard.CompletedCount | components/AdminDashboard.tsx:294 | the completed card never exceeds the number of students; IncompleteCardCountsIncomplete relates it to the incomplete ones |
| AdminDashboard.FilteredExactly | components/AdminDashboard.tsx:448-458 | a student is listed exactly when the search matches the name or code, the class matches, and the status matches |
| AdminDashboard.Matches | components/AdminDashboard.tsx:449-456 | the three conditions of the filter; FilteredExactly states that the list is exactly the matching students |
| AdminDashboard.FilteredStudents | components/AdminDashboard.tsx:448-458 | the filtered list; FilteredExactly and StatusFiltersPartition state its contents and lengths |
| AdminDashboard.StatusFiltersPartition | components/AdminDashboard.tsx:453-455 | the completed and incomplete lists together are as long as the list for all statuses |
| AdminDashboard.TotalPagesIsCeiling | components/AdminDashboard.tsx:460 | the page count is the ceiling of the row count over 50 |
| AdminDashboard.TotalPages | components/AdminDashboard.tsx:460 | the page count; TotalPagesIsCeiling states it is the ceiling of the row count over 50 |
| AdminDashboard.SliceIndex | components/AdminDashboard.tsx:461 | a slice index resolves into 0..length |
| AdminDashboard.JsSlice | components/AdminDashboard.tsx:461 | `slice` with resolved indices; PageAtMostFifty and RowOnItsPage state what a page holds |
| AdminDashboard.PageOf | components/AdminDashboard.tsx:461 | the rows of one page; PageAtMostFifty and RowOnItsPage state its size and contents |
| AdminDashboard.PageAtMostFifty | components/AdminDashboard.tsx:461 | no page holds more than 50 rows |
| AdminDashboard.RowOnItsPage | components/AdminDashboard.tsx:460-461 | row i appears on page i/50+1 at position i%50, and that page exists |
| AdminDashboard.PaginationVisibleIffMoreThanOnePage | components/AdminDashboard.tsx:408-409 | the page bar shows exactly when there are more than 50 rows |
| AdminDashboard.Flip | components/AdminDashboard.tsx:470-480 | only the clicked id changes membership |
| AdminDashboard.FlipTwice | components/AdminDashboard.tsx:470-480 | clicking a row twice restores the selection |
| AdminDashboard.PageIds | components/AdminDashboard.tsx:483 | the page's ids in row order |
| AdminDashboard.SelectAllOnPageEffects | components/AdminDashboard.tsx:482-495 | ids off the page keep their state; a wholly selected page is cleared, any other page becomes wholly selected |
| AdminDashboard.SelectAllOnPageResult | components/AdminDashboard.tsx:482-495 | the select-all result; SelectAllOnPageEffects states its effect on and off the page |
| AdminDashboard.ArrayFrom | components/AdminDashboard.tsx:504 | each element of the selection is listed exactly once |
| AdminDashboard.StudentTable.constructor | components/AdminDashboard.tsx:437-443 | page 1 and nothing selected |
| AdminDashboard.StudentTable.ResetForNewFilter | components/AdminDashboard.tsx:464-467 | a change of search, filter or list returns to page 1 and clears the selection |
| AdminDashboard.StudentTable.ChangePage | components/AdminDashboard.tsx:623 | moves to the page asked for |
| AdminDashboard.StudentTable.SelectOne | components/AdminDashboard.tsx:470-480 | the selection becomes the flipped selection |
| AdminDashboard.StudentTable.SelectAllOnPage | components/AdminDashboard.tsx:482-495 | the `every` test and the deletions give the select-all result |
| AdminDashboard.StudentTable.HandleDeleteSelected | components/AdminDashboard.tsx:497-513 | with nothing selected or no confirmation nothing changes; otherwise exactly the selected students and their passwords go and the selection clears |
| AdminDashboard.CountedNamesAreInCatalogue | components/AdminDashboard.tsx:303-306 | a name is counted only if some catalogue entry has that name |
| AdminDashboard.OccurringNamesAreInCatalogue | components/AdminDashboard.tsx:302-308 | over all students, a counted name is a catalogue name |
| AdminDashboard.TickCounts | components/AdminDashboard.tsx:304-305 | counting one more chosen id keeps the tally exact and in first-appearance order |
| AdminDashboard.NextStudent | components/AdminDashboard.tsx:302-308 | finishing a student's ids carries the tally over to the next student |
| AdminDashboard.CountRegistrations | components/AdminDashboard.tsx:302-308 | the keys are distinct non-empty names, each with its exact positive count, and every name chosen at least once is a key |
| AdminDashboard.InsertKeepsEntries | components/AdminDashboard.tsx:311 | inserting an entry adds exactly that entry |
| AdminDashboard.SortKeepsEntries | components/AdminDashboard.tsx:311 | sorting rearranges the entries and loses or adds none |
| AdminDashboard.InsertKeepsOrder | components/AdminDashboard.tsx:311 | inserting into a list sorted by count keeps it sorted |
| AdminDashboard.SortOrders | components/AdminDashboard.tsx:311 | the sorted entries run from the largest count down |
| AdminDashboard.SortByCount | components/AdminDashboard.tsx:311 | the sort by count; SortOrders, SortKeepsEntries and SortKeepsLabelsDistinct state its order, the permutation and distinct subjects |
| AdminDashboard.InsertKeepsLabelsDistinct | components/AdminDashboard.tsx:311 | inserting an entry with a new subject keeps the subjects distinct |
| AdminDashboard.SortKeepsLabelsDistinct | components/AdminDashboard.tsx:311 | sorting keeps the subjects distinct |
| AdminDashboard.Entries | components/AdminDashboard.tsx:310 | one entry per key, in key order, with its count |
| AdminDashboard.RegistrationsBySubject | components/AdminDashboard.tsx:300-330 | the chart data is sorted by count from the largest, one bar per non-empty subject name chosen at least once, each with its exact count |
| AdminDashboard.DeletesOnlyOnExactPhrase | components/AdminDashboard.tsx:515-536 | everything is deleted exactly when the list is non-empty and the answer is the exact phrase |
| AdminDashboard.DeleteAllDecision | components/AdminDashboard.tsx:515-536 | the delete-all decision; DeletesOnlyOnExactPhrase states when it deletes |
| AdminDashboard.HandleDeleteAll | components/AdminDashboard.tsx:515-536 | on the exact phrase only administrators remain, each with its old password entry; on any other answer nothing changes |
| AdminDashboard.CustomResetIsTakenAsGiven | components/AdminDashboard.tsx:1081-1088 | a custom password under 6 characters makes no call; an accepted one is passed non-empty; the default reset passes no password |
| AdminDashboard.ResetArgument | components/AdminDashboard.tsx:1081-1088 | the argument passed to the store; CustomResetIsTakenAsGiven states when a call is made and with what |
| AdminDashboard.HandleReset | components/AdminDashboard.tsx:1081-1097 | a short custom password changes nothing; otherwise only that student's record and password change: the forced change is set exactly for the default reset, and the revealed password becomes the custom one or the code |
| AdminDashboard.AddSubjectEffects | components/AdminDashboard.tsx:1009-1015 | a blank name adds nothing; otherwise the trimmed name is appended with the clock's id |
| AdminDashboard.AddSubject | components/AdminDashboard.tsx:1009-1015 | the subject list after an add; AddSubjectEffects states it |
| AdminDashboard.DeleteSubjectEffects | components/AdminDashboard.tsx:1017-1019 | exactly the entries with that id are removed |
| AdminDashboard.DeleteSubject | components/AdminDashboard.tsx:1017-1019 | the subject list after a delete; DeleteSubjectEffects states it |
| AdminDashboard.AddFieldEffects | components/AdminDashboard.tsx:1126-1131 | a blank caption adds nothing; otherwise a field with the trimmed caption is appended |
| AdminDashboard.AddField | components/AdminDashboard.tsx:1126-1131 | the field list after an add; AddFieldEffects states it |
| AdminDashboard.DeleteFieldEffects | components/AdminDashboard.tsx:1133-1135 | exactly the fields with that id are removed |
| AdminDashboard.DeleteField | components/AdminDashboard.tsx:1133-1135 | the field list after a delete; DeleteFieldEffects states it |
| AdminDashboard.RowDefaultsEffects | components/AdminDashboard.tsx:194-200 | an imported row's password source is its cccd, else its code; missing cells become "" and a missing birth date 2006-01-01 |
| AdminDashboard.SecretCell | components/AdminDashboard.tsx:199 | the password-source cell: the cccd, else the code, else the text "undefined"; RowDefaultsEffects states its use |
| AdminDashboard.RowDefaults | components/AdminDashboard.tsx:194-200 | the record made of a row; RowDefaultsEffects states its defaults |
| AdminDashboard.AsNewStudents | components/AdminDashboard.tsx:194-200 | one new-student record per sheet row |
| AdminDashboard.HandleFileImport | components/AdminDashboard.tsx:194-202 | the rows, with their defaults, are appended to the store as one batch |
| AdminDashboard.SubmitStudentForm | components/AdminDashboard.tsx:967-984 | an add appends the new student under the counter's id with its cccd-or-code password; an edit succeeds exactly for a known id, replaces that record's five form fields only and leaves passwords and counter alone |
| App.Session.CurrentScreen | App.tsx:87-97 | the login screen with nobody signed in, else the administrator's or the student's screen by role |
| App.Session.ForcedChangeOpen | App.tsx:116 | the first-login modal's open condition; App.Session.ChangePassword states that a change closes it |
| App.Session.OwnChangeAvailable | App.tsx:121 | the own-password modal's mount condition; App.Session.Impersonate states that impersonating removes it |
| App.Session.constructor | App.tsx:49-50 | nobody signed in and nobody kept aside |
| App.Session.Login | App.tsx:57-60 | succeeds exactly when the store's login does, and the session's user becomes the first user with the code; a refusal changes nothing |
| App.Session.Logout | App.tsx:61-65 | both users are cleared |
| App.Session.ChangePassword | App.tsx:66-72 | with a user, the store's change is made (that user's password set, its stored flag cleared) and the same user is kept with the forced change cleared, which closes the first-login modal; a store failure or no user changes nothing |
| App.Session.Impersonate | App.tsx:73-78 | only an administrator switches users, and is kept aside; otherwise nothing changes |
| App.Session.StopImpersonating | App.tsx:79-84 | the kept-aside administrator is restored and the slot cleared; otherwise nothing changes |
| App.Session.ImpersonateAndReturn | App.tsx:73-84 | acting as another user and stopping gives back the administrator's session |
| ChangePasswordModal.Criteria | components/ChangePasswordModal.tsx:16-20 | each criterion is met exactly when its test holds |
| ChangePasswordModal.CriteriaCount | components/ChangePasswordModal.tsx:14-22 | the number of criteria met is one point per test passed |
| ChangePasswordModal.GetStrength | components/ChangePasswordModal.tsx:14-22 | the score is the number of criteria met |
| ChangePasswordModal.StrengthInRange | components/ChangePasswordModal.tsx:25-33 | the score lies in 0..5 and so indexes the six labels |
| ChangePasswordModal.StrengthMonotone | components/ChangeOwnPasswordModal.tsx:15-22 | meeting more criteria never lowers the score |
| ChangePasswordModal.StrengthLabel | components/ChangePasswordModal.tsx:26-33 | the label shown is one of the six labels |
| ChangePasswordModal.CheckNewPassword | components/ChangePasswordModal.tsx:46-53 | accepted exactly at 8 or more characters with a matching confirmation; a short password is refused first |
| ChangePasswordModal.EightCharactersAcceptedWithoutLengthPoint | components/ChangePasswordModal.tsx:16-46 | an 8-character password passes the check but earns no length point |
| ChangePasswordModal.ChangePasswordForm.constructor | components/ChangePasswordModal.tsx:40-43 | empty inputs, no error, not loading |
| ChangePasswordModal.ChangePasswordForm.SetNewPassword | components/ChangePasswordModal.tsx:40 | stores the new password input |
| ChangePasswordModal.ChangePasswordForm.SetConfirmPassword | components/ChangePasswordModal.tsx:41 | stores the confirmation input |
| ChangePasswordModal.ChangePasswordForm.HandleSubmit | components/ChangePasswordModal.tsx:45-63 | submits exactly when the check accepts; a refusal shows its message and changes nothing else; a submission ends loading and shows the store's failure if any |
| ChangeOwnPasswordModal.ChangeOwnPasswordForm.constructor | components/ChangeOwnPasswordModal.tsx:41-46 | every field empty or false |
| ChangeOwnPasswordModal.ChangeOwnPasswordForm.SetFields | components/ChangeOwnPasswordModal.tsx:41-43 | stores the three inputs |
| ChangeOwnPasswordModal.ChangeOwnPasswordForm.ResetState | components/ChangeOwnPasswordModal.tsx:48-60 | every field back to empty or false |
| ChangeOwnPasswordModal.ChangeOwnPasswordForm.HandleSubmit | components/ChangeOwnPasswordModal.tsx:62-92 | the store is called exactly when the check accepts and a user is signed in; with no user, the authentication error and loading ends; success exactly when the current password matches, and then only that user's password and forced-change flag change |
| ForgotPasswordModal.ForgotPasswordFlow.constructor | components/ForgotPasswordModal.tsx:14-22 | step 1, empty inputs, no target id |
| ForgotPasswordModal.ForgotPasswordFlow.SetIdentity | components/ForgotPasswordModal.tsx:15-16 | stores the code and birth date |
| ForgotPasswordModal.ForgotPasswordFlow.SetPasswords | components/ForgotPasswordModal.tsx:17-18 | stores the new password and confirmation |
| ForgotPasswordModal.ForgotPasswordFlow.ResetAllState | components/ForgotPasswordModal.tsx:24-39 | back to step 1 with every input cleared and no target id |
| ForgotPasswordModal.ForgotPasswordFlow.HandleVerify | components/ForgotPasswordModal.tsx:41-53 | succeeds exactly when a matching student exists; the first one becomes the target and the flow moves to step 2; otherwise VerificationFailed and the step and target stay |
| ForgotPasswordModal.ForgotPasswordFlow.HandleResetPassword | components/ForgotPasswordModal.tsx:55-79 | the checks come first; a falsy target makes no call and leaves loading raised; otherwise the password is set and the forced change cleared exactly for a known id, and nothing changes for an unknown one |

## Left out

- Network delays, `async` ordering and concurrent requests are left out. Each API call is one atomic step.
- The timers that close the forms after a success are left out.
- The whole-list refreshes after an administrator's action are left out, and so is the `fetchInitialData()` re-read of the lock and the record after a successful student save (components/StudentDashboard.tsx:227).
- The JSON deep copies the store returns are left out. A Dafny value is never shared, so there is nothing to copy.
- Deadline and registration time values are integer milliseconds. The model does not parse dates, format ISO strings or format time for the locale.
  - For `services/api.ts:7`, the constructor takes `now` and sets the deadline ten days later.
  - For `services/api.ts:20-23`, the seed sets the registration times relative to `now`.
- The deadline editor's date conversions are not part of this model.
- Spreadsheet reading (XLSX), the template download, charts, and the date-range statistics of the analytics tab are left out.
  - Numeric cells are taken as text.
- Header, Login and the ui components are not part of this model, and neither is JSX rendering beyond the visibility predicates.
- The Firebase and Netlify back ends (`services/firebaseService.ts`, `netlify/functions/api.ts`) are not part of this model. Only the in-memory store is.
- The open and closed flags of the modals in App.tsx are left out. Only the conditions at App.tsx:116 and App.tsx:121 are modelled, as `App.Session.ForcedChangeOpen` and `App.Session.OwnChangeAvailable`.
- Text handling is simplified:
  - `toLowerCase` is a parameter of `AdminDashboard.Matches`, because Unicode case mapping is left out.
  - JavaScript `length` counts UTF-16 code units, and the model counts characters.
  - Error messages are error kinds, not the Vietnamese texts.
- Store.MockDb.UpdateStudent: takes the five form fields that StudentModal sends, not an arbitrary partial record.
- AdminDashboard.SortByCount: the sort is proved ordered, a permutation and free of repeated subjects. That it is stable among equal counts is not stated.
- AdminDashboard.RegistrationsBySubject: JavaScript lists integer-like keys before the others in `Object.entries`. The model keeps first-appearance order for every key, which only changes the order of equal counts.
- ChangePasswordModal.GetStrength: one definition stands for the identical copy in components/ChangeOwnPasswordModal.tsx:15-22.
