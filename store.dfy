/** The in-memory mock database and every operation of the `api` object
    (services/api.ts). Each asynchronous call is one atomic step; the clock
    is the parameter `now` (milliseconds since the epoch). */
module Store {
  import opened Types
  import opened Lists

  /** Prefix of the mock "hash" under which every password is stored. */
  const HashPrefix: string := "_hashed_"

  /** What getStudentPassword answers when the stored value lacks the prefix. */
  const CouldNotRetrieve: string := "Could not retrieve password."

  function Hash(password: string): (r: string)
    ensures HasHashPrefix(r) && r[|HashPrefix|..] == password
  {
    HashPrefix + password
  }

  /** The mock hash hides nothing: distinct passwords are stored distinctly. */
  lemma HashInjective(p: string, q: string)
    requires Hash(p) == Hash(q)
    ensures p == q
  {
    assert p == Hash(p)[|HashPrefix|..];
  }

  /** Fields of a new student as the admin form (or an imported row) gives
      them; `citizenId` is "" when no cccd was entered. */
  datatype NewStudent = NewStudent(code: string, fullName: string, birthDate: string,
                                   className: string, citizenId: string)

  /** What a student submits from the registration form. */
  datatype Registration = Registration(reviewSubjects: seq<int>, examSubjects: seq<int>,
                                       customData: map<string, string>)

  /** The initial password: the cccd when one was given, else the student code. */
  function DefaultSecret(d: NewStudent): string
  {
    if d.citizenId != "" then d.citizenId else d.code
  }

  /** The record addStudent creates: the form's fields (cccd included), the
      given id, role Student, a forced password change and no registration. */
  function Enrolled(d: NewStudent, id: int): Student
  {
    MakeStudent(id, d.code, d.fullName, d.birthDate, d.className, Role.Student, true,
                d.citizenId, [], [], None, map[])
  }

  /** The record addStudentsBatch creates: like Enrolled, but the cccd is not kept. */
  function Imported(d: NewStudent, id: int): Student
  {
    Enrolled(d, id).(citizenId := "")
  }

  /** The records a batch import appends, with consecutive ids from `first`. */
  function ImportedRecords(rows: seq<NewStudent>, first: int): (r: seq<Student>)
    ensures |r| == |rows|
    ensures forall k :: 0 <= k < |rows| ==> r[k] == Imported(rows[k], first + k)
    decreases |rows|
  {
    if rows == [] then []
    else ImportedRecords(rows[..|rows| - 1], first) + [Imported(rows[|rows| - 1], first + |rows| - 1)]
  }

  function Ids(users: seq<Student>): set<int>
  {
    set u | u in users :: u.id
  }

  ghost predicate IdsUnique(users: seq<Student>)
  {
    forall i, j :: 0 <= i < j < |users| ==> users[i].id != users[j].id
  }

  function HasId(id: int): Student -> bool
  {
    (u: Student) => u.id == id
  }

  function HasCode(code: string): Student -> bool
  {
    (u: Student) => u.code == code
  }

  function IsAdmin(u: Student): bool
  {
    u.role == Admin
  }

  function IsStudent(u: Student): bool
  {
    u.role == Role.Student
  }

  /** The predicate getStudentById searches with. */
  function StudentWithId(id: int): Student -> bool
  {
    (u: Student) => u.id == id && u.role == Role.Student
  }

  /** The predicate verifyStudentForPasswordReset searches with. */
  function MatchesIdentity(code: string, birthDate: string): Student -> bool
  {
    (u: Student) => u.role == Role.Student && u.code == code && u.birthDate == birthDate
  }

  /** `users.findIndex(u => u.id === id)`. */
  function IndexOfId(users: seq<Student>, id: int): Option<nat>
  {
    FindFirst(users, HasId(id))
  }

  /** With unique ids, the lookup by id finds a record exactly when the id is
      present, and the record it finds is the only one with that id. */
  lemma IndexOfIdFinds(users: seq<Student>, id: int)
    requires IdsUnique(users)
    ensures IndexOfId(users, id).Some? <==> id in Ids(users)
    ensures IndexOfId(users, id).Some? ==>
      var i := IndexOfId(users, id).value;
      i < |users| && users[i].id == id && forall j :: 0 <= j < |users| && j != i ==> users[j].id != id
  {
    var r := IndexOfId(users, id);
    if id in Ids(users) {
      var u :| u in users && u.id == id;
      var k :| 0 <= k < |users| && users[k] == u;
      assert HasId(id)(users[k]);
    }
  }

  /** Replacing one record by one with the same id keeps the id set and uniqueness. */
  lemma SameIdReplacement(users: seq<Student>, i: nat, x: Student)
    requires i < |users| && x.id == users[i].id
    ensures Ids(users[i := x]) == Ids(users)
    ensures IdsUnique(users) ==> IdsUnique(users[i := x])
  {
    var after := users[i := x];
    forall id | id in Ids(users) ensures id in Ids(after) {
      var u :| u in users && u.id == id;
      var k :| 0 <= k < |users| && users[k] == u;
      assert after[k].id == id;
    }
    forall id | id in Ids(after) ensures id in Ids(users) {
      var u :| u in after && u.id == id;
      var k :| 0 <= k < |after| && after[k] == u;
      assert users[k].id == id;
    }
  }

  /** Filtering a list of users keeps ids unique. */
  lemma {:induction false} FilterKeepsIdsUnique(users: seq<Student>, p: Student -> bool)
    requires IdsUnique(users)
    ensures IdsUnique(Filter(users, p))
  {
    if users != [] {
      FilterKeepsIdsUnique(users[1..], p);
      var rest := Filter(users[1..], p);
      if p(users[0]) {
        forall k | 0 <= k < |rest| ensures rest[k].id != users[0].id {
          var m :| 0 <= m < |users[1..]| && users[1..][m] == rest[k];
          assert users[m + 1] == rest[k];
        }
        assert Filter(users, p) == [users[0]] + rest;
      }
    }
  }

  /** The ids left by a filter are the ids of the records it keeps. */
  lemma FilterIds(users: seq<Student>, p: Student -> bool)
    ensures Ids(Filter(users, p)) == set u | u in users && p(u) :: u.id
  {
    var r := Filter(users, p);
    forall id | id in Ids(r) ensures id in set u | u in users && p(u) :: u.id {
      var u :| u in r && u.id == id;
      var k :| 0 <= k < |r| && r[k] == u;
    }
    forall id | id in set u | u in users && p(u) :: u.id ensures id in Ids(r) {
      var u :| u in users && p(u) && u.id == id;
      var k :| 0 <= k < |users| && users[k] == u;
    }
  }

  /** `stored.startsWith('_hashed_')`. */
  predicate HasHashPrefix(stored: string)
  {
    |stored| >= |HashPrefix| && stored[..|HashPrefix|] == HashPrefix
  }

  /** What getStudentPassword answers for a stored map and an id. */
  function Revealed(passwords: map<int, string>, id: int): (r: Result<string>)
    ensures r == Err(PasswordNotFound) <==> id !in passwords || passwords[id] == ""
    ensures r.Ok? && HasHashPrefix(passwords[id]) ==> r.value == passwords[id][|HashPrefix|..]
    ensures r.Ok? && !HasHashPrefix(passwords[id]) ==> r.value == CouldNotRetrieve
  {
    if id !in passwords || passwords[id] == "" then Err(PasswordNotFound)
    else
      var stored := passwords[id];
      if HasHashPrefix(stored) then Ok(stored[|HashPrefix|..])
      else Ok(CouldNotRetrieve)
  }

  /** Setting a password and then revealing it gives back the plaintext. */
  lemma RevealAfterSet(passwords: map<int, string>, id: int, plain: string)
    ensures Revealed(passwords[id := Hash(plain)], id) == Ok(plain)
  {
    var stored := Hash(plain);
    assert stored[..|HashPrefix|] == HashPrefix;
    assert stored[|HashPrefix|..] == plain;
  }

  /** Ids are unique and below the counter; the password map has exactly
      one entry per user. */
  ghost predicate Consistent(users: seq<Student>, passwords: map<int, string>, next: int)
  {
    && IdsUnique(users)
    && (forall i :: 0 <= i < |users| ==> users[i].id < next)
    && passwords.Keys == Ids(users)
  }

  /** Appending a record whose id is the counter's value keeps ids unique
      and below the advanced counter, and adds exactly that id. */
  lemma AppendFresh(users: seq<Student>, s: Student, next: int)
    requires IdsUnique(users) && forall i :: 0 <= i < |users| ==> users[i].id < next
    requires s.id == next
    ensures IdsUnique(users + [s])
    ensures forall i :: 0 <= i < |users + [s]| ==> (users + [s])[i].id < next + 1
    ensures Ids(users + [s]) == Ids(users) + {s.id}
  {
    assert forall i :: 0 <= i < |users| ==> (users + [s])[i] == users[i];
  }

  /** A filter keeps every id below a bound that held before. */
  lemma FilterKeepsBound(users: seq<Student>, p: Student -> bool, bound: int)
    requires forall i :: 0 <= i < |users| ==> users[i].id < bound
    ensures forall i :: 0 <= i < |Filter(users, p)| ==> Filter(users, p)[i].id < bound
  {
    var r := Filter(users, p);
    forall i | 0 <= i < |r| ensures r[i].id < bound {
      var k :| 0 <= k < |users| && users[k] == r[i];
    }
  }

  /** The passwords a batch import adds: the default secret of each row,
      stored under the id that row receives. */
  function BatchPasswords(rows: seq<NewStudent>, first: int): (m: map<int, string>)
    ensures forall id :: id in m <==> first <= id < first + |rows|
    ensures forall k :: 0 <= k < |rows| ==> m[first + k] == Hash(DefaultSecret(rows[k]))
    decreases |rows|
  {
    if rows == [] then map[]
    else BatchPasswords(rows[..|rows| - 1], first)[first + |rows| - 1 := Hash(DefaultSecret(rows[|rows| - 1]))]
  }

  function AsSet(ids: seq<int>): set<int>
  {
    set id | id in ids
  }

  lemma AsSetAppend(ids: seq<int>, x: int)
    ensures AsSet(ids + [x]) == AsSet(ids) + {x}
  {
  }

  /** The entries of `m` whose key is in `keep`, collected one entry at a time
      as the source walks the password map. */
  method KeepEntries<K, V>(m: map<K, V>, keep: set<K>) returns (kept: map<K, V>)
    ensures kept == map id | id in m && id in keep :: m[id]
  {
    kept := map[];
    var rest := m.Keys;
    while rest != {}
      invariant rest <= m.Keys
      invariant kept == map id | id in m && id !in rest && id in keep :: m[id]
      decreases rest
    {
      var id :| id in rest;
      if id in keep {
        kept := kept[id := m[id]];
      }
      rest := rest - {id};
    }
  }

  /** `m` without the listed keys, deleted one after another. */
  method RemoveKeys(m: map<int, string>, ids: seq<int>) returns (r: map<int, string>)
    ensures r == m - AsSet(ids)
  {
    r := m;
    var k := 0;
    while k < |ids|
      invariant 0 <= k <= |ids|
      invariant r == m - AsSet(ids[..k])
    {
      assert ids[..k + 1] == ids[..k] + [ids[k]];
      AsSetAppend(ids[..k], ids[k]);
      r := r - {ids[k]};
      k := k + 1;
    }
    assert ids[..k] == ids;
  }

  /** Adding a record under the counter's id, with a password for it,
      keeps the store consistent once the counter moves on. */
  lemma ConsistentAppend(users: seq<Student>, passwords: map<int, string>, next: int, s: Student, v: string)
    requires Consistent(users, passwords, next) && s.id == next
    ensures Consistent(users + [s], passwords[next := v], next + 1)
  {
    AppendFresh(users, s, next);
  }

  /** After `k` rows of a batch import: the records so far are the original
      ones followed by the first `k` imported records, and the passwords are
      the original ones plus one entry per imported row. */
  ghost predicate ImportedSoFar(users: seq<Student>, passwords: map<int, string>, first: int,
                                rows: seq<NewStudent>, k: nat, all: seq<Student>, updated: map<int, string>)
  {
    && k <= |rows|
    && |all| == |users| + k && all[..|users|] == users
    && (forall j :: 0 <= j < k ==> all[|users| + j] == Imported(rows[j], first + j))
    && (forall id :: id in updated <==> id in passwords || first <= id < first + k)
    && (forall id :: id in passwords && !(first <= id < first + k) ==> updated[id] == passwords[id])
    && (forall j :: 0 <= j < k ==> updated[first + j] == Hash(DefaultSecret(rows[j])))
  }

  lemma ImportStep(users: seq<Student>, passwords: map<int, string>, first: int,
                   rows: seq<NewStudent>, k: nat, all: seq<Student>, updated: map<int, string>)
    requires ImportedSoFar(users, passwords, first, rows, k, all, updated) && k < |rows|
    ensures ImportedSoFar(users, passwords, first, rows, k + 1, all + [Imported(rows[k], first + k)],
                          updated[first + k := Hash(DefaultSecret(rows[k]))])
  {
    var all' := all + [Imported(rows[k], first + k)];
    assert all'[..|users|] == all[..|users|];
  }

  lemma ImportDoneRecords(users: seq<Student>, passwords: map<int, string>, first: int,
                          rows: seq<NewStudent>, all: seq<Student>, updated: map<int, string>)
    requires ImportedSoFar(users, passwords, first, rows, |rows|, all, updated)
    ensures all == users + ImportedRecords(rows, first)
  {
    assert all == all[..|users|] + all[|users|..];
  }

  lemma ImportDonePasswords(users: seq<Student>, passwords: map<int, string>, first: int,
                            rows: seq<NewStudent>, all: seq<Student>, updated: map<int, string>)
    requires ImportedSoFar(users, passwords, first, rows, |rows|, all, updated)
    ensures updated == passwords + BatchPasswords(rows, first)
  {
    var added := BatchPasswords(rows, first);
    forall id | id in updated ensures id in passwords + added && updated[id] == (passwords + added)[id] {
      if first <= id < first + |rows| {
        assert updated[first + (id - first)] == Hash(DefaultSecret(rows[id - first]));
      }
    }
    forall id | id in passwords + added ensures id in updated {
      if id !in passwords {
        assert id in added;
      }
    }
    assert updated.Keys == (passwords + added).Keys;
  }

  /** The forEach of addStudentsBatch: rows are appended one at a time, each
      under the next id and with its default password. */
  method ImportRows(users: seq<Student>, passwords: map<int, string>, first: int, rows: seq<NewStudent>)
    returns (all: seq<Student>, updated: map<int, string>)
    requires Consistent(users, passwords, first)
    ensures Consistent(all, updated, first + |rows|)
    ensures all == users + ImportedRecords(rows, first)
    ensures updated == passwords + BatchPasswords(rows, first)
  {
    all, updated := users, passwords;
    var next := first;
    var k := 0;
    while k < |rows|
      invariant 0 <= k <= |rows|
      invariant next == first + k
      invariant Consistent(all, updated, next)
      invariant ImportedSoFar(users, passwords, first, rows, k, all, updated)
    {
      var s := Imported(rows[k], next);
      var secret := Hash(DefaultSecret(rows[k]));
      ConsistentAppend(all, updated, next, s, secret);
      ImportStep(users, passwords, first, rows, k, all, updated);
      all := all + [s];
      updated := updated[next := secret];
      next := next + 1;
      k := k + 1;
    }
    ImportDoneRecords(users, passwords, first, rows, all, updated);
    ImportDonePasswords(users, passwords, first, rows, all, updated);
  }

  /** The seed user list: one admin and nine students with ids 1 to 10.
      Three registration times are relative to `now`; the others are the
      fixed instants of the seed, in milliseconds. */
  function SeedUsers(now: int): (r: seq<Student>)
    ensures |r| == 10 && forall i :: 0 <= i < |r| ==> r[i].id == i + 1
  {
    var day := 24 * 60 * 60 * 1000;
    [
      MakeStudent(1, "admin", "Admin", "1990-01-01", "N/A", Admin, false, "", [], [], None, map[]),
      MakeStudent(2, "HS2025001", "Nguyen Van A", "2006-05-12", "12A1", Role.Student, true, "", [4, 5], [7, 8],
                  Some(1716199200000), map["phone" := "0987654321", "address" := "123 Đường ABC, Huế"]),
      MakeStudent(3, "HS2025002", "Tran Thi B", "2006-11-02", "12A3", Role.Student, false, "", [1, 3], [6, 8],
                  Some(1716301800000), map[]),
      MakeStudent(4, "HS2025003", "Le Van C", "2006-01-20", "12A1", Role.Student, false, "", [2, 4], [5, 9],
                  Some(1716303600000), map[]),
      MakeStudent(5, "HS2025004", "Pham Thi D", "2006-03-15", "12A2", Role.Student, true, "", [], [], None, map[]),
      MakeStudent(6, "HS2025005", "Hoang Van E", "2006-07-30", "12A2", Role.Student, false, "", [1, 5], [7, 9],
                  Some(1716368400000), map[]),
      MakeStudent(7, "HS2025006", "Do Thi F", "2006-09-05", "12A3", Role.Student, false, "", [4, 6], [8, 9],
                  Some(now), map[]),
      MakeStudent(8, "HS2025007", "Vu Van G", "2006-02-18", "12A1", Role.Student, false, "", [2, 3], [4, 7],
                  Some(now - 2 * day), map[]),
      MakeStudent(9, "HS2025008", "Bui Thi H", "2006-04-22", "12A4", Role.Student, true, "", [], [], None, map[]),
      MakeStudent(10, "HS2025009", "Dang Van I", "2006-08-11", "12A4", Role.Student, false, "", [1, 6], [5, 8],
                  Some(now - 7 * day), map[])
    ]
  }

  /** The seed passwords, one per seed user. */
  const SeedPasswords: map<int, string> := map[
    1 := Hash("adminpassword"), 2 := Hash("HS2025001"), 3 := Hash("newpassword123"),
    4 := Hash("12345678"), 5 := Hash("HS2025004"), 6 := Hash("anotherpass"),
    7 := Hash("dothifpass"), 8 := Hash("vuvangpass"), 9 := Hash("HS2025008"),
    10 := Hash("dangvanipass")
  ]

  const SeedReviewSubjects: seq<Subject> := [
    Subject(1, "Toán"), Subject(2, "Ngữ văn"), Subject(3, "Tiếng Anh"), Subject(4, "Vật lý"),
    Subject(5, "Hóa học"), Subject(6, "Sinh học"), Subject(7, "Lịch sử"), Subject(8, "Địa lý"),
    Subject(9, "GDCD")
  ]

  const SeedExamSubjects: seq<Subject> := [
    Subject(4, "Vật lý"), Subject(5, "Hóa học"), Subject(6, "Sinh học"),
    Subject(7, "Lịch sử"), Subject(8, "Địa lý"), Subject(9, "GDCD")
  ]

  const SeedCustomFields: seq<CustomField> := [
    CustomField("phone", "SĐT Phụ huynh", Text, true),
    CustomField("address", "Địa chỉ nhà", Text, false)
  ]

  /** Users numbered 1, 2, 3, ... in order have unique ids, all below the
      next number, and their id set is 1 to their count. */
  lemma NumberedUsers(users: seq<Student>)
    requires forall i :: 0 <= i < |users| ==> users[i].id == i + 1
    ensures IdsUnique(users)
    ensures forall id :: id in Ids(users) <==> 1 <= id <= |users|
  {
    forall id | 1 <= id <= |users| ensures id in Ids(users) {
      assert users[id - 1] in users;
    }
  }

  /** The seed store is consistent: ids 1 to 10, one password each, and the
      counter at 11. */
  lemma SeedConsistent(now: int)
    ensures Consistent(SeedUsers(now), SeedPasswords, 11)
  {
    NumberedUsers(SeedUsers(now));
    assert SeedPasswords.Keys == Ids(SeedUsers(now));
  }

  class MockDb {
    var isRegistrationLocked: bool
    var registrationDeadline: int
    var registrationSettings: RegistrationSettings
    var users: seq<Student>
    var userPasswords: map<int, string>
    var reviewSubjects: seq<Subject>
    var examSubjects: seq<Subject>
    var customFormFields: seq<CustomField>
    var nextUserId: int

    /** Ids are unique and below the counter; the password map has exactly
        one entry per user. */
    ghost predicate Valid()
      reads this
    {
      Consistent(users, userPasswords, nextUserId)
    }

    /** The seed data: one admin, nine students, ten passwords, the default
        catalogues and a deadline ten days after `now`. */
    constructor (now: int)
      ensures Valid()
      ensures users == SeedUsers(now) && userPasswords == SeedPasswords && nextUserId == 11
      ensures reviewSubjects == SeedReviewSubjects && examSubjects == SeedExamSubjects
      ensures customFormFields == SeedCustomFields
      ensures |users| == 10
      ensures |reviewSubjects| == 9 && |examSubjects| == 6 && |customFormFields| == 2
      ensures !isRegistrationLocked && registrationDeadline == now + 10 * 24 * 60 * 60 * 1000
      ensures registrationSettings == RegistrationSettings(true, true, true)
    {
      isRegistrationLocked := false;
      registrationDeadline := now + 10 * 24 * 60 * 60 * 1000;
      registrationSettings := RegistrationSettings(true, true, true);
      users := SeedUsers(now);
      userPasswords := SeedPasswords;
      reviewSubjects := SeedReviewSubjects;
      examSubjects := SeedExamSubjects;
      customFormFields := SeedCustomFields;
      nextUserId := 11;
      new;
      SeedConsistent(now);
    }

    /** login: the first user with the given code, if its stored password is
        the hash of the given one. Nothing changes. */
    method Login(code: string, password: string) returns (r: Result<Student>)
      ensures r.Ok? <==> exists i :: 0 <= i < |users| && IsFirstWithCode(i, code)
                                   && users[i].id in userPasswords
                                   && userPasswords[users[i].id] == Hash(password)
      ensures r.Ok? ==> exists i :: IsFirstWithCode(i, code) && r.value == users[i]
      ensures r.Ok? ==> r.value in users && r.value.code == code
                        && r.value.id in userPasswords && userPasswords[r.value.id] == Hash(password)
      ensures r.Err? ==> r.error == InvalidCredentials
    {
      var found := FindFirst(users, HasCode(code));
      if found.Some? {
        var u := users[found.value];
        if u.id in userPasswords && userPasswords[u.id] == Hash(password) {
          return Ok(u);
        }
      }
      return Err(InvalidCredentials);
    }

    ghost predicate IsFirstWithCode(i: int, code: string)
      reads this
    {
      0 <= i < |users| && users[i].code == code && forall j :: 0 <= j < i ==> users[j].code != code
    }

    /** changePassword: the new password is stored and the forced-change flag
        cleared for the user with that id; an unknown id changes nothing. */
    method ChangePassword(userId: int, newPassword: string) returns (r: Outcome)
      requires Valid()
      modifies this`users, this`userPasswords
      ensures Valid()
      ensures r.Done? <==> userId in Ids(old(users))
      ensures r.Fail? ==> r.error == UserNotFound && users == old(users) && userPasswords == old(userPasswords)
      ensures r.Done? ==> userPasswords == old(userPasswords)[userId := Hash(newPassword)]
      ensures r.Done? ==> var i := IndexOfId(old(users), userId).value;
                          users == old(users)[i := old(users)[i].(mustChangePassword := false)]
    {
      IndexOfIdFinds(users, userId);
      var found := IndexOfId(users, userId);
      if found.None? {
        return Fail(UserNotFound);
      }
      var i := found.value;
      SameIdReplacement(users, i, users[i].(mustChangePassword := false));
      users := users[i := users[i].(mustChangePassword := false)];
      userPasswords := userPasswords[userId := Hash(newPassword)];
      return Done;
    }

    /** changeOwnPassword: like changePassword, but only when the user exists
        and the current password matches; otherwise nothing changes. */
    method ChangeOwnPassword(userId: int, oldPassword: string, newPassword: string) returns (r: Outcome)
      requires Valid()
      modifies this`users, this`userPasswords
      ensures Valid()
      ensures r.Done? <==> userId in Ids(old(users)) && old(userPasswords)[userId] == Hash(oldPassword)
      ensures r.Fail? ==> r.error == WrongCurrentPassword && users == old(users) && userPasswords == old(userPasswords)
      ensures r.Done? ==> userPasswords == old(userPasswords)[userId := Hash(newPassword)]
      ensures r.Done? ==> var i := IndexOfId(old(users), userId).value;
                          users == old(users)[i := old(users)[i].(mustChangePassword := false)]
    {
      IndexOfIdFinds(users, userId);
      var found := IndexOfId(users, userId);
      if found.None? || userId !in userPasswords || userPasswords[userId] != Hash(oldPassword) {
        return Fail(WrongCurrentPassword);
      }
      var i := found.value;
      SameIdReplacement(users, i, users[i].(mustChangePassword := false));
      users := users[i := users[i].(mustChangePassword := false)];
      userPasswords := userPasswords[userId := Hash(newPassword)];
      return Done;
    }

    /** verifyStudentForPasswordReset: the id of the first Student-role user
        whose code and birth date both match. Nothing changes. */
    method VerifyStudentForPasswordReset(code: string, birthDate: string) returns (r: Result<int>)
      ensures r.Ok? <==> exists i :: 0 <= i < |users| && users[i].role == Role.Student
                                   && users[i].code == code && users[i].birthDate == birthDate
      ensures r.Ok? ==> exists i :: IsFirstIdentity(i, code, birthDate) && r.value == users[i].id
      ensures r.Err? ==> r.error == VerificationFailed
    {
      var found := FindFirst(users, MatchesIdentity(code, birthDate));
      if found.Some? {
        return Ok(users[found.value].id);
      }
      return Err(VerificationFailed);
    }

    /** `users[i]` is the first Student-role user with that code and birth date. */
    ghost predicate IsFirstIdentity(i: int, code: string, birthDate: string)
      reads this
    {
      && 0 <= i < |users| && users[i].role == Role.Student && users[i].code == code && users[i].birthDate == birthDate
      && forall j :: 0 <= j < i ==> !MatchesIdentity(code, birthDate)(users[j])
    }

    /** resetPasswordAfterVerification: the same update as changePassword,
        with its own error. */
    method ResetPasswordAfterVerification(userId: int, newPassword: string) returns (r: Outcome)
      requires Valid()
      modifies this`users, this`userPasswords
      ensures Valid()
      ensures r.Done? <==> userId in Ids(old(users))
      ensures r.Fail? ==> r.error == UnexpectedError && users == old(users) && userPasswords == old(userPasswords)
      ensures r.Done? ==> userPasswords == old(userPasswords)[userId := Hash(newPassword)]
      ensures r.Done? ==> var i := IndexOfId(old(users), userId).value;
                          users == old(users)[i := old(users)[i].(mustChangePassword := false)]
    {
      IndexOfIdFinds(users, userId);
      var found := IndexOfId(users, userId);
      if found.None? {
        return Fail(UnexpectedError);
      }
      var i := found.value;
      SameIdReplacement(users, i, users[i].(mustChangePassword := false));
      users := users[i := users[i].(mustChangePassword := false)];
      userPasswords := userPasswords[userId := Hash(newPassword)];
      return Done;
    }

    /** getStudentById: the Student-role record with that id; admins are not found. */
    method GetStudentById(userId: int) returns (r: Result<Student>)
      ensures r.Ok? <==> exists i :: 0 <= i < |users| && users[i].id == userId && users[i].role == Role.Student
      ensures r.Ok? ==> r.value in users && r.value.id == userId && r.value.role == Role.Student
      ensures r.Err? ==> r.error == StudentNotFound
    {
      var found := FindFirst(users, StudentWithId(userId));
      if found.Some? {
        return Ok(users[found.value]);
      }
      return Err(StudentNotFound);
    }

    /** updateStudentRegistration: refused while the window is effectively
        locked (checked before any lookup); otherwise the user's two subject
        lists and custom data are replaced and the registration time set. */
    method UpdateStudentRegistration(userId: int, data: Registration, now: int) returns (r: Outcome)
      requires Valid()
      modifies this`users
      ensures Valid()
      ensures old(EffectivelyLocked(isRegistrationLocked, registrationDeadline, now)) ==>
                r == Fail(RegistrationLocked) && users == old(users)
      ensures !old(EffectivelyLocked(isRegistrationLocked, registrationDeadline, now)) && userId !in Ids(old(users)) ==>
                r == Fail(UserNotFound) && users == old(users)
      ensures r.Done? <==> !old(EffectivelyLocked(isRegistrationLocked, registrationDeadline, now))
                           && userId in Ids(old(users))
      ensures r.Done? ==> var i := IndexOfId(old(users), userId).value;
                          users == old(users)[i := old(users)[i].(reviewSubjects := data.reviewSubjects,
                                                                 examSubjects := data.examSubjects,
                                                                 customData := data.customData,
                                                                 registrationDate := Some(now))]
    {
      if EffectivelyLocked(isRegistrationLocked, registrationDeadline, now) {
        return Fail(RegistrationLocked);
      }
      IndexOfIdFinds(users, userId);
      var found := IndexOfId(users, userId);
      if found.None? {
        return Fail(UserNotFound);
      }
      var i := found.value;
      var updated := users[i].(reviewSubjects := data.reviewSubjects, examSubjects := data.examSubjects,
                               customData := data.customData, registrationDate := Some(now));
      SameIdReplacement(users, i, updated);
      users := users[i := updated];
      return Done;
    }

    /** getStudents: every Student-role record, admins left out. */
    method GetStudents() returns (r: seq<Student>)
      ensures r == Filter(users, IsStudent)
      ensures forall i :: 0 <= i < |r| ==> r[i] in users && r[i].role == Role.Student
      ensures forall i :: 0 <= i < |users| && users[i].role == Role.Student ==> users[i] in r
    {
      r := Filter(users, IsStudent);
    }

    /** addStudent: the new record gets the counter's value as id, the counter
        moves on, and the default password is stored for it. */
    method AddStudent(d: NewStudent) returns (s: Student)
      requires Valid()
      modifies this`users, this`userPasswords, this`nextUserId
      ensures Valid()
      ensures s == Enrolled(d, old(nextUserId))
      ensures s.id !in Ids(old(users))
      ensures nextUserId == old(nextUserId) + 1
      ensures users == old(users) + [s]
      ensures userPasswords == old(userPasswords)[s.id := Hash(DefaultSecret(d))]
    {
      s := Enrolled(d, nextUserId);
      AppendFresh(users, s, nextUserId);
      nextUserId := nextUserId + 1;
      users := users + [s];
      userPasswords := userPasswords[s.id := Hash(DefaultSecret(d))];
    }

    /** addStudentsBatch: one new record per row, in row order, with
        consecutive ids from the counter, each with its default password. */
    method AddStudentsBatch(rows: seq<NewStudent>)
      requires Valid()
      modifies this`users, this`userPasswords, this`nextUserId
      ensures Valid()
      ensures nextUserId == old(nextUserId) + |rows|
      ensures users == old(users) + ImportedRecords(rows, old(nextUserId))
      ensures userPasswords == old(userPasswords) + BatchPasswords(rows, old(nextUserId))
    {
      var all, passwords := ImportRows(users, userPasswords, nextUserId, rows);
      users, userPasswords, nextUserId := all, passwords, nextUserId + |rows|;
    }

    /** updateStudent: the admin form's five fields overwrite the record with
        that id; the id, role, subjects and flags stay. */
    method UpdateStudent(studentId: int, d: NewStudent) returns (r: Result<Student>)
      requires Valid()
      modifies this`users
      ensures Valid()
      ensures r.Ok? <==> studentId in Ids(old(users))
      ensures r.Err? ==> r.error == StudentNotFound && users == old(users)
      ensures r.Ok? ==> var i := IndexOfId(old(users), studentId).value;
                        && r.value == old(users)[i].(code := d.code, fullName := d.fullName,
                                                     birthDate := d.birthDate, className := d.className,
                                                     citizenId := d.citizenId)
                        && users == old(users)[i := r.value]
    {
      IndexOfIdFinds(users, studentId);
      var found := IndexOfId(users, studentId);
      if found.None? {
        return Err(StudentNotFound);
      }
      var i := found.value;
      var updated := users[i].(code := d.code, fullName := d.fullName, birthDate := d.birthDate,
                               className := d.className, citizenId := d.citizenId);
      SameIdReplacement(users, i, updated);
      users := users[i := updated];
      return Ok(updated);
    }

    /** deleteStudentsBatch: every record and every password whose id is
        listed goes; everything else stays, in order. */
    method DeleteStudentsBatch(studentIds: seq<int>)
      requires Valid()
      modifies this`users, this`userPasswords
      ensures Valid()
      ensures users == Filter(old(users), NotListed(studentIds))
      ensures userPasswords == old(userPasswords) - AsSet(studentIds)
    {
      var updatedUsers := Filter(users, NotListed(studentIds));
      var updatedPasswords := RemoveKeys(userPasswords, studentIds);
      FilterKeepsIdsUnique(users, NotListed(studentIds));
      FilterIds(users, NotListed(studentIds));
      FilterKeepsBound(users, NotListed(studentIds), nextUserId);
      users := updatedUsers;
      userPasswords := updatedPasswords;
    }

    /** deleteAllStudents: only the admins remain, with their passwords. */
    method DeleteAllStudents()
      requires Valid()
      modifies this`users, this`userPasswords
      ensures Valid()
      ensures users == Filter(old(users), IsAdmin)
      ensures userPasswords == map id | id in old(userPasswords) && id in Ids(users) :: old(userPasswords)[id]
    {
      var adminUsers := Filter(users, IsAdmin);
      var newPasswordMap := KeepEntries(userPasswords, Ids(adminUsers));
      FilterKeepsIdsUnique(users, IsAdmin);
      FilterIds(users, IsAdmin);
      FilterKeepsBound(users, IsAdmin, nextUserId);
      users := adminUsers;
      userPasswords := newPasswordMap;
    }

    /** getStudentPassword: the stored value with the prefix removed; an
        absent (or empty) entry is an error. Nothing changes. */
    method GetStudentPassword(studentId: int) returns (r: Result<string>)
      ensures r == Revealed(userPasswords, studentId)
    {
      if studentId !in userPasswords || userPasswords[studentId] == "" {
        return Err(PasswordNotFound);
      }
      var stored := userPasswords[studentId];
      if HasHashPrefix(stored) {
        return Ok(stored[|HashPrefix|..]);
      }
      return Ok(CouldNotRetrieve);
    }

    /** resetStudentPassword: without a (non-empty) new password the student
        code becomes the password and a change is forced; with one, that
        password is stored and no change is forced. */
    method ResetStudentPassword(studentId: int, newPassword: Option<string>) returns (r: Outcome)
      requires Valid()
      modifies this`users, this`userPasswords
      ensures Valid()
      ensures r.Done? <==> studentId in Ids(old(users))
      ensures r.Fail? ==> r.error == StudentNotFound && users == old(users) && userPasswords == old(userPasswords)
      ensures r.Done? ==> var i := IndexOfId(old(users), studentId).value;
                          var custom := newPassword.Some? && newPassword.value != "";
                          && users == old(users)[i := old(users)[i].(mustChangePassword := !custom)]
                          && userPasswords == old(userPasswords)[studentId :=
                               Hash(if custom then newPassword.value else old(users)[i].code)]
    {
      IndexOfIdFinds(users, studentId);
      var found := IndexOfId(users, studentId);
      if found.None? {
        return Fail(StudentNotFound);
      }
      var i := found.value;
      var student := users[i];
      var custom := newPassword.Some? && newPassword.value != "";
      SameIdReplacement(users, i, student.(mustChangePassword := !custom));
      users := users[i := student.(mustChangePassword := !custom)];
      var toSet := if custom then newPassword.value else student.code;
      userPasswords := userPasswords[student.id := Hash(toSet)];
      return Done;
    }

    /** getRegistrationStatus: the effective lock, recomputed from the flag
        and the deadline at each call. */
    method GetRegistrationStatus(now: int) returns (locked: bool)
      ensures locked <==> isRegistrationLocked || now > registrationDeadline
    {
      locked := isRegistrationLocked || now > registrationDeadline;
    }

    method SetRegistrationStatus(locked: bool) returns (r: bool)
      modifies this`isRegistrationLocked
      ensures isRegistrationLocked == locked && r == locked
    {
      isRegistrationLocked := locked;
      r := isRegistrationLocked;
    }

    method GetRegistrationDeadline() returns (d: int)
      ensures d == registrationDeadline
    {
      d := registrationDeadline;
    }

    method SetRegistrationDeadline(deadline: int) returns (d: int)
      modifies this`registrationDeadline
      ensures registrationDeadline == deadline && d == deadline
    {
      registrationDeadline := deadline;
      d := registrationDeadline;
    }

    method GetRegistrationSettings() returns (s: RegistrationSettings)
      ensures s == registrationSettings
    {
      s := registrationSettings;
    }

    method UpdateRegistrationSettings(s: RegistrationSettings)
      modifies this`registrationSettings
      ensures registrationSettings == s
    {
      registrationSettings := s;
    }

    method GetSubjects() returns (review: seq<Subject>, exam: seq<Subject>)
      ensures review == reviewSubjects && exam == examSubjects
    {
      review, exam := reviewSubjects, examSubjects;
    }

    method UpdateSubjects(review: seq<Subject>, exam: seq<Subject>)
      modifies this`reviewSubjects, this`examSubjects
      ensures reviewSubjects == review && examSubjects == exam
    {
      reviewSubjects, examSubjects := review, exam;
    }

    method GetCustomFormFields() returns (fields: seq<CustomField>)
      ensures fields == customFormFields
    {
      fields := customFormFields;
    }

    method UpdateCustomFormFields(fields: seq<CustomField>)
      modifies this`customFormFields
      ensures customFormFields == fields
    {
      customFormFields := fields;
    }
  }

  function NotListed(ids: seq<int>): Student -> bool
  {
    (u: Student) => u.id !in ids
  }
}
