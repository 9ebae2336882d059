/**
 * The SQLite store of `database.py`: the `students` and `users` tables held
 * in memory, the files under the photo directory and the card files as a set
 * of existing paths, the operations that change them, and the queries.
 */
module Database {
  import opened Wrappers
  import opened Text
  import opened Lists
  import opened Schema
  import opened Assets

  function IdOf(s: Student): string {
    s.studentId
  }

  function NameOf(s: Student): string {
    s.fullName
  }

  /** The `WHERE student_id = ?` condition. */
  function WithId(id: string): Student -> bool {
    (s: Student) => s.studentId == id
  }

  /** The complement of `WithId(id)`: the rows a `DELETE ... WHERE student_id = ?` keeps. */
  function WithoutId(id: string): Student -> bool {
    (s: Student) => s.studentId != id
  }

  /** The UNIQUE constraint on `students.student_id`. */
  ghost predicate UniqueIds(rows: seq<Student>) {
    forall i, j :: 0 <= i < j < |rows| ==> rows[i].studentId != rows[j].studentId
  }

  /** The UNIQUE constraint on `users.username`. */
  ghost predicate UniqueUsernames(users: seq<User>) {
    forall i, j :: 0 <= i < j < |users| ==> users[i].username != users[j].username
  }

  /** `get_student_by_id`: the row with that `student_id`, or None when there is none. */
  function Lookup(rows: seq<Student>, id: string): (r: Option<Student>)
    ensures r.None? <==> forall i :: 0 <= i < |rows| ==> rows[i].studentId != id
    ensures r.Some? ==> r.value in rows && r.value.studentId == id
  {
    First(rows, WithId(id))
  }

  /** Under the UNIQUE constraint, looking up a stored row's id finds that very row. */
  lemma LookupUnique(rows: seq<Student>, i: int)
    requires UniqueIds(rows) && 0 <= i < |rows|
    ensures Lookup(rows, rows[i].studentId) == Some(rows[i])
  {
    var r := First(rows, WithId(rows[i].studentId));
    var j :| 0 <= j < |rows| && rows[j] == r.value && forall k :: 0 <= k < j ==> !WithId(rows[i].studentId)(rows[k]);
    assert WithId(rows[i].studentId)(rows[i]);
    assert j == i;
  }

  /** `student_data.get(key, '')` for a key that, when present, holds a string. */
  function OrEmpty(v: Option<string>): (r: string)
    ensures v.Some? ==> r == v.value
    ensures v.None? ==> r == ""
  {
    if v.Some? then v.value else ""
  }

  /** `student_data.get('photo_path', '')` as the column receives it: '' when absent, NULL for None. */
  function StoredPhoto(e: Entry): (r: Option<string>)
    ensures e.Absent? ==> r == Some("")
    ensures e.Null? ==> r.None?
    ensures e.Text? ==> r == Some(e.text)
  {
    match e
    case Absent => Some("")
    case Null => None
    case Text(t) => Some(t)
  }

  /**
   * `row` holds what `data` gives for the ten columns both `add_student` and
   * `update_student` write, absent optional keys read as ''.
   */
  ghost predicate Carries(row: Student, data: StudentData) {
    && row.fullName == data.fullName
    && row.department == data.department
    && row.program == Some(OrEmpty(data.program))
    && row.email == Some(OrEmpty(data.email))
    && row.phone == Some(OrEmpty(data.phone))
    && row.dateOfBirth == Some(OrEmpty(data.dateOfBirth))
    && row.gender == Some(OrEmpty(data.gender))
    && row.enrollmentDate == Some(OrEmpty(data.enrollmentDate))
    && row.graduationDate == Some(OrEmpty(data.graduationDate))
    && row.photoPath == StoredPhoto(data.photoPath)
  }

  /** The card columns, which only `mark_id_card_generated` writes. */
  ghost predicate SameCard(a: Student, b: Student) {
    && a.idCardGenerated == b.idCardGenerated
    && a.idCardPath == b.idCardPath
    && a.idCardGeneratedDate == b.idCardGeneratedDate
    && a.qrCodeData == b.qrCodeData
  }

  /** Every column except the four card columns. */
  ghost predicate SameDetails(a: Student, b: Student) {
    && a.studentId == b.studentId
    && a.fullName == b.fullName
    && a.department == b.department
    && a.program == b.program
    && a.email == b.email
    && a.phone == b.phone
    && a.dateOfBirth == b.dateOfBirth
    && a.gender == b.gender
    && a.enrollmentDate == b.enrollmentDate
    && a.graduationDate == b.graduationDate
    && a.photoPath == b.photoPath
    && a.dateCreated == b.dateCreated
    && a.lastUpdated == b.lastUpdated
  }

  /**
   * The row `add_student` inserts at time `now`: the given values, the card
   * flag at its default 0 and the other card columns NULL.
   */
  function NewRow(data: StudentData, now: Timestamp): (r: Student)
    ensures r.studentId == data.studentId && Carries(r, data)
    ensures !CardGenerated(r) && r.idCardPath.None? && r.idCardGeneratedDate.None? && r.qrCodeData.None?
    ensures r.dateCreated == now && r.lastUpdated == now
  {
    Student(data.studentId, data.fullName, data.department,
      Some(OrEmpty(data.program)), Some(OrEmpty(data.email)), Some(OrEmpty(data.phone)),
      Some(OrEmpty(data.dateOfBirth)), Some(OrEmpty(data.gender)), Some(OrEmpty(data.enrollmentDate)),
      Some(OrEmpty(data.graduationDate)), StoredPhoto(data.photoPath),
      0, None, None, None, now, now)
  }

  /** The row `update_student` leaves at time `now`: the ten columns from `data`, `last_updated` set, the rest kept. */
  function ApplyUpdate(row: Student, data: StudentData, now: Timestamp): (r: Student)
    ensures Carries(r, data) && SameCard(r, row)
    ensures r.studentId == row.studentId && r.dateCreated == row.dateCreated && r.lastUpdated == now
  {
    row.(fullName := data.fullName, department := data.department,
      program := Some(OrEmpty(data.program)), email := Some(OrEmpty(data.email)),
      phone := Some(OrEmpty(data.phone)), dateOfBirth := Some(OrEmpty(data.dateOfBirth)),
      gender := Some(OrEmpty(data.gender)), enrollmentDate := Some(OrEmpty(data.enrollmentDate)),
      graduationDate := Some(OrEmpty(data.graduationDate)), photoPath := StoredPhoto(data.photoPath),
      lastUpdated := now)
  }

  /** The table after `UPDATE students SET ... WHERE student_id = id`. */
  function UpdateRows(rows: seq<Student>, id: string, data: StudentData, now: Timestamp): (r: seq<Student>)
    ensures |r| == |rows|
    ensures forall i :: 0 <= i < |rows| ==> r[i].studentId == rows[i].studentId && SameCard(r[i], rows[i])
    ensures forall i :: 0 <= i < |rows| && rows[i].studentId != id ==> r[i] == rows[i]
    ensures forall i :: 0 <= i < |rows| && rows[i].studentId == id ==> Carries(r[i], data) && r[i].lastUpdated == now
  {
    seq(|rows|, i requires 0 <= i < |rows| => if rows[i].studentId == id then ApplyUpdate(rows[i], data, now) else rows[i])
  }

  /** An update of an id no row has leaves the table as it was. */
  lemma UpdateUnknownId(rows: seq<Student>, id: string, data: StudentData, now: Timestamp)
    requires Lookup(rows, id).None?
    ensures UpdateRows(rows, id, data, now) == rows
  {
  }

  /**
   * After an update, looking up the updated id finds the old row with the new
   * values applied, and every other id finds what it found before.
   */
  lemma {:induction false} UpdateThenLookup(rows: seq<Student>, id: string, data: StudentData, now: Timestamp, other: string)
    requires UniqueIds(rows)
    ensures UniqueIds(UpdateRows(rows, id, data, now))
    ensures Lookup(rows, id).Some? ==> Lookup(UpdateRows(rows, id, data, now), id) == Some(ApplyUpdate(Lookup(rows, id).value, data, now))
    ensures Lookup(rows, id).None? ==> Lookup(UpdateRows(rows, id, data, now), id).None?
    ensures other != id ==> Lookup(UpdateRows(rows, id, data, now), other) == Lookup(rows, other)
  {
    var r := UpdateRows(rows, id, data, now);
    if Lookup(rows, id).Some? {
      var i :| 0 <= i < |rows| && rows[i] == Lookup(rows, id).value;
      LookupUnique(rows, i);
      LookupUnique(r, i);
    }
    if other != id {
      if Lookup(rows, other).Some? {
        var i :| 0 <= i < |rows| && rows[i] == Lookup(rows, other).value;
        LookupUnique(rows, i);
        LookupUnique(r, i);
      }
    }
  }

  /** The table after `DELETE FROM students WHERE student_id = id`. */
  function DeleteRows(rows: seq<Student>, id: string): (r: seq<Student>)
    ensures forall i :: 0 <= i < |r| ==> r[i].studentId != id && r[i] in rows
    ensures forall i :: 0 <= i < |rows| && rows[i].studentId != id ==> rows[i] in r
  {
    Filter(rows, WithoutId(id))
  }

  /**
   * After a delete the id is gone, every other id finds what it found before,
   * and under the UNIQUE constraint the table shrinks by one row exactly when
   * the id was present.
   */
  lemma {:induction false} DeleteThenLookup(rows: seq<Student>, id: string, other: string)
    requires UniqueIds(rows)
    ensures Lookup(DeleteRows(rows, id), id).None?
    ensures other != id ==> Lookup(DeleteRows(rows, id), other) == Lookup(rows, other)
    ensures |DeleteRows(rows, id)| == |rows| - (if Lookup(rows, id).Some? then 1 else 0)
  {
    if other != id {
      FirstFilter(rows, WithoutId(id), WithId(other));
    }
    if rows != [] {
      UniqueTail(rows);
      DeleteThenLookup(rows[1..], id, other);
      if rows[0].studentId == id {
        forall i | 0 <= i < |rows[1..]| ensures rows[1..][i].studentId != id {
          assert rows[1..][i] == rows[i + 1];
        }
      }
    }
  }

  /** `id` is the `student_id` of some row (what a failed `INSERT` reports as IntegrityError). */
  predicate Taken(rows: seq<Student>, id: string) {
    Lookup(rows, id).Some?
  }

  /** After a successful insert the new id finds the new row, and the other ids find what they found before. */
  lemma AddThenLookup(rows: seq<Student>, data: StudentData, now: Timestamp, other: string)
    requires !Taken(rows, data.studentId)
    ensures Lookup(rows + [NewRow(data, now)], data.studentId) == Some(NewRow(data, now))
    ensures other != data.studentId ==> Lookup(rows + [NewRow(data, now)], other) == Lookup(rows, other)
  {
    var extended := rows + [NewRow(data, now)];
    assert extended[|rows|] == NewRow(data, now);
    if other != data.studentId {
      FirstFilter(extended, WithoutId(data.studentId), WithId(other));
      FilterAll(rows, WithoutId(data.studentId));
      FilterConcat(rows, [NewRow(data, now)], WithoutId(data.studentId));
      assert Filter(extended, WithoutId(data.studentId)) == rows;
    }
  }

  /**
   * The files `delete_student` removes for the row it looked up: the stored
   * photo joined to the photo directory, and the card path, each only when
   * its column is neither NULL nor ''.
   */
  function FilesRemovedBy(row: Option<Student>, photosDir: string): (r: set<string>)
    ensures row.None? ==> r == {}
    ensures row.Some? && Truthy(row.value.photoPath) ==> Join(photosDir, row.value.photoPath.value) in r
    ensures row.Some? && Truthy(row.value.idCardPath) ==> row.value.idCardPath.value in r
    ensures forall f :: f in r ==>
      && row.Some?
      && ((Truthy(row.value.photoPath) && f == Join(photosDir, row.value.photoPath.value)) ||
          (Truthy(row.value.idCardPath) && f == row.value.idCardPath.value))
  {
    match row
    case None => {}
    case Some(s) =>
      (if Truthy(s.photoPath) then {Join(photosDir, s.photoPath.value)} else {}) +
      (if Truthy(s.idCardPath) then {s.idCardPath.value} else {})
  }

  /** The table after `mark_id_card_generated(id, cardPath, qrData)` at time `now`. */
  function MarkRows(rows: seq<Student>, id: string, cardPath: string, qrData: string, now: Timestamp): (r: seq<Student>)
    ensures |r| == |rows|
    ensures forall i :: 0 <= i < |rows| ==> SameDetails(r[i], rows[i])
    ensures forall i :: 0 <= i < |rows| && rows[i].studentId != id ==> r[i] == rows[i]
    ensures forall i :: 0 <= i < |rows| && rows[i].studentId == id ==>
      r[i].idCardGenerated == 1 && r[i].idCardPath == Some(cardPath) &&
      r[i].qrCodeData == Some(qrData) && r[i].idCardGeneratedDate == Some(now)
  {
    seq(|rows|, i requires 0 <= i < |rows| =>
      if rows[i].studentId == id
      then rows[i].(idCardGenerated := 1, idCardPath := Some(cardPath), idCardGeneratedDate := Some(now), qrCodeData := Some(qrData))
      else rows[i])
  }

  /** A marked row appears in the gallery query as soon as its card file exists. */
  lemma MarkedRowIsListed(rows: seq<Student>, id: string, cardPath: string, qrData: string, now: Timestamp, files: set<string>, i: int)
    requires 0 <= i < |rows| && rows[i].studentId == id && cardPath in files
    ensures Listed(files)(MarkRows(rows, id, cardPath, qrData, now)[i])
  {
  }

  /** The default administrator `init_db` creates. */
  function AdminUser(now: Timestamp): User {
    User("admin", "admin123", "admin", "System Administrator", 1, now)
  }

  /** The sample student `init_db` creates in an empty table; graduation date and photo are NULL. */
  function SampleStudent(now: Timestamp): Student {
    Student("SE2024001", "John Doe", "Software Engineering", Some("BSc Software Engineering"),
      Some("john.doe@university.edu"), Some("+1234567890"), Some("2000-01-15"), Some("Male"),
      Some("2024-09-01"), None, None, 0, None, None, None, now, now)
  }

  /** `SELECT id FROM users WHERE username = ?` finds a row. */
  predicate HasUser(users: seq<User>, username: string) {
    exists i :: 0 <= i < |users| && users[i].username == username
  }

  /** `get_all_students`: every row, in ascending `student_id` order. */
  function AllStudents(rows: seq<Student>): (r: seq<Student>)
    ensures multiset(r) == multiset(rows) && |r| == |rows|
    ensures SortedBy(r, IdOf)
  {
    var r := SortBy(rows, IdOf);
    assert |r| == |multiset(r)|;
    r
  }

  /** Under the UNIQUE constraint the listing is strictly ascending. */
  lemma AllStudentsStrictlyAscending(rows: seq<Student>, i: int, j: int)
    requires UniqueIds(rows)
    requires 0 <= i < j < |AllStudents(rows)|
    ensures AllStudents(rows)[i].studentId != AllStudents(rows)[j].studentId
    ensures LexLeq(AllStudents(rows)[i].studentId, AllStudents(rows)[j].studentId)
  {
    var r := AllStudents(rows);
    DuplicateInPermutation(rows, r, i, j);
    assert r[i] in multiset(rows) && r[j] in multiset(rows);
    var a :| 0 <= a < |rows| && rows[a] == r[i];
    var b :| 0 <= b < |rows| && rows[b] == r[j];
    assert a != b;
  }

  /** Two positions of a permutation of a UNIQUE table never hold the same row. */
  lemma DuplicateInPermutation(rows: seq<Student>, r: seq<Student>, i: int, j: int)
    requires UniqueIds(rows) && multiset(r) == multiset(rows)
    requires 0 <= i < j < |r|
    ensures r[i] != r[j]
  {
    var m := multiset(r[..i]) + multiset{r[i]} + multiset(r[i + 1..j]) + multiset{r[j]} + multiset(r[j + 1..]);
    assert r == r[..i] + [r[i]] + r[i + 1..j] + [r[j]] + r[j + 1..];
    assert multiset(r) == m;
    UniqueAtMostOnce(rows, r[i]);
  }

  /** The rows after the first keep the UNIQUE constraint. */
  lemma UniqueTail(rows: seq<Student>)
    requires UniqueIds(rows) && rows != []
    ensures UniqueIds(rows[1..])
  {
    forall i, j | 0 <= i < j < |rows[1..]| ensures rows[1..][i].studentId != rows[1..][j].studentId {
      assert rows[1..][i] == rows[i + 1] && rows[1..][j] == rows[j + 1];
    }
  }

  /** Under the UNIQUE constraint no row is stored twice. */
  lemma {:induction false} UniqueAtMostOnce(rows: seq<Student>, x: Student)
    requires UniqueIds(rows)
    ensures multiset(rows)[x] <= 1
  {
    if rows != [] {
      UniqueTail(rows);
      UniqueAtMostOnce(rows[1..], x);
      assert rows == [rows[0]] + rows[1..];
      if x == rows[0] {
        forall k | 0 <= k < |rows[1..]| ensures rows[1..][k] != x {
          assert rows[1..][k] == rows[k + 1];
        }
      }
    }
  }

  /** `get_student_count`. */
  function StudentCount(rows: seq<Student>): (n: nat)
    ensures n == |AllStudents(rows)|
  {
    |rows|
  }

  /** `get_student_photo_path`: the stored photo name, reconciled, or None when the row is missing or the column is NULL or ''. */
  function GetStudentPhotoPath(rows: seq<Student>, id: string): (r: Option<string>)
    ensures r.None? <==> Lookup(rows, id).None? || !Truthy(Lookup(rows, id).value.photoPath)
    ensures r.Some? ==> r.value == ReconcilePhotoPath(id, Lookup(rows, id).value.photoPath.value)
  {
    match Lookup(rows, id)
    case None => None
    case Some(s) => if Truthy(s.photoPath) then Some(ReconcilePhotoPath(id, s.photoPath.value)) else None
  }

  /** For an id without `/`, the photo path query returns the stored name unchanged. */
  lemma PhotoPathUnchangedWithoutSlash(rows: seq<Student>, id: string)
    requires '/' !in id
    requires Lookup(rows, id).Some? && Truthy(Lookup(rows, id).value.photoPath)
    ensures GetStudentPhotoPath(rows, id) == Lookup(rows, id).value.photoPath
  {
  }

  /** `get_student_id_card_path`: the stored card path, or None when the row is missing or the column is NULL or ''. */
  function GetStudentIdCardPath(rows: seq<Student>, id: string): (r: Option<string>)
    ensures r.Some? <==> Lookup(rows, id).Some? && Truthy(Lookup(rows, id).value.idCardPath)
    ensures r.Some? ==> r == Lookup(rows, id).value.idCardPath
  {
    match Lookup(rows, id)
    case None => None
    case Some(s) => if Truthy(s.idCardPath) then s.idCardPath else None
  }

  /** `id_card_generated = 1 AND id_card_path IS NOT NULL`. */
  predicate Issued(s: Student) {
    s.idCardGenerated == 1 && s.idCardPath.Some?
  }

  /** `os.path.exists(id_card_path)`. */
  function OnDisk(files: set<string>): Student -> bool {
    (s: Student) => s.idCardPath.Some? && s.idCardPath.value in files
  }

  /** The rows the gallery query returns: issued, with the card file present. */
  function Listed(files: set<string>): Student -> bool {
    (s: Student) => Issued(s) && s.idCardPath.value in files
  }

  /** One entry of `get_all_generated_id_cards`: the selected columns plus `has_photo`. */
  datatype CardInfo = CardInfo(
    studentId: string,
    fullName: string,
    program: Option<string>,
    photoPath: Option<string>,
    idCardPath: Option<string>,
    idCardGeneratedDate: Option<Timestamp>,
    hasPhoto: bool)

  function ToCard(s: Student): CardInfo {
    CardInfo(s.studentId, s.fullName, s.program, s.photoPath, s.idCardPath, s.idCardGeneratedDate, Truthy(s.photoPath))
  }

  /** One step of the loop over the ordered rows: the next row's card is appended exactly when its file exists. */
  lemma KeepStep(selected: seq<Student>, k: int, files: set<string>)
    requires 0 <= k < |selected|
    ensures OnDisk(files)(selected[k]) ==>
      MapSeq(Filter(selected[..k + 1], OnDisk(files)), ToCard) == MapSeq(Filter(selected[..k], OnDisk(files)), ToCard) + [ToCard(selected[k])]
    ensures !OnDisk(files)(selected[k]) ==>
      MapSeq(Filter(selected[..k + 1], OnDisk(files)), ToCard) == MapSeq(Filter(selected[..k], OnDisk(files)), ToCard)
  {
    FilterConcat(selected[..k], [selected[k]], OnDisk(files));
    assert selected[..k + 1] == selected[..k] + [selected[k]];
  }

  /** The issued rows in ascending `full_name` order: what `ORDER BY full_name` returns (ties in stored order). */
  function IssuedByName(rows: seq<Student>): (r: seq<Student>)
    ensures multiset(r) == multiset(Filter(rows, Issued))
    ensures SortedBy(r, NameOf)
  {
    SortBy(Filter(rows, Issued), NameOf)
  }

  /** The ordered issued rows whose card file exists. */
  function KeptCards(rows: seq<Student>, files: set<string>): seq<Student> {
    Filter(IssuedByName(rows), OnDisk(files))
  }

  /** The cards `get_all_generated_id_cards` returns, one per kept row, in order. */
  function GeneratedIdCards(rows: seq<Student>, files: set<string>): seq<CardInfo> {
    MapSeq(KeptCards(rows, files), ToCard)
  }

  /** The kept rows are exactly the listed rows, as many as there are listed rows, sorted by name. */
  lemma {:induction false} KeptCardsAreListed(rows: seq<Student>, files: set<string>)
    ensures |KeptCards(rows, files)| == |Filter(rows, Listed(files))|
    ensures forall k :: 0 <= k < |KeptCards(rows, files)| ==> KeptCards(rows, files)[k] in rows && Listed(files)(KeptCards(rows, files)[k])
    ensures forall i :: 0 <= i < |rows| && Listed(files)(rows[i]) ==> rows[i] in KeptCards(rows, files)
    ensures SortedBy(KeptCards(rows, files), NameOf)
  {
    var issued := Filter(rows, Issued);
    var selected := IssuedByName(rows);
    var kept := KeptCards(rows, files);
    FilterPermutation(selected, issued, OnDisk(files));
    FilterFilter(rows, Issued, OnDisk(files), Listed(files));
    FilterSorted(selected, OnDisk(files), NameOf);
    forall k | 0 <= k < |kept| ensures kept[k] in rows && Listed(files)(kept[k]) {
      assert kept[k] in selected;
      assert kept[k] in multiset(issued);
      assert kept[k] in issued;
    }
    forall i | 0 <= i < |rows| && Listed(files)(rows[i]) ensures rows[i] in kept {
      assert rows[i] in issued;
      assert rows[i] in multiset(selected);
    }
  }

  /** `get_all_generated_id_cards`: walks the issued rows in name order and keeps a card for each row whose card file exists. */
  method GetAllGeneratedIdCards(rows: seq<Student>, files: set<string>) returns (cards: seq<CardInfo>)
    ensures cards == GeneratedIdCards(rows, files)
  {
    var selected := IssuedByName(rows);
    cards := [];
    var k := 0;
    while k < |selected|
      invariant 0 <= k <= |selected|
      invariant cards == MapSeq(Filter(selected[..k], OnDisk(files)), ToCard)
    {
      var row := selected[k];
      KeepStep(selected, k, files);
      if OnDisk(files)(row) {
        cards := cards + [ToCard(row)];
      }
      k := k + 1;
    }
    assert selected[..k] == selected;
  }

  /** The gallery gets one card per listed row, sorted by name, each with `has_photo` telling whether the photo column is set. */
  lemma GeneratedCardsOrdered(rows: seq<Student>, files: set<string>)
    ensures var cards := GeneratedIdCards(rows, files);
      && |cards| == |Filter(rows, Listed(files))|
      && (forall j, k :: 0 <= j < k < |cards| ==> LexLeq(cards[j].fullName, cards[k].fullName))
      && (forall k :: 0 <= k < |cards| ==> cards[k].hasPhoto == Truthy(cards[k].photoPath))
  {
    KeptCardsAreListed(rows, files);
    var kept, cards := KeptCards(rows, files), GeneratedIdCards(rows, files);
    forall j, k | 0 <= j < k < |cards| ensures LexLeq(cards[j].fullName, cards[k].fullName) {
      assert cards[j].fullName == NameOf(kept[j]) && cards[k].fullName == NameOf(kept[k]);
    }
  }

  /** Every card is the card of a row that is issued and whose card file exists: the row kept at the same position. */
  lemma GeneratedCardsSound(rows: seq<Student>, files: set<string>, k: int)
    requires 0 <= k < |GeneratedIdCards(rows, files)|
    ensures var row := KeptCards(rows, files)[k];
      row in rows && Listed(files)(row) && GeneratedIdCards(rows, files)[k] == ToCard(row)
  {
    KeptCardsAreListed(rows, files);
  }

  /** Every row that is issued and whose card file exists has its card in the list. */
  lemma GeneratedCardsComplete(rows: seq<Student>, files: set<string>)
    ensures forall i :: 0 <= i < |rows| && Listed(files)(rows[i]) ==> ToCard(rows[i]) in GeneratedIdCards(rows, files)
  {
    KeptCardsAreListed(rows, files);
    var kept, cards := KeptCards(rows, files), GeneratedIdCards(rows, files);
    forall i | 0 <= i < |rows| && Listed(files)(rows[i])
      ensures ToCard(rows[i]) in cards
    {
      var m :| 0 <= m < |kept| && kept[m] == rows[i];
      assert cards[m] == ToCard(rows[i]);
    }
  }

  /**
   * `database.authenticate_user`: the first user whose username and password
   * both match, also required to be active once the `is_active` column exists.
   * A table that cannot be read gives None.
   */
  function AuthenticateUser(table: Option<UsersTable>, username: string, password: string): (r: Option<User>)
    ensures r.Some? ==> table.Some? && r.value in table.value.rows
    ensures r.Some? ==> r.value.username == username && r.value.passwordHash == password
    ensures r.Some? && table.value.hasIsActiveColumn ==> r.value.isActive == 1
    ensures table.Some? && (exists i :: 0 <= i < |table.value.rows| && MatchesLogin(table.value, username, password)(table.value.rows[i])) ==> r.Some?
  {
    match table
    case None => None
    case Some(t) => First(t.rows, MatchesLogin(t, username, password))
  }

  /** The `WHERE username = ? AND password_hash = ? [AND is_active = 1]` condition of `database.authenticate_user`. */
  function MatchesLogin(table: UsersTable, username: string, password: string): User -> bool {
    (u: User) => u.username == username && u.passwordHash == password && (table.hasIsActiveColumn ==> u.isActive == 1)
  }

  /** An unknown username and a wrong password for a known one both give None. */
  lemma AuthenticateUserRejects(table: UsersTable, username: string, password: string)
    requires UniqueUsernames(table.rows)
    requires forall i :: 0 <= i < |table.rows| && table.rows[i].username == username ==> table.rows[i].passwordHash != password
    ensures AuthenticateUser(Some(table), username, password).None?
  {
  }

  /**
   * The name `database.save_student_photo` returns: None when the source does
   * not exist, when the destination is the source itself (`SameFileError`) or
   * when the copy fails; otherwise the raw-id file name.
   */
  function DbSavedPhotoName(files: set<string>, photosDir: string, id: string, source: string, copyOk: bool): (r: Option<string>)
    ensures r.Some? <==> source in files && Join(photosDir, DbPhotoFilename(id, source)) != source && copyOk
    ensures r.Some? ==> r.value == DbPhotoFilename(id, source)
  {
    if source !in files then None
    else if Join(photosDir, DbPhotoFilename(id, source)) == source || !copyOk then None
    else Some(DbPhotoFilename(id, source))
  }

  /** An id holding `/` sends the copy into a sub-directory of the photo directory. */
  lemma DbPhotoNestsSlashIds(photosDir: string, id: string, source: string, i: int)
    requires 0 <= i < |id| && id[i] == '/'
    ensures Join(photosDir, DbPhotoFilename(id, source))[|photosDir| + 1 + i] == '/'
  {
    assert Join(photosDir, DbPhotoFilename(id, source)) == photosDir + ['/'] + DbPhotoFilename(id, source);
  }

  /**
   * The store: the `students` rows in rowid order, the `users` rows, and the
   * set of existing files (stored photos live at `Join(photosDir, name)`).
   */
  class Store {
    var students: seq<Student>
    var users: seq<User>
    var files: set<string>
    const photosDir: string

    /**
     * The UNIQUE constraints, and program and email never NULL: every write
     * path stores '' for an absent key.
     */
    ghost predicate Valid()
      reads this`students, this`users
    {
      && UniqueIds(students)
      && UniqueUsernames(users)
      && forall i :: 0 <= i < |students| ==> students[i].program.Some? && students[i].email.Some?
    }

    constructor (photosDir: string, files: set<string>)
      ensures Valid()
      ensures students == [] && users == [] && this.files == files && this.photosDir == photosDir
    {
      this.photosDir := photosDir;
      this.files := files;
      students := [];
      users := [];
    }

    /** The seeding half of `init_db`: the default administrator when no `admin` exists, the sample student when the table is empty. */
    method InitDb(now: Timestamp)
      requires Valid()
      modifies this`users, this`students
      ensures Valid()
      ensures users == if HasUser(old(users), "admin") then old(users) else old(users) + [AdminUser(now)]
      ensures students == if old(students) == [] then [SampleStudent(now)] else old(students)
    {
      var found := false;
      var i := 0;
      while i < |users|
        invariant 0 <= i <= |users|
        invariant found <==> exists j :: 0 <= j < i && users[j].username == "admin"
      {
        if users[i].username == "admin" {
          found := true;
        }
        i := i + 1;
      }
      if !found {
        users := users + [AdminUser(now)];
      }
      if |students| == 0 {
        students := [SampleStudent(now)];
      }
    }

    /** `add_student`: inserts the new row, or reports False and changes nothing when the id is taken. */
    method AddStudent(data: StudentData, now: Timestamp) returns (ok: bool)
      requires Valid()
      modifies this`students
      ensures Valid()
      ensures ok <==> !Taken(old(students), data.studentId)
      ensures ok ==> students == old(students) + [NewRow(data, now)]
      ensures !ok ==> students == old(students)
    {
      if Taken(students, data.studentId) {
        ok := false;
      } else {
        students := students + [NewRow(data, now)];
        ok := true;
      }
    }

    /** `update_student`: rewrites the matching row (none for an unknown id) and always reports True. */
    method UpdateStudent(id: string, data: StudentData, now: Timestamp) returns (ok: bool)
      requires Valid()
      modifies this`students
      ensures Valid() && ok
      ensures students == UpdateRows(old(students), id, data, now)
    {
      UpdateThenLookup(students, id, data, now, id);
      students := UpdateRows(students, id, data, now);
      ok := true;
    }

    /** `delete_student`: removes the row's photo and card files, then the row, and always reports True. */
    method DeleteStudent(id: string) returns (ok: bool)
      requires Valid()
      modifies this`students, this`files
      ensures Valid() && ok
      ensures students == DeleteRows(old(students), id)
      ensures files == old(files) - FilesRemovedBy(Lookup(old(students), id), photosDir)
    {
      var student := Lookup(students, id);
      if student.Some? {
        if Truthy(student.value.photoPath) {
          files := files - {Join(photosDir, student.value.photoPath.value)};
        }
        if Truthy(student.value.idCardPath) {
          files := files - {student.value.idCardPath.value};
        }
      }
      var before := students;
      students := DeleteRows(students, id);
      assert UniqueIds(students) by {
        FilterSubsequenceUnique(before, WithoutId(id));
      }
      ok := true;
    }

    /** `database.save_student_photo`: copies the source next to the other photos under the raw-id name. */
    method SaveStudentPhoto(id: string, source: string, copyOk: bool) returns (name: Option<string>)
      modifies this`files
      ensures name == DbSavedPhotoName(old(files), photosDir, id, source, copyOk)
      ensures name.Some? ==> files == old(files) + {Join(photosDir, name.value)}
      ensures name.None? ==> files == old(files)
    {
      if source !in files {
        return None;
      }
      var filename := DbPhotoFilename(id, source);
      var dest := Join(photosDir, filename);
      if dest == source || !copyOk {
        return None;
      }
      files := files + {dest};
      name := Some(filename);
    }

    /** `mark_id_card_generated`: sets the card columns of the matching row and always reports True. */
    method MarkIdCardGenerated(id: string, cardPath: string, qrData: string, now: Timestamp) returns (ok: bool)
      requires Valid()
      modifies this`students
      ensures Valid() && ok
      ensures students == MarkRows(old(students), id, cardPath, qrData, now)
    {
      students := MarkRows(students, id, cardPath, qrData, now);
      ok := true;
    }
  }

  /** Filtering a table keeps the UNIQUE constraint. */
  lemma {:induction false} FilterSubsequenceUnique(rows: seq<Student>, p: Student -> bool)
    requires UniqueIds(rows)
    ensures UniqueIds(Filter(rows, p))
  {
    if rows != [] {
      UniqueTail(rows);
      FilterSubsequenceUnique(rows[1..], p);
      var t := Filter(rows[1..], p);
      if p(rows[0]) {
        forall j | 0 <= j < |t| ensures rows[0].studentId != t[j].studentId {
          assert t[j] in rows[1..];
          var k :| 0 <= k < |rows[1..]| && rows[1..][k] == t[j];
          assert rows[k + 1] == t[j];
        }
        var r := [rows[0]] + t;
        forall i, j | 0 <= i < j < |r| ensures r[i].studentId != r[j].studentId {
          assert r[j] == t[j - 1];
          if i > 0 {
            assert r[i] == t[i - 1];
          }
        }
      }
    }
  }
}
