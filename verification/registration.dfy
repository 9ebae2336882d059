/**
 * The registration dialog of `registration_form.py`: form validation, the
 * photo it keeps selected, copying that photo into the photo directory, the
 * photo column written with the record, and loading a record for editing.
 */
module Registration {
  import opened Wrappers
  import opened Text
  import opened Schema
  import opened Assets
  import opened Database

  /** The dialog's inputs as read: line edits as typed, combo boxes and dates as text. */
  datatype FormInput = FormInput(
    studentId: string,
    fullName: string,
    email: string,
    phone: string,
    department: string,
    program: string,
    dateOfBirth: string,
    gender: string,
    enrollmentDate: string,
    graduationDate: string)

  /** The three required fields. */
  datatype Field = StudentIdField | FullNameField | EmailField

  /** A field's name as the warnings spell it. */
  function Label(field: Field): string {
    match field
    case StudentIdField => "Student ID"
    case FullNameField => "Full Name"
    case EmailField => "Email Address"
  }

  /** Why a form is refused. */
  datatype Problem = Missing(field: Field) | BadEmail | ShortId

  /** The warning the dialog shows for a problem. */
  function Message(problem: Problem): string {
    match problem
    case Missing(field) => Label(field) + " is required."
    case BadEmail => "Please enter a valid email address."
    case ShortId => "Student ID must be at least 3 characters long."
  }

  datatype Validation = Accepted | Rejected(problem: Problem)

  /**
   * `validate_form` as a decision: the first failing check, in the order
   * the dialog runs them, names the warning shown. `editing` is true when the
   * dialog edits an existing record.
   */
  function Validate(form: FormInput, editing: bool): Validation {
    var id, name, email := Strip(form.studentId), Strip(form.fullName), Strip(form.email);
    if id == "" then Rejected(Missing(StudentIdField))
    else if name == "" then Rejected(Missing(FullNameField))
    else if email == "" then Rejected(Missing(EmailField))
    else if !Contains(email, "@") || !Contains(email, ".") then Rejected(BadEmail)
    else if !editing && |id| < 3 then Rejected(ShortId)
    else Accepted
  }

  /**
   * An accepted form has a non-blank id, name and email, an email holding
   * both `@` and `.`, and, for a new student, an id of at least three
   * characters after trimming; and every such form is accepted.
   */
  lemma ValidateAccepts(form: FormInput, editing: bool)
    ensures Validate(form, editing).Accepted? <==>
      && (exists i :: 0 <= i < |form.studentId| && !IsSpace(form.studentId[i]))
      && (exists i :: 0 <= i < |form.fullName| && !IsSpace(form.fullName[i]))
      && (exists i :: 0 <= i < |form.email| && !IsSpace(form.email[i]))
      && (exists i :: OccursAt(Strip(form.email), "@", i))
      && (exists i :: OccursAt(Strip(form.email), ".", i))
      && (!editing ==> |Strip(form.studentId)| >= 3)
  {
    var id, name, email := Strip(form.studentId), Strip(form.fullName), Strip(form.email);
    assert id != "" <==> exists i :: 0 <= i < |form.studentId| && !IsSpace(form.studentId[i]);
    assert name != "" <==> exists i :: 0 <= i < |form.fullName| && !IsSpace(form.fullName[i]);
    assert email != "" <==> exists i :: 0 <= i < |form.email| && !IsSpace(form.email[i]);
    assert Contains(email, "@") <==> exists i :: OccursAt(email, "@", i);
    assert Contains(email, ".") <==> exists i :: OccursAt(email, ".", i);
  }

  /**
   * The length rule applies to new students only: registering rejects for
   * length exactly the forms editing accepts whose trimmed id is shorter than
   * three characters, and every other verdict is the same in both modes.
   */
  lemma LengthRuleOnlyForNewStudents(form: FormInput)
    ensures Validate(form, false) == Rejected(ShortId) <==> Validate(form, true) == Accepted && |Strip(form.studentId)| < 3
    ensures Validate(form, true).Rejected? ==> Validate(form, false) == Validate(form, true)
    ensures |Strip(form.studentId)| >= 3 ==> Validate(form, false) == Validate(form, true)
  {
    var id, name, email := Strip(form.studentId), Strip(form.fullName), Strip(form.email);
    var emailOk := Contains(email, "@") && Contains(email, ".");
    assert Validate(form, true) == if id == "" || name == "" || email == "" || !emailOk then Validate(form, false) else Accepted;
  }

  /** The field of the first entry whose value is blank, if any. */
  function FirstBlank(required: seq<(string, Field)>): (r: Option<Field>)
    ensures r.None? <==> forall j :: 0 <= j < |required| ==> required[j].0 != ""
    ensures r.Some? ==> exists j :: 0 <= j < |required| && required[j] == ("", r.value) && forall i :: 0 <= i < j ==> required[i].0 != ""
  {
    if required == [] then None
    else if required[0].0 == "" then Some(required[0].1)
    else
      var r := FirstBlank(required[1..]);
      assert forall j :: 1 <= j < |required| ==> required[j] == required[1..][j - 1];
      r
  }

  /** The required fields are checked in the order id, name, email. */
  lemma RequiredOrder(id: string, name: string, email: string)
    ensures FirstBlank([(id, StudentIdField), (name, FullNameField), (email, EmailField)]) ==
      if id == "" then Some(StudentIdField) else if name == "" then Some(FullNameField)
      else if email == "" then Some(EmailField) else None
  {
    var required := [(id, StudentIdField), (name, FullNameField), (email, EmailField)];
    assert required[1..] == [(name, FullNameField), (email, EmailField)];
    assert required[1..][1..] == [(email, EmailField)];
    assert required[1..][1..][1..] == [];
    assert FirstBlank(required[1..][1..]) == if email == "" then Some(EmailField) else None;
    assert FirstBlank(required[1..]) == if name == "" then Some(FullNameField) else FirstBlank(required[1..][1..]);
  }

  /** The loop of `validate_form` over the required fields: stops at the first blank one. */
  method FirstMissing(required: seq<(string, Field)>) returns (missing: Option<Field>)
    ensures missing == FirstBlank(required)
  {
    for k := 0 to |required|
      invariant FirstBlank(required) == FirstBlank(required[k..])
    {
      if required[k].0 == "" {
        return Some(required[k].1);
      }
      assert required[k..][1..] == required[k + 1..];
    }
    assert required[|required|..] == [];
    return None;
  }

  /**
   * `validate_form`: walks the required fields in order and stops at the
   * first blank one, then checks the email shape and, for a new student, the
   * id length.
   */
  method ValidateForm(form: FormInput, editing: bool) returns (v: Validation)
    ensures v == Validate(form, editing)
  {
    var id, name, email := Strip(form.studentId), Strip(form.fullName), Strip(form.email);
    RequiredOrder(id, name, email);
    var missing := FirstMissing([(id, StudentIdField), (name, FullNameField), (email, EmailField)]);
    if missing.Some? {
      return Rejected(Missing(missing.value));
    }
    if !Contains(email, "@") || !Contains(email, ".") {
      return Rejected(BadEmail);
    }
    if !editing && |id| < 3 {
      return Rejected(ShortId);
    }
    return Accepted;
  }

  /**
   * The name the dialog's `save_student_photo` returns: None when the source
   * is empty or missing, when the image check fails, when the destination is
   * the source itself (`SameFileError`) or when the copy fails; otherwise
   * the safe file name.
   */
  function SavedPhotoName(files: set<string>, photosDir: string, id: string, source: string, imageOk: bool, copyOk: bool): (r: Option<string>)
    ensures r.Some? <==> source != "" && source in files && imageOk && Join(photosDir, PhotoFilename(id, source)) != source && copyOk
    ensures r.Some? ==> r.value == PhotoFilename(id, source)
  {
    if source == "" || source !in files then None
    else if !imageOk then None
    else if Join(photosDir, PhotoFilename(id, source)) == source || !copyOk then None
    else Some(PhotoFilename(id, source))
  }

  /**
   * The `photo_path` entry `save_student` puts in the record: the saved file
   * name when a photo is selected, exists and is saved; None in every other
   * case. The key is always set.
   */
  function PhotoEntry(files: set<string>, photosDir: string, id: string, selected: Option<string>, imageOk: bool, copyOk: bool): (e: Entry)
    ensures !e.Absent?
    ensures e.Text? <==> Truthy(selected) && SavedPhotoName(files, photosDir, id, selected.value, imageOk, copyOk).Some?
    ensures e.Text? ==> e.text == PhotoFilename(id, selected.value)
  {
    if Truthy(selected) && selected.value in files then
      match SavedPhotoName(files, photosDir, id, selected.value, imageOk, copyOk)
      case None => Null
      case Some(name) => Text(name)
    else Null
  }

  /** The photo column a saved record ends up with: the safe file name, or NULL, never ''. */
  lemma RecordedPhotoColumn(files: set<string>, photosDir: string, id: string, selected: Option<string>, imageOk: bool, copyOk: bool)
    ensures var column := StoredPhoto(PhotoEntry(files, photosDir, id, selected, imageOk, copyOk));
      && (column.Some? ==> Truthy(selected) && column.value == PhotoFilename(id, selected.value) && column.value != "")
      && (column.None? <==> SavedPhotoName(files, photosDir, id, OrEmpty(selected), imageOk, copyOk).None?)
  {
  }

  /** The dictionary `save_student` hands to the store: trimmed id, name, email and phone, the other inputs as read. */
  function FormData(form: FormInput, photo: Entry): (data: StudentData)
    ensures data.studentId == Strip(form.studentId) && data.fullName == Strip(form.fullName)
    ensures data.email == Some(Strip(form.email)) && data.phone == Some(Strip(form.phone))
    ensures data.department == form.department && data.program == Some(form.program) && data.gender == Some(form.gender)
    ensures data.dateOfBirth == Some(form.dateOfBirth) && data.enrollmentDate == Some(form.enrollmentDate)
    ensures data.graduationDate == Some(form.graduationDate) && data.photoPath == photo
  {
    StudentData(Strip(form.studentId), Strip(form.fullName), form.department,
      Some(form.program), Some(Strip(form.email)), Some(Strip(form.phone)),
      Some(form.dateOfBirth), Some(form.gender), Some(form.enrollmentDate), Some(form.graduationDate), photo)
  }

  /**
   * A record built from an accepted form has a non-empty id and name, an email
   * holding `@` and `.`, and, for a new student, an id of at least three
   * characters; every optional key is present, so none is stored as `''` by default.
   */
  lemma AcceptedFormData(form: FormInput, editing: bool, photo: Entry)
    requires Validate(form, editing).Accepted?
    ensures var data := FormData(form, photo);
      && data.studentId != "" && data.fullName != ""
      && data.email.Some? && Contains(data.email.value, "@") && Contains(data.email.value, ".")
      && (!editing ==> |data.studentId| >= 3)
      && data.program.Some? && data.phone.Some? && data.gender.Some?
  {
  }

  /**
   * The full path of the photo `load_student_data` shows: the stored name,
   * reconciled, joined to the photo directory, when the row exists, its
   * photo column is set and that file exists.
   */
  function LoadedPhoto(rows: seq<Student>, files: set<string>, photosDir: string, id: string): (r: Option<string>)
    ensures r.Some? ==> Lookup(rows, id).Some? && r.value in files
  {
    match Lookup(rows, id)
    case None => None
    case Some(s) =>
      if Truthy(s.photoPath) && Join(photosDir, ReconcilePhotoPath(id, s.photoPath.value)) in files
      then Some(Join(photosDir, ReconcilePhotoPath(id, s.photoPath.value)))
      else None
  }

  /** The dialog and `get_student_photo_path` reconcile alike: the dialog shows the file that query names, when it exists. */
  lemma LoadedPhotoMatchesQuery(rows: seq<Student>, files: set<string>, photosDir: string, id: string)
    ensures LoadedPhoto(rows, files, photosDir, id) ==
      match GetStudentPhotoPath(rows, id)
      case None => None
      case Some(p) => if Join(photosDir, p) in files then Some(Join(photosDir, p)) else None
  {
  }

  /**
   * Saving an edited record re-saves the photo `load_student_data` selected.
   * When that photo is the one the dialog stored for this id, the copy goes
   * onto itself, fails, and the record's photo column is written as NULL,
   * whatever the image check and the copy would otherwise do.
   */
  lemma ResavingLoadedPhotoClearsIt(rows: seq<Student>, files: set<string>, photosDir: string, id: string, src: string, imageOk: bool, copyOk: bool, m: int)
    requires 0 <= m < |id| && id[m] != '.'
    requires Lookup(rows, id).Some? && Lookup(rows, id).value.photoPath == Some(PhotoFilename(id, src))
    requires Join(photosDir, PhotoFilename(id, src)) in files
    ensures LoadedPhoto(rows, files, photosDir, id) == Some(Join(photosDir, PhotoFilename(id, src)))
    ensures PhotoEntry(files, photosDir, id, LoadedPhoto(rows, files, photosDir, id), imageOk, copyOk) == Null
    ensures StoredPhoto(PhotoEntry(files, photosDir, id, LoadedPhoto(rows, files, photosDir, id), imageOk, copyOk)).None?
  {
    ReconcileKeepsFormNames(id, src);
    PhotoFilenameOfStoredPhoto(photosDir, id, src, m);
  }

  /**
   * The table after `save_student` hands `data` to the store: an update of the
   * edited record, or an insert that leaves the table alone when the id is taken.
   */
  function Persisted(rows: seq<Student>, editingId: Option<string>, data: StudentData, now: Timestamp): seq<Student> {
    if Truthy(editingId) then UpdateRows(rows, editingId.value, data, now)
    else if Taken(rows, data.studentId) then rows
    else rows + [NewRow(data, now)]
  }

  /** What `save_student` ends with: a validation warning, or the store's answer and whether a photo was saved. */
  datatype SaveOutcome = Invalid(problem: Problem) | Done(success: bool, photoSaved: bool)

  /**
   * The dialog: the id of the record being edited (None or '' when
   * registering) and the path of the selected photo.
   */
  class RegistrationDialog {
    const editingId: Option<string>
    var photoPath: Option<string>

    /** Opens the dialog with nothing selected and, when editing, runs `load_student_data`. */
    constructor (editingId: Option<string>, store: Store)
      ensures this.editingId == editingId
      ensures photoPath == if Truthy(editingId) then LoadedPhoto(store.students, store.files, store.photosDir, editingId.value) else None
    {
      this.editingId := editingId;
      photoPath := None;
      new;
      if Truthy(editingId) {
        var found := LoadStudentData(store);
      }
    }

    /** The dialog edits an existing record (`if self.student_id:`). */
    predicate Editing() {
      Truthy(editingId)
    }

    /**
     * `browse_photo`: a chosen file that passes the image check and loads as a
     * preview becomes the selected photo; otherwise the selection stays.
     */
    method BrowsePhoto(chosen: string, imageOk: bool, previewOk: bool)
      modifies this`photoPath
      ensures chosen != "" && imageOk && previewOk ==> photoPath == Some(chosen)
      ensures !(chosen != "" && imageOk && previewOk) ==> photoPath == old(photoPath)
    {
      if chosen != "" {
        if !imageOk {
          return;
        }
        if !previewOk {
          return;
        }
        photoPath := Some(chosen);
      }
    }

    /** `clear_photo`: nothing is selected any more. */
    method ClearPhoto()
      modifies this`photoPath
      ensures photoPath.None?
    {
      photoPath := None;
    }

    /**
     * `load_student_data`, photo part: reports whether the record exists and,
     * when its stored photo file exists, selects it.
     */
    method LoadStudentData(store: Store) returns (found: bool)
      modifies this`photoPath
      ensures found <==> editingId.Some? && Lookup(store.students, editingId.value).Some?
      ensures found && LoadedPhoto(store.students, store.files, store.photosDir, editingId.value).Some? ==>
        photoPath == LoadedPhoto(store.students, store.files, store.photosDir, editingId.value)
      ensures !(found && LoadedPhoto(store.students, store.files, store.photosDir, editingId.value).Some?) ==>
        photoPath == old(photoPath)
    {
      if editingId.None? {
        return false;
      }
      var id := editingId.value;
      var student := Lookup(store.students, id);
      if student.None? {
        return false;
      }
      found := true;
      var stored := student.value.photoPath;
      if Truthy(stored) {
        var name := stored.value;
        if '/' in id && '/' in name {
          name := ReplaceAll(name, id, ReplaceAll(id, "/", "_"));
        }
        var full := Join(store.photosDir, name);
        if full in store.files {
          photoPath := Some(full);
        }
      }
    }

    /** The dialog's `save_student_photo`: copies the source into the photo directory under the safe name. */
    method SaveStudentPhoto(store: Store, id: string, source: string, imageOk: bool, copyOk: bool) returns (name: Option<string>)
      modifies store`files
      ensures name == SavedPhotoName(old(store.files), store.photosDir, id, source, imageOk, copyOk)
      ensures name.Some? ==> store.files == old(store.files) + {Join(store.photosDir, name.value)}
      ensures name.None? ==> store.files == old(store.files)
    {
      if source == "" || source !in store.files {
        return None;
      }
      if !imageOk {
        return None;
      }
      var ext := Extension(source);
      if ext == "" {
        ext := ".jpg";
      }
      var safeId := ReplaceAll(ReplaceAll(ReplaceAll(id, "/", "_"), "\\", "_"), ":", "_");
      var filename := safeId + Lower(ext);
      var dest := Join(store.photosDir, filename);
      if dest == source || !copyOk {
        return None;
      }
      store.files := store.files + {dest};
      return Some(filename);
    }

    /** The photo branch of `save_student`: saves the selected photo when it exists and yields the record's `photo_path` entry. */
    method SavePhotoEntry(store: Store, id: string, imageOk: bool, copyOk: bool) returns (entry: Entry)
      modifies store`files
      ensures entry == PhotoEntry(old(store.files), store.photosDir, id, photoPath, imageOk, copyOk)
      ensures store.files == old(store.files) + (if entry.Text? then {Join(store.photosDir, entry.text)} else {})
    {
      entry := Null;
      if Truthy(photoPath) && photoPath.value in store.files {
        var saved := SaveStudentPhoto(store, id, photoPath.value, imageOk, copyOk);
        if saved.Some? {
          entry := Text(saved.value);
        }
      }
    }

    /**
     * `save_student` after validation: saves the selected photo, builds the
     * record and updates the edited record or adds a new one.
     */
    method Submit(store: Store, form: FormInput, now: Timestamp, imageOk: bool, copyOk: bool) returns (success: bool, entry: Entry)
      requires store.Valid()
      modifies store`files, store`students
      ensures store.Valid()
      ensures entry == PhotoEntry(old(store.files), store.photosDir, Strip(form.studentId), photoPath, imageOk, copyOk)
      ensures store.files == old(store.files) + (if entry.Text? then {Join(store.photosDir, entry.text)} else {})
      ensures success == (Editing() || !Taken(old(store.students), Strip(form.studentId)))
      ensures store.students == Persisted(old(store.students), editingId, FormData(form, entry), now)
    {
      entry := SavePhotoEntry(store, Strip(form.studentId), imageOk, copyOk);
      success := Persist(store, FormData(form, entry), now);
    }

    /** The last step of `save_student`: `update_student` when editing, `add_student` otherwise. */
    method Persist(store: Store, data: StudentData, now: Timestamp) returns (success: bool)
      requires store.Valid()
      modifies store`students
      ensures store.Valid()
      ensures success == (Editing() || !Taken(old(store.students), data.studentId))
      ensures store.students == Persisted(old(store.students), editingId, data, now)
    {
      if Truthy(editingId) {
        success := store.UpdateStudent(editingId.value, data, now);
      } else {
        success := store.AddStudent(data, now);
      }
    }

    /**
     * `save_student`: refuses an invalid form and changes nothing; otherwise
     * submits it and reports the store's answer and whether a photo was saved.
     */
    method SaveStudent(store: Store, form: FormInput, now: Timestamp, imageOk: bool, copyOk: bool) returns (outcome: SaveOutcome)
      requires store.Valid()
      modifies store`files, store`students
      ensures store.Valid()
      ensures Validate(form, Editing()).Rejected? ==>
        && outcome == Invalid(Validate(form, Editing()).problem)
        && store.students == old(store.students) && store.files == old(store.files)
      ensures Validate(form, Editing()).Accepted? ==>
        var entry := PhotoEntry(old(store.files), store.photosDir, Strip(form.studentId), photoPath, imageOk, copyOk);
        && store.files == old(store.files) + (if entry.Text? then {Join(store.photosDir, entry.text)} else {})
        && outcome == Done(Editing() || !Taken(old(store.students), Strip(form.studentId)), entry.Text?)
        && store.students == Persisted(old(store.students), editingId, FormData(form, entry), now)
    {
      var v := ValidateForm(form, Editing());
      if v.Rejected? {
        return Invalid(v.problem);
      }
      var success, entry := Submit(store, form, now, imageOk, copyOk);
      return Done(success, entry.Text?);
    }
  }
}
