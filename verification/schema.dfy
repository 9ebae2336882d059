/**
 * The rows of the two database tables (`users`, `students`), the dictionary
 * the registration form hands to the store, and the card generator's reply.
 */
module Schema {
  import opened Wrappers

  /** A `CURRENT_TIMESTAMP` value; the model never looks inside it. */
  type Timestamp = nat

  /** A row of `users`. `isActive` is the BOOLEAN column as SQLite stores it, an integer. */
  datatype User = User(
    username: string,
    passwordHash: string,
    userType: string,
    fullName: string,
    isActive: int,
    dateCreated: Timestamp)

  /**
   * The `users` table as a query sees it: its rows in rowid order, and whether
   * the `is_active` column exists yet (a query naming a missing column fails
   * with `OperationalError`).
   */
  datatype UsersTable = UsersTable(rows: seq<User>, hasIsActiveColumn: bool)

  /**
   * A row of `students`. Nullable TEXT columns are `Option<string>` (None is
   * NULL); `idCardGenerated` is the BOOLEAN column, 0 or 1 as written by the store.
   */
  datatype Student = Student(
    studentId: string,
    fullName: string,
    department: string,
    program: Option<string>,
    email: Option<string>,
    phone: Option<string>,
    dateOfBirth: Option<string>,
    gender: Option<string>,
    enrollmentDate: Option<string>,
    graduationDate: Option<string>,
    photoPath: Option<string>,
    idCardGenerated: int,
    idCardPath: Option<string>,
    idCardGeneratedDate: Option<Timestamp>,
    qrCodeData: Option<string>,
    dateCreated: Timestamp,
    lastUpdated: Timestamp)

  /** A dictionary entry read with `.get(key, '')`: the key is absent, holds None, or holds a string. */
  datatype Entry = Absent | Null | Text(text: string)

  /**
   * The `student_data` dictionary given to `add_student` and `update_student`.
   * The three required keys always hold strings; for the optional ones None
   * means the key is absent.
   */
  datatype StudentData = StudentData(
    studentId: string,
    fullName: string,
    department: string,
    program: Option<string>,
    email: Option<string>,
    phone: Option<string>,
    dateOfBirth: Option<string>,
    gender: Option<string>,
    enrollmentDate: Option<string>,
    graduationDate: Option<string>,
    photoPath: Entry)

  /** Python truthiness of a nullable string: neither None nor empty. */
  predicate Truthy(v: Option<string>) {
    v.Some? && v.value != ""
  }

  /** Python truthiness of the `id_card_generated` flag. */
  predicate CardGenerated(s: Student) {
    s.idCardGenerated != 0
  }

  /** What `generate_student_id_card(student_id)` returns: the card file written, or None, and a message. */
  datatype CardOutcome = CardOutcome(outputPath: Option<string>, message: string)

  /** The callers' `if output_path:` test: a card path that is neither None nor empty. */
  predicate Produced(o: CardOutcome) {
    Truthy(o.outputPath)
  }
}
