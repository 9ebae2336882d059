/**
 * `AdminDashboard` and its background `IDGenerationThread`: the student
 * table and its search, the action buttons of a row, the statistics cards,
 * the colour helper, and batch card generation with cancellation.
 */
module Dashboard {
  import opened Wrappers
  import opened Text
  import opened Lists
  import opened Schema
  import opened Database
  import opened Gallery

  /** One entry of the thread's `results` list. */
  datatype GenerationResult = GenerationResult(studentId: string, success: bool, message: string, filePath: Option<string>)

  /** The entry the thread records for one id: the generator's reply, with success meaning a path was returned. */
  function ResultFor(gen: string -> CardOutcome): string -> GenerationResult {
    (id: string) => GenerationResult(id, gen(id).outputPath.Some?, gen(id).message, gen(id).outputPath)
  }

  /**
   * The thread's test (`is not None`) is weaker than the dashboard's and the
   * gallery's (`if output_path:`): an empty path counts as a success in the
   * thread only.
   */
  lemma ThreadSuccessWeakerThanProduced(gen: string -> CardOutcome, id: string)
    ensures Produced(gen(id)) ==> ResultFor(gen)(id).success
    ensures gen(id).outputPath == Some("") ==> ResultFor(gen)(id).success && !Produced(gen(id))
  {
  }

  class GenerationThread {
    const studentIds: seq<string>
    const batchMode: bool

    constructor (studentIds: seq<string>, batchMode: bool)
      ensures this.studentIds == studentIds && this.batchMode == batchMode
    {
      this.studentIds := studentIds;
      this.batchMode := batchMode;
    }

    /**
     * `run`: one result per id, in the ids' order, each carrying the id, the
     * generator's message and path, and success exactly when a path came back.
     */
    method Run(gen: string -> CardOutcome) returns (results: seq<GenerationResult>)
      ensures |results| == |studentIds|
      ensures forall i :: 0 <= i < |results| ==>
        && results[i].studentId == studentIds[i]
        && results[i].success == gen(studentIds[i]).outputPath.Some?
        && results[i].message == gen(studentIds[i]).message
        && results[i].filePath == gen(studentIds[i]).outputPath
      ensures MapSeq(results, (r: GenerationResult) => r.studentId) == studentIds
    {
      results := [];
      for i := 0 to |studentIds|
        invariant results == MapSeq(studentIds[..i], ResultFor(gen))
      {
        results := results + [ResultFor(gen)(studentIds[i])];
      }
      assert studentIds[..|studentIds|] == studentIds;
    }
  }

  /** The search's `search_text in field.lower()` on a field that may be NULL: None when `None.lower()` would raise. */
  function FieldHit(field: Option<string>, q: string): Option<bool> {
    if field.None? then None else Some(Contains(Lower(field.value), q))
  }

  /**
   * Whether one student passes the search for the lower-cased text `q`,
   * evaluating the four tests left to right as `or` does: None when a NULL
   * program or email is reached.
   */
  function SearchHit(s: Student, q: string): (r: Option<bool>)
    ensures r.None? <==>
      !Contains(Lower(s.studentId), q) && !Contains(Lower(s.fullName), q) &&
      (s.program.None? || (!Contains(Lower(s.program.value), q) && s.email.None?))
  {
    if Contains(Lower(s.studentId), q) || Contains(Lower(s.fullName), q) then Some(true)
    else match FieldHit(s.program, q)
      case None => None
      case Some(true) => Some(true)
      case Some(false) => FieldHit(s.email, q)
  }

  /** The intended search condition, with a missing program or email read as `''`. */
  function Matches(q: string): Student -> bool {
    (s: Student) =>
      Contains(Lower(s.studentId), q) || Contains(Lower(s.fullName), q) ||
      Contains(Lower(OrEmpty(s.program)), q) || Contains(Lower(OrEmpty(s.email)), q)
  }

  /** A verdict the search reaches is the intended one, and it is always reached when program and email are present. */
  lemma SearchHitAgrees(s: Student, q: string)
    ensures SearchHit(s, q).Some? ==> SearchHit(s, q).value == Matches(q)(s)
    ensures s.program.Some? && s.email.Some? ==> SearchHit(s, q).Some?
  {
  }

  /**
   * The comprehension of `search_students`: the students passing the search,
   * in their order, or None when the test raises for some student.
   */
  function SearchFilter(students: seq<Student>, q: string): (r: Option<seq<Student>>)
    ensures r.None? <==> exists i :: 0 <= i < |students| && SearchHit(students[i], q).None?
    ensures r.Some? ==> r.value == Filter(students, Matches(q))
  {
    if students == [] then Some([])
    else
      var s := students[0];
      SearchHitAgrees(s, q);
      match SearchHit(s, q)
      case None => None
      case Some(hit) =>
        match SearchFilter(students[1..], q)
        case None =>
          var i :| 0 <= i < |students[1..]| && SearchHit(students[1..][i], q).None?;
          assert SearchHit(students[i + 1], q).None?;
          None
        case Some(rest) =>
          assert forall i :: 1 <= i < |students| ==> students[i] == students[1..][i - 1];
          Some((if hit then [s] else []) + rest)
  }

  /** On rows with program and email present (every row the store writes) the search never raises and returns the intended matches. */
  lemma SearchNeverRaisesOnStoredRows(students: seq<Student>, q: string)
    requires forall i :: 0 <= i < |students| ==> students[i].program.Some? && students[i].email.Some?
    ensures SearchFilter(students, q) == Some(Filter(students, Matches(q)))
  {
    forall i | 0 <= i < |students| ensures SearchHit(students[i], q).Some? {
      SearchHitAgrees(students[i], q);
    }
  }

  /** The search is case-insensitive: a student whose id or name contains the typed text, in any case, is found. */
  lemma SearchFindsExactMatches(s: Student, text: string)
    requires Contains(s.studentId, text) || Contains(s.fullName, text)
    ensures Matches(Lower(text))(s) && SearchHit(s, Lower(text)) == Some(true)
  {
    if Contains(s.studentId, text) {
      ContainsLower(s.studentId, text);
    } else {
      ContainsLower(s.fullName, text);
    }
  }

  /** A row's action buttons, in layout order. */
  datatype ActionButton = ViewCard | GenerateCard | ViewDetails | DeleteRow

  /**
   * `create_action_buttons`: the view-card button first, only for a student
   * whose flag is truthy, then the generate, details and delete buttons.
   */
  function ActionButtons(s: Student): (r: seq<ActionButton>)
    ensures ViewCard in r <==> CardGenerated(s)
    ensures |r| >= 3 && r[|r| - 3..] == [GenerateCard, ViewDetails, DeleteRow]
    ensures forall i :: 0 <= i < |r| - 3 ==> r[i] == ViewCard
  {
    (if CardGenerated(s) then [ViewCard] else []) + [GenerateCard, ViewDetails, DeleteRow]
  }

  /** The "ID Generated" column of the student table. */
  function StatusText(s: Student): string {
    if CardGenerated(s) then "Yes" else "No"
  }

  /** A row offers the view-card button exactly when its status column says "Yes". */
  lemma ViewButtonMatchesStatus(s: Student)
    ensures ViewCard in ActionButtons(s) <==> StatusText(s) == "Yes"
  {
  }

  /** One statistics card: title, value and colour. */
  datatype StatCard = StatCard(title: string, value: nat, color: string)

  /** The cards `update_stats_cards` shows for `total` students. */
  function StatsCards(total: nat): (r: seq<StatCard>)
    ensures |r| == 3
    ensures r[0].title == "Total Students" && r[0].value == total
    ensures r[1].title == "ID Cards Generated" && r[1].value == total
    ensures r[2].title == "Pending Generation" && r[2].value == 0
  {
    [ StatCard("Total Students", total, "#3498db"),
      StatCard("ID Cards Generated", total, "#27ae60"),
      StatCard("Pending Generation", 0, "#e67e22") ]
  }

  function HasCard(): Student -> bool {
    (s: Student) => CardGenerated(s)
  }

  /**
   * The statistics ignore the card flags: "ID Cards Generated" is the student
   * count and "Pending Generation" is 0, so with any student lacking a card
   * the first overstates and the second understates the true figures.
   */
  lemma StatsCardsIgnoreFlags(rows: seq<Student>, i: int)
    requires 0 <= i < |rows| && !CardGenerated(rows[i])
    ensures StatsCards(StudentCount(rows))[1].value > |Filter(rows, HasCard())|
    ensures StatsCards(StudentCount(rows))[2].value == 0 < |MissingIds(rows)|
  {
    FilterPartition(rows, HasCard(), Lacking());
    assert rows[i] in MissingIds(rows);
  }

  /** `darken_color`: the four palette colours map to their darker shade; every other colour is returned as given. */
  function DarkenColor(color: string): (r: string)
    ensures color == "#3498db" ==> r == "#2980b9"
    ensures color == "#27ae60" ==> r == "#219a52"
    ensures color == "#e67e22" ==> r == "#d35400"
    ensures color == "#9b59b6" ==> r == "#8e44ad"
    ensures color !in {"#3498db", "#27ae60", "#e67e22", "#9b59b6"} ==> r == color
  {
    var darker := map["#3498db" := "#2980b9", "#27ae60" := "#219a52", "#e67e22" := "#d35400", "#9b59b6" := "#8e44ad"];
    if color in darker then darker[color] else color
  }

  /** No darker shade is itself a palette colour, so darkening twice is darkening once. */
  lemma DarkenColorIdempotent(color: string)
    ensures DarkenColor(DarkenColor(color)) == DarkenColor(color)
  {
  }

  /** What `search_students` did: reloaded the table, showed the matches, or raised on a NULL field. */
  datatype SearchOutcome = Reloaded | Shown(count: nat) | Raised

  /** The ids `generate_all_ids` walks through: every student's, once each, in ascending order. */
  function BatchIds(rows: seq<Student>): (ids: seq<string>)
    ensures |ids| == |rows|
    ensures multiset(ids) == multiset(MapSeq(rows, IdOf))
    ensures forall i, j :: 0 <= i < j < |ids| ==> LexLeq(ids[i], ids[j])
  {
    var listed := AllStudents(rows);
    MapSeqPermutation(listed, rows, IdOf);
    MapSeq(listed, IdOf)
  }

  /** The number of ids processed before the first cancellation check answering yes (`cancelled(i)` is the check made before the i-th id). */
  function CancelPoint(ids: seq<string>, cancelled: nat -> bool, from: nat := 0): (n: nat)
    requires from <= |ids|
    ensures from <= n <= |ids|
    ensures forall i :: from <= i < n ==> !cancelled(i)
    ensures n < |ids| ==> cancelled(n)
    decreases |ids| - from
  {
    if from == |ids| || cancelled(from) then from else CancelPoint(ids, cancelled, from + 1)
  }

  /**
   * The loop of `generate_all_ids`: hands the ids to the generator in order,
   * stopping at the first cancellation, and counts the cards with a path.
   */
  method RunBatch(ids: seq<string>, gen: string -> CardOutcome, cancelled: nat -> bool) returns (successCount: nat, processed: nat)
    ensures processed == CancelPoint(ids, cancelled)
    ensures successCount == |Filter(ids[..processed], Succeeds(gen))| && successCount <= processed <= |ids|
  {
    successCount := 0;
    var i := 0;
    while i < |ids|
      invariant 0 <= i <= |ids| && CancelPoint(ids, cancelled) == CancelPoint(ids, cancelled, i)
      invariant successCount == |Filter(ids[..i], Succeeds(gen))|
    {
      if cancelled(i) {
        break;
      }
      FilterConcat(ids[..i], [ids[i]], Succeeds(gen));
      assert ids[..i + 1] == ids[..i] + [ids[i]];
      if Produced(gen(ids[i])) {
        successCount := successCount + 1;
      }
      i := i + 1;
    }
    processed := i;
  }

  /** What `generate_all_ids` did. */
  datatype BatchRun = NoStudents | BatchDeclined(total: nat) | BatchDone(successCount: nat, processed: nat, total: nat)

  class AdminDashboard {
    /** `current_students`, the rows last loaded. */
    var currentStudents: seq<Student>
    /** The rows the student table shows, top to bottom. */
    var tableRows: seq<Student>
    /** The statistics cards, left to right. */
    var statsCards: seq<StatCard>
    /** The tab widget's current index (1 is the students tab). */
    var currentTab: int

    constructor ()
      ensures currentStudents == [] && tableRows == [] && statsCards == [] && currentTab == 0
    {
      currentStudents := [];
      tableRows := [];
      statsCards := [];
      currentTab := 0;
    }

    /** `load_students_data`: reloads every student in id order and shows them all. */
    method LoadStudentsData(store: Store)
      modifies this`currentStudents, this`tableRows
      ensures currentStudents == AllStudents(store.students) && tableRows == currentStudents
    {
      currentStudents := AllStudents(store.students);
      tableRows := currentStudents;
    }

    /**
     * `search_students`: an empty text reloads the table unfiltered; otherwise
     * the table shows the loaded students matching the lower-cased text, in
     * their order, or keeps its rows when the test raises.
     */
    method SearchStudents(store: Store, text: string) returns (outcome: SearchOutcome)
      modifies this`currentStudents, this`tableRows
      ensures text == "" ==> outcome == Reloaded && currentStudents == AllStudents(store.students) && tableRows == currentStudents
      ensures text != "" ==> currentStudents == old(currentStudents)
      ensures text != "" ==> match SearchFilter(old(currentStudents), Lower(text))
        case None => outcome == Raised && tableRows == old(tableRows)
        case Some(found) => outcome == Shown(|found|) && tableRows == found
    {
      var q := Lower(text);
      if q == "" {
        LoadStudentsData(store);
        return Reloaded;
      }
      var found := SearchFilter(currentStudents, q);
      if found.None? {
        return Raised;
      }
      tableRows := found.value;
      return Shown(|found.value|);
    }

    /** `show_dashboard`: switches to the overview tab and refreshes. */
    method ShowDashboard(store: Store)
      modifies this`currentTab, this`statsCards, this`currentStudents, this`tableRows
      ensures currentTab == 0 && statsCards == StatsCards(StudentCount(store.students))
      ensures currentStudents == old(currentStudents) && tableRows == old(tableRows)
    {
      currentTab := 0;
      RefreshDashboard(store);
    }

    /** `show_students`: switches to the students tab and reloads the table. */
    method ShowStudents(store: Store)
      modifies this`currentTab, this`currentStudents, this`tableRows
      ensures currentTab == 1 && currentStudents == AllStudents(store.students) && tableRows == currentStudents
    {
      currentTab := 1;
      LoadStudentsData(store);
    }

    /** `update_stats_cards`. */
    method UpdateStatsCards(store: Store)
      modifies this`statsCards
      ensures statsCards == StatsCards(StudentCount(store.students))
    {
      statsCards := StatsCards(StudentCount(store.students));
    }

    /** `refresh_dashboard`: the statistics, and the table when the students tab is showing. */
    method RefreshDashboard(store: Store)
      modifies this`statsCards, this`currentStudents, this`tableRows
      ensures statsCards == StatsCards(StudentCount(store.students))
      ensures currentTab == 1 ==> currentStudents == AllStudents(store.students) && tableRows == currentStudents
      ensures currentTab != 1 ==> currentStudents == old(currentStudents) && tableRows == old(tableRows)
    {
      UpdateStatsCards(store);
      if currentTab == 1 {
        LoadStudentsData(store);
      }
    }

    /**
     * `generate_all_ids`: with no students nothing is generated; otherwise, if
     * the user confirms, the ids run through the batch loop and the dashboard
     * is refreshed. `requested` lists the ids handed to the generator.
     */
    method GenerateAllIds(store: Store, confirmed: bool, gen: string -> CardOutcome, cancelled: nat -> bool)
      returns (outcome: BatchRun, requested: seq<string>)
      modifies this`statsCards, this`currentStudents, this`tableRows
      ensures var ids := BatchIds(store.students);
        && (ids == [] ==> outcome == NoStudents && requested == [])
        && (ids != [] && !confirmed ==> outcome == BatchDeclined(|ids|) && requested == [])
        && (ids != [] && confirmed ==>
              && outcome.BatchDone? && outcome.total == |ids|
              && outcome.processed == CancelPoint(ids, cancelled)
              && requested == ids[..outcome.processed]
              && outcome.successCount == |Filter(requested, Succeeds(gen))|)
      ensures outcome.BatchDone? ==> outcome.successCount <= outcome.processed <= outcome.total
      ensures outcome.BatchDone? ==> statsCards == StatsCards(StudentCount(store.students))
      ensures outcome.BatchDone? && currentTab == 1 ==> currentStudents == AllStudents(store.students) && tableRows == currentStudents
      ensures outcome.BatchDone? && currentTab != 1 ==> currentStudents == old(currentStudents) && tableRows == old(tableRows)
      ensures !outcome.BatchDone? ==> statsCards == old(statsCards)
      ensures !outcome.BatchDone? ==> currentStudents == old(currentStudents) && tableRows == old(tableRows)
    {
      var ids := BatchIds(store.students);
      if ids == [] {
        return NoStudents, [];
      }
      if !confirmed {
        return BatchDeclined(|ids|), [];
      }
      var successCount, processed := RunBatch(ids, gen, cancelled);
      outcome := BatchDone(successCount, processed, |ids|);
      requested := ids[..processed];
      RefreshDashboard(store);
    }
  }
}
