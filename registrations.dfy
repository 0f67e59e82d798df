/**
 * The registration ledger: `RegistrationRepository`'s queries and its
 * course report, and `RegistrationController`: `createRegistration` and `report`.
 */
module Registrations {
  import opened Wrappers
  import opened Constraints
  import opened Clock
  import opened Sequences
  import opened Util
  import opened Courses
  import CourseStore

  /** A user as the ledger sees one: the id and the e-mail it is looked up by. */
  datatype User = User(id: nat, email: Text)

  /** A registration: the user's id, the course's id and the moment it was made. */
  datatype Registration = Registration(id: Option<nat>, userId: nat, courseId: nat, registrationDate: Time)

  /** The request body of `createRegistration`. */
  datatype NewRegistrationDTO = NewRegistrationDTO(courseCode: Text, studentEmail: Text)
  {
    /** The fields that fail `@NotBlank`. */
    function Violations(): (r: set<string>)
      ensures r <= {"courseCode", "studentEmail"}
      ensures r == {} <==> NotBlank(courseCode) && NotBlank(studentEmail)
    {
      (if NotBlank(courseCode) then {} else {"courseCode"})
      + (if NotBlank(studentEmail) then {} else {"studentEmail"})
    }
  }

  // ---- Queries ----

  /** `findByEmail` on the user table. */
  function FindUserByEmail(users: seq<User>, email: string): (r: Option<User>)
    ensures r.Some? ==> r.value in users && r.value.email == Some(email)
    ensures r.None? <==> forall i :: 0 <= i < |users| ==> users[i].email != Some(email)
  {
    FindFirst(users, (u: User) => u.email == Some(email))
  }

  /** `existsByUserAndCourse`: the `user` and `course` associations compare by id. */
  predicate ExistsByUserAndCourse(rows: seq<Registration>, userId: nat, courseId: nat)
  {
    exists i :: 0 <= i < |rows| && rows[i].userId == userId && rows[i].courseId == courseId
  }

  /** The registration's course is stored and ACTIVE. */
  predicate OnActiveCourse(courses: seq<CourseDTO>, courseId: nat)
  {
    exists i :: 0 <= i < |courses| && courses[i].id == Some(courseId) && IsActiveCourse(courses[i])
  }

  /** `findAllActiveRegistrations`: `r.course.status = 'ACTIVE'`. */
  function FindAllActiveRegistrations(rows: seq<Registration>, courses: seq<CourseDTO>): seq<Registration>
  {
    Filter(rows, (r: Registration) => OnActiveCourse(courses, r.courseId))
  }

  /** `findByUserEmail`: `r.user.email = :email`. */
  function FindByUserEmail(rows: seq<Registration>, users: seq<User>, email: string): seq<Registration>
  {
    Filter(rows, (r: Registration) => exists i :: 0 <= i < |users| && users[i].id == r.userId && users[i].email == Some(email))
  }

  /** `findByCourseCode`: `r.course.code = :courseCode`. */
  function FindByCourseCode(rows: seq<Registration>, courses: seq<CourseDTO>, code: string): seq<Registration>
  {
    Filter(rows, (r: Registration) => exists i :: 0 <= i < |courses| && courses[i].id == Some(r.courseId) && courses[i].code == Some(code))
  }

  /** The three filters keep exactly the registrations whose joined user or course matches. */
  lemma FiltersSpec(rows: seq<Registration>, users: seq<User>, courses: seq<CourseDTO>, email: string, code: string)
    ensures forall r :: r in FindAllActiveRegistrations(rows, courses) <==> r in rows && OnActiveCourse(courses, r.courseId)
    ensures forall r :: r in FindByUserEmail(rows, users, email) <==>
              r in rows && exists i :: 0 <= i < |users| && users[i].id == r.userId && users[i].email == Some(email)
    ensures forall r :: r in FindByCourseCode(rows, courses, code) <==>
              r in rows && exists i :: 0 <= i < |courses| && courses[i].id == Some(r.courseId) && courses[i].code == Some(code)
  {
  }

  /**
   * With unique course codes, `findByCourseCode` is the list of registrations on
   * the course `findByCode` finds, and empty when there is none.
   */
  lemma FindByCourseCodeIsFindByCode(rows: seq<Registration>, courses: seq<CourseDTO>, code: string)
    requires CourseStore.CodesDistinct(courses)
    ensures CourseStore.FindByCode(courses, code).None? ==> FindByCourseCode(rows, courses, code) == []
    ensures CourseStore.FindByCode(courses, code).Some? ==>
              FindByCourseCode(rows, courses, code)
              == Filter(rows, (r: Registration) => CourseStore.FindByCode(courses, code).value.id == Some(r.courseId))
  {
    var p := (r: Registration) => exists i :: 0 <= i < |courses| && courses[i].id == Some(r.courseId) && courses[i].code == Some(code);
    CourseStore.ExistsIffFound(courses, code);
    var found := CourseStore.FindByCode(courses, code);
    if found.None? {
      FilterNone(rows, p);
    } else {
      var k :| 0 <= k < |courses| && courses[k] == found.value;
      CourseStore.FindByCodeAt(courses, k);
      FilterSame(rows, p, (r: Registration) => found.value.id == Some(r.courseId));
    }
  }

  // ---- The course report ----

  /** A row of `findCourseRegistrationReport`: name, code, instructor twice, and the count. */
  datatype ReportRow = ReportRow(
    courseName: Text, courseCode: Text, instructorName: Text, instructorEmail: Text, totalRegistrations: nat)

  function OnCourse(id: nat): Registration -> bool
  {
    (r: Registration) => r.courseId == id
  }

  /** `COUNT(r.id)` for the course with that id. */
  function CountFor(rows: seq<Registration>, id: nat): nat
  {
    |Filter(rows, OnCourse(id))|
  }

  /** The course shows up in the report: ACTIVE and joined to at least one registration. */
  function Reported(rows: seq<Registration>): CourseDTO -> bool
  {
    (c: CourseDTO) => IsActiveCourse(c) && c.id.Some? && CountFor(rows, c.id.value) > 0
  }

  /** The report row of one course. */
  function RowOf(c: CourseDTO, rows: seq<Registration>): ReportRow
    requires c.id.Some?
  {
    ReportRow(c.name, c.code, c.instructor, c.instructor, CountFor(rows, c.id.value))
  }

  /** `GROUP BY c.id` over the inner join, restricted to ACTIVE courses, in table order. */
  function Groups(courses: seq<CourseDTO>, rows: seq<Registration>): (r: seq<ReportRow>)
    ensures |r| == |Filter(courses, Reported(rows))|
  {
    if courses == [] then []
    else (if Reported(rows)(courses[0]) then [RowOf(courses[0], rows)] else []) + Groups(courses[1..], rows)
  }

  /** `ORDER BY totalRegistrations DESC`. */
  function MostRegistered(row: ReportRow): int { 0 - row.totalRegistrations }

  /** `findCourseRegistrationReport`. Rows with equal totals keep table order. */
  function CourseRegistrationReport(courses: seq<CourseDTO>, rows: seq<Registration>): seq<ReportRow>
  {
    SortBy(Groups(courses, rows), MostRegistered)
  }

  lemma {:induction false} GroupsMembers(courses: seq<CourseDTO>, rows: seq<Registration>)
    ensures forall row :: row in Groups(courses, rows) <==>
              exists c :: c in courses && Reported(rows)(c) && row == RowOf(c, rows)
  {
    if courses != [] {
      GroupsMembers(courses[1..], rows);
      assert courses == [courses[0]] + courses[1..];
      forall c | c in courses
        ensures c == courses[0] || c in courses[1..]
      {
      }
    }
  }

  /** Sum of the totals over the groups: the registrations on the ACTIVE courses of the table. */
  lemma {:induction false} GroupsSum(courses: seq<CourseDTO>, rows: seq<Registration>)
    requires CourseStore.IdsDistinct(courses)
    ensures SumBy(Groups(courses, rows), (row: ReportRow) => row.totalRegistrations as int)
            == |FindAllActiveRegistrations(rows, courses)|
  {
    var w := (row: ReportRow) => row.totalRegistrations as int;
    var all := (r: Registration) => OnActiveCourse(courses, r.courseId);
    if courses == [] {
      FilterNone(rows, all);
    } else {
      var c := courses[0];
      var rest := courses[1..];
      assert CourseStore.IdsDistinct(rest) by {
        forall i, j | 0 <= i < j < |rest|
          ensures rest[i].id != rest[j].id
        {
          assert rest[i] == courses[i + 1] && rest[j] == courses[j + 1];
        }
      }
      GroupsSum(rest, rows);
      var here := (r: Registration) => IsActiveCourse(c) && c.id == Some(r.courseId);
      var later := (r: Registration) => OnActiveCourse(rest, r.courseId);
      forall r: Registration
        ensures all(r) <==> here(r) || later(r)
        ensures !(here(r) && later(r))
      {
        if all(r) {
          var i :| 0 <= i < |courses| && courses[i].id == Some(r.courseId) && IsActiveCourse(courses[i]);
          if i > 0 {
            assert rest[i - 1] == courses[i];
          }
        }
        if later(r) {
          var i :| 0 <= i < |rest| && rest[i].id == Some(r.courseId) && IsActiveCourse(rest[i]);
          assert courses[i + 1] == rest[i];
          assert courses[0].id != courses[i + 1].id;
        }
      }
      FilterCountUnion(rows, here, later, all);
      var g := Groups(courses, rows);
      var head := if Reported(rows)(c) then [RowOf(c, rows)] else [];
      SumByAppend(head, Groups(rest, rows), w);
      if Reported(rows)(c) {
        FilterSame(rows, here, OnCourse(c.id.value));
      } else if IsActiveCourse(c) && c.id.Some? {
        FilterSame(rows, here, OnCourse(c.id.value));
      } else {
        FilterNone(rows, here);
      }
    }
  }

  /**
   * The report has one row for each ACTIVE course with at least one
   * registration, and no others. Each row's total is that course's number of
   * registrations, and its instructor e-mail is its instructor name. Totals never
   * increase down the report, and together they count every registration on an
   * ACTIVE course.
   */
  lemma CourseRegistrationReportSpec(courses: seq<CourseDTO>, rows: seq<Registration>)
    ensures var report := CourseRegistrationReport(courses, rows);
      && (forall row :: row in report <==> exists c :: c in courses && Reported(rows)(c) && row == RowOf(c, rows))
      && |report| == |Filter(courses, Reported(rows))|
      && (forall row :: row in report ==> row.totalRegistrations > 0 && row.instructorEmail == row.instructorName)
      && (forall i, j :: 0 <= i < j < |report| ==> report[i].totalRegistrations >= report[j].totalRegistrations)
    ensures CourseStore.IdsDistinct(courses) ==>
              SumBy(CourseRegistrationReport(courses, rows), (row: ReportRow) => row.totalRegistrations as int)
              == |FindAllActiveRegistrations(rows, courses)|
  {
    var g := Groups(courses, rows);
    var report := SortBy(g, MostRegistered);
    GroupsMembers(courses, rows);
    SortByMembers(g, MostRegistered);
    SortByPermutes(g, MostRegistered);
    SortBySorted(g, MostRegistered);
    forall i, j | 0 <= i < j < |report|
      ensures report[i].totalRegistrations >= report[j].totalRegistrations
    {
      assert MostRegistered(report[i]) <= MostRegistered(report[j]);
    }
    if CourseStore.IdsDistinct(courses) {
      GroupsSum(courses, rows);
      SumBySort(g, MostRegistered, (row: ReportRow) => row.totalRegistrations as int);
    }
  }

  /** `RegistrationReportItem`. */
  datatype RegistrationReportItem = RegistrationReportItem(
    courseName: Text, courseCode: Text, instructorName: Text, instructorEmail: Text, totalRegistrations: int)

  /** `report`: each repository row, in order, becomes one item holding its five positions. */
  function ReportItems(rows: seq<ReportRow>): (r: seq<RegistrationReportItem>)
    ensures |r| == |rows|
    ensures forall i :: 0 <= i < |rows| ==>
              r[i] == RegistrationReportItem(rows[i].courseName, rows[i].courseCode, rows[i].instructorName,
                                             rows[i].instructorEmail, rows[i].totalRegistrations)
  {
    seq(|rows|, i requires 0 <= i < |rows| =>
      RegistrationReportItem(rows[i].courseName, rows[i].courseCode, rows[i].instructorName,
                             rows[i].instructorEmail, rows[i].totalRegistrations))
  }

  /** The items keep the report's order by total and its row count; an empty report gives no items. */
  lemma ReportItemsSpec(courses: seq<CourseDTO>, rows: seq<Registration>)
    ensures var items := ReportItems(CourseRegistrationReport(courses, rows));
      && |items| == |Filter(courses, Reported(rows))|
      && (forall i, j :: 0 <= i < j < |items| ==> items[i].totalRegistrations >= items[j].totalRegistrations)
      && (forall i :: 0 <= i < |items| ==> items[i].instructorEmail == items[i].instructorName)
      && (rows == [] ==> items == [])
  {
    CourseRegistrationReportSpec(courses, rows);
    var report := CourseRegistrationReport(courses, rows);
    forall i | 0 <= i < |report|
      ensures report[i].instructorEmail == report[i].instructorName
    {
      assert report[i] in report;
    }
    if rows == [] {
      forall c | c in courses
        ensures !Reported(rows)(c)
      {
      }
      FilterNone(courses, Reported(rows));
    }
  }

  // ---- Creating a registration ----

  const UserNotFoundPrefix := "Usuário não encontrado com o email: "
  const CourseNotFoundPrefix := "Curso não encontrado: "
  const InactiveCoursePrefix := "Não pode se registrar no curso inativo: "
  const AlreadyRegistered := "O usuário já está registrado nesse curso"

  /** Every stored course has its generated id. */
  predicate CourseIdsPresent(courses: seq<CourseDTO>)
  {
    forall i :: 0 <= i < |courses| ==> courses[i].id.Some?
  }

  /**
   * `createRegistration`: the response and the new ledger. Validation, the user,
   * the course, its status and the pair are checked in that order; the first
   * check that fails decides the response.
   */
  function RegistrationOutcome(rows: seq<Registration>, nextId: nat, users: seq<User>, courses: seq<CourseDTO>,
                               dto: NewRegistrationDTO, now: Time): (Response, seq<Registration>)
    requires CourseIdsPresent(courses)
  {
    if dto.Violations() != {} then (BadRequest(InvalidFields(dto.Violations())), rows)
    else
      match FindUserByEmail(users, dto.studentEmail.value)
      case None => (NotFound(Message(UserNotFoundPrefix + dto.studentEmail.value)), rows)
      case Some(user) =>
        match CourseStore.FindByCode(courses, dto.courseCode.value)
        case None => (NotFound(Message(CourseNotFoundPrefix + dto.courseCode.value)), rows)
        case Some(course) =>
          if course.status != Active then (BadRequest(Message(InactiveCoursePrefix + course.code.value)), rows)
          else if ExistsByUserAndCourse(rows, user.id, course.id.value) then (Conflict(Message(AlreadyRegistered)), rows)
          else (Created, rows + [Registration(Some(nextId), user.id, course.id.value, now)])
  }

  /** A successful outcome appends exactly one registration and every other outcome leaves the ledger unchanged. */
  lemma OutcomeChangesLedgerOnlyOnCreated(rows: seq<Registration>, nextId: nat, users: seq<User>,
                                          courses: seq<CourseDTO>, dto: NewRegistrationDTO, now: Time)
    requires CourseIdsPresent(courses)
    ensures var (r, after) := RegistrationOutcome(rows, nextId, users, courses, dto, now);
      && (r != Created ==> after == rows)
      && (r == Created ==> |after| == |rows| + 1 && after[..|rows|] == rows
                           && after[|rows|].id == Some(nextId) && after[|rows|].registrationDate == now)
  {
    var (r, after) := RegistrationOutcome(rows, nextId, users, courses, dto, now);
    if r == Created {
      assert after[..|rows|] == rows;
    }
  }

  /**
   * The precedence of the checks: an invalid body, an unknown user, an unknown
   * course, an inactive course and a registered pair give 400, 404, 404, 400 and
   * 409, each only when every earlier check passed. When the user is unknown the
   * course table plays no part in the response.
   */
  lemma OutcomePrecedence(rows: seq<Registration>, nextId: nat, users: seq<User>, courses: seq<CourseDTO>,
                          other: seq<CourseDTO>, dto: NewRegistrationDTO, now: Time)
    requires CourseIdsPresent(courses) && CourseIdsPresent(other)
    ensures var r := RegistrationOutcome(rows, nextId, users, courses, dto, now).0;
      && (dto.Violations() != {} ==> r == BadRequest(InvalidFields(dto.Violations())))
      && (dto.Violations() == {} && FindUserByEmail(users, dto.studentEmail.value).None? ==>
            r == NotFound(Message(UserNotFoundPrefix + dto.studentEmail.value))
            && RegistrationOutcome(rows, nextId, users, other, dto, now) == RegistrationOutcome(rows, nextId, users, courses, dto, now))
      && (dto.Violations() == {} && FindUserByEmail(users, dto.studentEmail.value).Some?
          && !CourseStore.ExistsByCode(courses, dto.courseCode.value) ==>
            r == NotFound(Message(CourseNotFoundPrefix + dto.courseCode.value)))
      && (dto.Violations() == {} && FindUserByEmail(users, dto.studentEmail.value).Some?
          && CourseStore.FindByCode(courses, dto.courseCode.value).Some?
          && !IsActiveCourse(CourseStore.FindByCode(courses, dto.courseCode.value).value) ==>
            r == BadRequest(Message(InactiveCoursePrefix + dto.courseCode.value)))
      && (r == Conflict(Message(AlreadyRegistered)) <==>
            dto.Violations() == {} && FindUserByEmail(users, dto.studentEmail.value).Some?
            && CourseStore.FindByCode(courses, dto.courseCode.value).Some?
            && IsActiveCourse(CourseStore.FindByCode(courses, dto.courseCode.value).value)
            && ExistsByUserAndCourse(rows, FindUserByEmail(users, dto.studentEmail.value).value.id,
                                     CourseStore.FindByCode(courses, dto.courseCode.value).value.id.value))
  {
    if dto.Violations() == {} {
      CourseStore.ExistsIffFound(courses, dto.courseCode.value);
    }
  }

  /**
   * A registration is only ever created for an ACTIVE course found by the
   * requested code and the user found by the requested e-mail.
   */
  lemma CreatedOnlyForActiveCourse(rows: seq<Registration>, nextId: nat, users: seq<User>,
                                   courses: seq<CourseDTO>, dto: NewRegistrationDTO, now: Time)
    requires CourseIdsPresent(courses)
    requires RegistrationOutcome(rows, nextId, users, courses, dto, now).0 == Created
    ensures var added := RegistrationOutcome(rows, nextId, users, courses, dto, now).1[|rows|];
      && (exists i :: 0 <= i < |courses| && courses[i].id == Some(added.courseId)
                      && courses[i].code == dto.courseCode && IsActiveCourse(courses[i]))
      && (exists u :: u in users && u.id == added.userId && u.email == dto.studentEmail)
      && OnActiveCourse(courses, added.courseId)
  {
    var course := CourseStore.FindByCode(courses, dto.courseCode.value).value;
    var i :| 0 <= i < |courses| && courses[i] == course;
  }

  /** The ledger never holds the same user and course twice. */
  predicate PairsDistinct(rows: seq<Registration>)
  {
    forall i, j :: 0 <= i < j < |rows| ==> (rows[i].userId, rows[i].courseId) != (rows[j].userId, rows[j].courseId)
  }

  /** `createRegistration` keeps every pair unique. */
  lemma OutcomeKeepsPairsDistinct(rows: seq<Registration>, nextId: nat, users: seq<User>,
                                  courses: seq<CourseDTO>, dto: NewRegistrationDTO, now: Time)
    requires CourseIdsPresent(courses) && PairsDistinct(rows)
    ensures PairsDistinct(RegistrationOutcome(rows, nextId, users, courses, dto, now).1)
  {
    var (r, after) := RegistrationOutcome(rows, nextId, users, courses, dto, now);
    if r == Created {
      forall i, j | 0 <= i < j < |after|
        ensures (after[i].userId, after[i].courseId) != (after[j].userId, after[j].courseId)
      {
        if j == |rows| {
          assert after[i] == rows[i];
        }
      }
    }
  }

  /** Repeating a request that created a registration gives Conflict and changes nothing. */
  lemma RepeatIsConflict(rows: seq<Registration>, nextId: nat, users: seq<User>,
                         courses: seq<CourseDTO>, dto: NewRegistrationDTO, now: Time, later: Time)
    requires CourseIdsPresent(courses)
    requires RegistrationOutcome(rows, nextId, users, courses, dto, now).0 == Created
    ensures var after := RegistrationOutcome(rows, nextId, users, courses, dto, now).1;
      RegistrationOutcome(after, nextId + 1, users, courses, dto, later) == (Conflict(Message(AlreadyRegistered)), after)
  {
    var after := RegistrationOutcome(rows, nextId, users, courses, dto, now).1;
    assert after[|rows|].userId == after[|rows|].userId;
    assert 0 <= |rows| < |after|;
  }

  // ---- The repository and the controller ----

  /** The registration table. */
  class RegistrationRepository {
    var rows: seq<Registration>
    var nextId: nat

    /** Every stored registration has a generated id below the next one. */
    ghost predicate Valid()
      reads this
    {
      forall i :: 0 <= i < |rows| ==> rows[i].id.Some? && rows[i].id.value < nextId
    }

    constructor ()
      ensures rows == [] && nextId == 0 && Valid()
    {
      rows := [];
      nextId := 0;
    }

    /** `save` of a new registration: the table generates its id. */
    method Insert(r: Registration)
      requires Valid() && r.id.None?
      modifies this
      ensures Valid()
      ensures rows == old(rows) + [r.(id := Some(old(nextId)))] && nextId == old(nextId) + 1
    {
      rows := rows + [r.(id := Some(nextId))];
      nextId := nextId + 1;
    }
  }

  /** `RegistrationController`. The user table is passed to each request. */
  class RegistrationController {
    const registrations: RegistrationRepository
    const courses: CourseStore.CourseRepository

    constructor (registrations: RegistrationRepository, courses: CourseStore.CourseRepository)
      ensures this.registrations == registrations && this.courses == courses
    {
      this.registrations := registrations;
      this.courses := courses;
    }

    /** `createRegistration`: the guard chain, then one `save`. */
    method CreateRegistration(dto: NewRegistrationDTO, users: seq<User>, now: Time) returns (r: Response)
      requires registrations.Valid() && courses.Valid()
      modifies registrations
      ensures registrations.Valid()
      ensures CourseIdsPresent(courses.rows)
      ensures (r, registrations.rows)
              == RegistrationOutcome(old(registrations.rows), old(registrations.nextId), users, courses.rows, dto, now)
    {
      if dto.Violations() != {} {
        return BadRequest(InvalidFields(dto.Violations()));
      }
      var userOpt := FindUserByEmail(users, dto.studentEmail.value);
      if userOpt.None? {
        return NotFound(Message(UserNotFoundPrefix + dto.studentEmail.value));
      }
      var courseOpt := CourseStore.FindByCode(courses.rows, dto.courseCode.value);
      if courseOpt.None? {
        return NotFound(Message(CourseNotFoundPrefix + dto.courseCode.value));
      }
      var user := userOpt.value;
      var course := courseOpt.value;
      if course.status != Active {
        return BadRequest(Message(InactiveCoursePrefix + course.code.value));
      }
      if ExistsByUserAndCourse(registrations.rows, user.id, course.id.value) {
        return Conflict(Message(AlreadyRegistered));
      }
      registrations.Insert(Registration(None, user.id, course.id.value, now));
      return Created;
    }

    /** `report`: one item per active course with registrations, by non-increasing total. */
    function Report(): (items: seq<RegistrationReportItem>)
      reads registrations, courses
      ensures |items| == |Filter(courses.rows, Reported(registrations.rows))|
      ensures forall i, j :: 0 <= i < j < |items| ==> items[i].totalRegistrations >= items[j].totalRegistrations
      ensures registrations.rows == [] ==> items == []
    {
      ReportItemsSpec(courses.rows, registrations.rows);
      ReportItems(CourseRegistrationReport(courses.rows, registrations.rows))
    }
  }
}
