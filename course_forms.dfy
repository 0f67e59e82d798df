/**
 * `NewCourseForm` and `EditCourseForm`: their field constraints (the same on
 * both forms, with a longer code limit than the entity's), `toModel`, the copy
 * constructor and `updateCourse`.
 */
module CourseForms {
  import opened Wrappers
  import opened Constraints
  import opened Clock
  import opened Courses

  /** The forms' code rule: 4 to 15 characters matching the code pattern. */
  predicate FormCodeValid(t: Text) { NotBlank(t) && SizeBetween(t, 4, 15) && MatchesCodePattern(t) }

  /** The fields of a course form that fail their constraints. */
  function FieldViolations(name: Text, code: Text, instructor: Text, category: Text, description: Text): (r: set<string>)
    ensures r <= {"name", "code", "instructor", "category", "description"}
  {
    (if NameValid(name) then {} else {"name"})
    + (if FormCodeValid(code) then {} else {"code"})
    + (if InstructorValid(instructor) then {} else {"instructor"})
    + (if CategoryValid(category) then {} else {"category"})
    + (if DescriptionValid(description) then {} else {"description"})
  }

  /** The form passes when every one of its five fields does. */
  lemma NoViolationsIff(name: Text, code: Text, instructor: Text, category: Text, description: Text)
    ensures FieldViolations(name, code, instructor, category, description) == {} <==>
              NameValid(name) && FormCodeValid(code) && InstructorValid(instructor)
              && CategoryValid(category) && DescriptionValid(description)
  {
    var r := FieldViolations(name, code, instructor, category, description);
    if !NameValid(name) { assert "name" in r; }
    if !FormCodeValid(code) { assert "code" in r; }
    if !InstructorValid(instructor) { assert "instructor" in r; }
    if !CategoryValid(category) { assert "category" in r; }
    if !DescriptionValid(description) { assert "description" in r; }
  }

  /** The form rule, through the recogniser's characterisation. */
  lemma FormCodeValidIff(t: Text)
    ensures FormCodeValid(t) <==> t.Some? && 4 <= |t.value| <= 15 && WellFormedCode(t.value)
  {
    if t.Some? {
      IsCodeCorrect(t.value);
    }
  }

  /**
   * A code the forms accept is accepted by the entity exactly when it has at
   * most 10 characters: codes of 11 to 15 characters pass the form only.
   */
  lemma FormCodeAgainstEntity(t: Text)
    requires FormCodeValid(t)
    ensures CodeValid(t) <==> |t.value| <= 10
  {
  }

  /** The codes the forms are expected to accept. */
  lemma AcceptedExampleCodes()
    ensures FormCodeValid(Some("java")) && FormCodeValid(Some("react-js")) && FormCodeValid(Some("node-js"))
  {
    ValidFormCode("java");
    ValidFormCode("react-js");
    ValidFormCode("node-js");
  }

  /** The two longer codes the forms are expected to accept. */
  lemma AcceptedLongExampleCodes()
    ensures FormCodeValid(Some("spring-boot")) && FormCodeValid(Some("python-django"))
  {
    ValidFormCode("spring-boot");
    ValidFormCode("python-django");
  }

  /** A code of 4 to 15 characters passes the forms' rule. */
  lemma ValidFormCode(s: string)
    requires IsCode(s) && 4 <= |s| <= 15
    ensures FormCodeValid(Some(s))
  {
    CodeIsNotBlank(s);
  }

  /** The codes the forms are expected to reject: digits, too short, a space, too long. */
  lemma RejectedExampleCodes()
    ensures !FormCodeValid(Some("123")) && !FormCodeValid(Some("ab"))
    ensures !FormCodeValid(Some("spring boot")) && !FormCodeValid(Some("very-very-very-long-code"))
  {
  }

  /** A twelve-character code that the forms accept and the entity refuses. */
  lemma FormOnlyExampleCode()
    ensures FormCodeValid(Some("react-native")) && !CodeValid(Some("react-native"))
  {
    ValidFormCode("react-native");
  }

  // ---- NewCourseForm ----

  datatype NewCourseForm = NewCourseForm(name: Text, code: Text, instructor: Text, category: Text, description: Text)
  {
    function Violations(): set<string>
    {
      FieldViolations(name, code, instructor, category, description)
    }

    /** The columns of the course `toModel` builds. */
    function Model(): (c: CourseDTO)
      ensures c.id.None? && c.createdAt.None?
      ensures IsActiveCourse(c) && c.inactivationDate.None?
      ensures c.name == name && c.code == code && c.instructor == instructor
      ensures c.category == category && c.description == description
    {
      CourseDTO(None, name, code, instructor, category, description, Active, None, None)
    }

    /** `toModel`: a new, unsaved course holding the form's five fields. */
    method ToModel() returns (c: Course)
      ensures fresh(c) && c.View() == Model()
    {
      c := new Course(name, code, instructor, category, description);
    }
  }

  /** A valid form's course is consistent, and it satisfies the entity's checks exactly when its code has at most 10 characters. */
  lemma ValidNewFormModel(f: NewCourseForm)
    requires f.Violations() == {}
    ensures StatusConsistent(f.Model())
    ensures SatisfiesConstraints(f.Model()) <==> |f.code.value| <= 10
  {
    var r := f.Violations();
    assert "code" !in r;
    assert "name" !in r && "instructor" !in r && "category" !in r && "description" !in r;
  }

  /** Blank required fields are reported, and a missing or empty description is not. */
  lemma NewFormBlankFields(f: NewCourseForm)
    ensures !NotBlank(f.name) ==> "name" in f.Violations()
    ensures !NotBlank(f.instructor) ==> "instructor" in f.Violations()
    ensures !NotBlank(f.category) ==> "category" in f.Violations()
    ensures f.description.None? || f.description == Some("") ==> "description" !in f.Violations()
    ensures f.description.Some? && |f.description.value| > 500 ==> "description" in f.Violations()
  {
  }

  // ---- EditCourseForm ----

  datatype EditCourseForm = EditCourseForm(
    name: Text, code: Text, instructor: Text, category: Text, description: Text, status: Option<Status>)
  {
    /** The status is not validated. */
    function Violations(): set<string>
    {
      FieldViolations(name, code, instructor, category, description)
    }
  }

  /** The copy constructor `EditCourseForm(Course)`. */
  function FormOf(c: CourseDTO): (f: EditCourseForm)
    ensures f.name == c.name && f.code == c.code && f.instructor == c.instructor
    ensures f.category == c.category && f.description == c.description && f.status == Some(c.status)
  {
    EditCourseForm(c.name, c.code, c.instructor, c.category, c.description, Some(c.status))
  }

  /** The columns `updateCourse` leaves: the five fields copied, then the status dispatch. */
  function Applied(f: EditCourseForm, c: CourseDTO, now: Time): CourseDTO
  {
    var copied := c.(name := f.name, code := f.code, instructor := f.instructor,
                     category := f.category, description := f.description);
    match f.status
    case Some(Active) => Activated(copied)
    case Some(Inactive) => Inactivated(copied, now)
    case None => copied
  }

  /**
   * `updateCourse` overwrites the five text fields, keeps id and creation time,
   * and then: ACTIVE activates, INACTIVE inactivates at `now` (replacing any
   * earlier date), and a null status leaves status and date alone.
   */
  lemma AppliedSpec(f: EditCourseForm, c: CourseDTO, now: Time)
    ensures var r := Applied(f, c, now);
      && r.name == f.name && r.code == f.code && r.instructor == f.instructor
      && r.category == f.category && r.description == f.description
      && r.id == c.id && r.createdAt == c.createdAt
      && (f.status == Some(Active) ==> r.status == Active && r.inactivationDate.None?)
      && (f.status == Some(Inactive) ==> r.status == Inactive && r.inactivationDate == Some(now))
      && (f.status.None? ==> r.status == c.status && r.inactivationDate == c.inactivationDate)
  {
  }

  /** Applying a form keeps a course's status consistent, and a non-null status makes it consistent. */
  lemma AppliedConsistent(f: EditCourseForm, c: CourseDTO, now: Time)
    requires f.status.Some? || StatusConsistent(c)
    ensures StatusConsistent(Applied(f, c, now))
  {
  }

  /**
   * Applying a course's own form back to it changes none of its fields except,
   * on an inactive course, the inactivation date, which becomes `now`.
   */
  lemma ReapplyOwnForm(c: CourseDTO, now: Time)
    ensures SameApartFromStatus(Applied(FormOf(c), c, now), c)
    ensures Applied(FormOf(c), c, now).status == c.status
    ensures IsActiveCourse(c) && StatusConsistent(c) ==> Applied(FormOf(c), c, now) == c
    ensures !IsActiveCourse(c) ==> Applied(FormOf(c), c, now) == Inactivated(c, now)
  {
  }

  /** `updateCourse`: the setters, then `activate` or `inactivate` as the form's status says. */
  method UpdateCourse(f: EditCourseForm, c: Course, now: Time)
    modifies c
    ensures c.View() == Applied(f, old(c.View()), now)
  {
    c.name := f.name;
    c.code := f.code;
    c.instructor := f.instructor;
    c.category := f.category;
    c.description := f.description;
    if f.status == Some(Active) {
      c.Activate();
    } else if f.status == Some(Inactive) {
      c.Inactivate(now);
    }
  }
}
