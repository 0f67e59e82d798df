/**
 * The course entity: its columns and their constraints, its status machine
 * (`activate`, `inactivate`, `isActive`) and its code-only equality.
 */
module Courses {
  import opened Wrappers
  import opened Constraints
  import opened Clock

  /** `CourseStatus`. */
  datatype Status = Active | Inactive

  /** A snapshot of a course's columns (the `CourseDTO` record carries exactly these). */
  datatype CourseDTO = CourseDTO(
    id: Option<nat>,
    name: Text,
    code: Text,
    instructor: Text,
    category: Text,
    description: Text,
    status: Status,
    createdAt: Option<Time>,
    inactivationDate: Option<Time>)

  // ---- Entity constraints ----

  predicate NameValid(t: Text) { NotBlank(t) && SizeBetween(t, 0, 100) }

  /** The entity's own code rule: 4 to 10 characters, against 4 to 15 on the course forms. */
  predicate CodeValid(t: Text) { NotBlank(t) && SizeBetween(t, 4, 10) && MatchesCodePattern(t) }

  predicate InstructorValid(t: Text) { NotBlank(t) && SizeBetween(t, 0, 100) }

  predicate CategoryValid(t: Text) { NotBlank(t) && SizeBetween(t, 0, 50) }

  /** The description is optional. */
  predicate DescriptionValid(t: Text) { SizeBetween(t, 0, 500) }

  predicate SatisfiesConstraints(v: CourseDTO)
  {
    NameValid(v.name) && CodeValid(v.code) && InstructorValid(v.instructor)
    && CategoryValid(v.category) && DescriptionValid(v.description)
  }

  /**
   * The properties Bean Validation reports when it checks the entity on
   * persist or update: none exactly when the entity satisfies its constraints.
   */
  function Violations(v: CourseDTO): (r: set<string>)
    ensures r == {} <==> SatisfiesConstraints(v)
    ensures r <= {"name", "code", "instructor", "category", "description"}
    ensures "code" in r <==> !CodeValid(v.code)
  {
    (if NameValid(v.name) then {} else {"name"})
    + (if CodeValid(v.code) then {} else {"code"})
    + (if InstructorValid(v.instructor) then {} else {"instructor"})
    + (if CategoryValid(v.category) then {} else {"category"})
    + (if DescriptionValid(v.description) then {} else {"description"})
  }

  /** An entity code is valid exactly when it is a code of 4 to 10 characters. */
  lemma CodeValidIff(t: Text)
    ensures CodeValid(t) <==> t.Some? && 4 <= |t.value| <= 10 && WellFormedCode(t.value)
  {
    if t.Some? {
      IsCodeCorrect(t.value);
    }
  }

  /** A missing or blank name, instructor or category, or a missing code, is a violation. */
  lemma RequiredFieldsPresent(v: CourseDTO)
    requires SatisfiesConstraints(v)
    ensures v.name.Some? && v.code.Some? && v.instructor.Some? && v.category.Some?
    ensures |v.name.value| <= 100 && |v.instructor.value| <= 100 && |v.category.value| <= 50
    ensures v.description.Some? ==> |v.description.value| <= 500
  {
  }

  // ---- Status machine on snapshots ----

  /** What `inactivate` leaves: INACTIVE, inactivated at `now`. */
  function Inactivated(v: CourseDTO, now: Time): CourseDTO
  {
    v.(status := Inactive, inactivationDate := Some(now))
  }

  /** What `activate` leaves: ACTIVE, no inactivation date. */
  function Activated(v: CourseDTO): CourseDTO
  {
    v.(status := Active, inactivationDate := None)
  }

  predicate IsActiveCourse(v: CourseDTO) { v.status == Active }

  /** An inactive course has an inactivation date and an active one has none. */
  predicate StatusConsistent(v: CourseDTO)
  {
    v.status == Inactive <==> v.inactivationDate.Some?
  }

  /** The columns other than status and inactivation date agree. */
  predicate SameApartFromStatus(a: CourseDTO, b: CourseDTO)
  {
    a.id == b.id && a.name == b.name && a.code == b.code && a.instructor == b.instructor
    && a.category == b.category && a.description == b.description && a.createdAt == b.createdAt
  }

  /** `inactivate` marks the course inactive at `now`, whatever its earlier state, and touches nothing else. */
  lemma InactivatedSpec(v: CourseDTO, now: Time)
    ensures !IsActiveCourse(Inactivated(v, now))
    ensures Inactivated(v, now).inactivationDate == Some(now)
    ensures StatusConsistent(Inactivated(v, now))
    ensures SameApartFromStatus(v, Inactivated(v, now))
  {
  }

  /** `activate` marks the course active without a date, whatever its earlier state, and touches nothing else. */
  lemma ActivatedSpec(v: CourseDTO)
    ensures IsActiveCourse(Activated(v))
    ensures Activated(v).inactivationDate.None?
    ensures StatusConsistent(Activated(v))
    ensures SameApartFromStatus(v, Activated(v))
  {
  }

  /**
   * The transitions only overwrite: the last one decides the status, a second
   * `inactivate` replaces the earlier date, and `activate` undoes `inactivate`
   * on a course that was active.
   */
  lemma TransitionsOverwrite(v: CourseDTO, t1: Time, t2: Time)
    ensures Inactivated(Inactivated(v, t1), t2) == Inactivated(v, t2)
    ensures Activated(Inactivated(v, t1)) == Activated(v)
    ensures Inactivated(Activated(v), t2) == Inactivated(v, t2)
    ensures Activated(Activated(v)) == Activated(v)
    ensures IsActiveCourse(v) && StatusConsistent(v) ==> Activated(Inactivated(v, t1)) == v
  {
  }

  /** Neither transition affects whether the course satisfies its column constraints. */
  lemma TransitionsKeepConstraints(v: CourseDTO, now: Time)
    ensures SatisfiesConstraints(Inactivated(v, now)) <==> SatisfiesConstraints(v)
    ensures SatisfiesConstraints(Activated(v)) <==> SatisfiesConstraints(v)
  {
  }

  // ---- Equality ----

  /** Lombok's `equals` with only `code` included: null codes are equal to each other. */
  predicate SameCourse(a: CourseDTO, b: CourseDTO)
  {
    a.code == b.code
  }

  /** Equality is an equivalence that no column but the code affects. */
  lemma SameCourseIsEquivalence(a: CourseDTO, b: CourseDTO, c: CourseDTO, now: Time)
    ensures SameCourse(a, a)
    ensures SameCourse(a, b) ==> SameCourse(b, a)
    ensures SameCourse(a, b) && SameCourse(b, c) ==> SameCourse(a, c)
    ensures SameCourse(a, Inactivated(a, now)) && SameCourse(a, Activated(a))
    ensures SameCourse(a, b) <==> SameCourse(a.(id := b.id, name := b.name, instructor := b.instructor,
                                                 category := b.category, description := b.description,
                                                 status := b.status, createdAt := b.createdAt,
                                                 inactivationDate := b.inactivationDate), b)
  {
  }

  // ---- The entity ----

  /** The `Course` entity. `createdAt` is filled in by the repository when the course is first stored. */
  class Course {
    var id: Option<nat>
    var name: Text
    var code: Text
    var instructor: Text
    var category: Text
    var description: Text
    var status: Status
    var createdAt: Option<Time>
    var inactivationDate: Option<Time>

    /** The entity's columns. */
    function View(): CourseDTO
      reads this
    {
      CourseDTO(id, name, code, instructor, category, description, status, createdAt, inactivationDate)
    }

    /** The five-argument constructor: ACTIVE by default, not stored, never inactivated. */
    constructor (name: Text, code: Text, instructor: Text, category: Text, description: Text)
      ensures View() == CourseDTO(None, name, code, instructor, category, description, Active, None, None)
      ensures IsActive() && StatusConsistent(View())
    {
      this.id := None;
      this.name := name;
      this.code := code;
      this.instructor := instructor;
      this.category := category;
      this.description := description;
      this.status := Active;
      this.createdAt := None;
      this.inactivationDate := None;
    }

    /** The entity the repository hands out for a stored row. */
    constructor Load(v: CourseDTO)
      ensures View() == v
    {
      id := v.id;
      name := v.name;
      code := v.code;
      instructor := v.instructor;
      category := v.category;
      description := v.description;
      status := v.status;
      createdAt := v.createdAt;
      inactivationDate := v.inactivationDate;
    }

    /** Sets INACTIVE and the inactivation date to `now`, also on a course that is already inactive. */
    method Inactivate(now: Time)
      modifies this`status, this`inactivationDate
      ensures View() == Inactivated(old(View()), now)
    {
      status := Inactive;
      inactivationDate := Some(now);
    }

    /** Sets ACTIVE and clears the inactivation date. */
    method Activate()
      modifies this`status, this`inactivationDate
      ensures View() == Activated(old(View()))
    {
      status := Active;
      inactivationDate := None;
    }

    /** Whether the status is ACTIVE. */
    predicate IsActive()
      reads this
    {
      IsActiveCourse(View())
    }
  }
}
