/**
 * The course table behind `CourseRepository` with its derived queries, and
 * `CourseController`: `create`, `save` and `inactivateCourse`.
 */
module CourseStore {
  import opened Wrappers
  import opened Constraints
  import opened Clock
  import opened Sequences
  import opened Util
  import opened Courses
  import opened CourseForms
  import Categories
  import CategoryStore

  // ---- Table invariants ----

  predicate IdsDistinct(rows: seq<CourseDTO>)
  {
    forall i, j :: 0 <= i < j < |rows| ==> rows[i].id != rows[j].id
  }

  /** The `code` column is unique. */
  predicate CodesDistinct(rows: seq<CourseDTO>)
  {
    forall i, j :: 0 <= i < j < |rows| ==> rows[i].code != rows[j].code
  }

  /** The `code`, `category` and `created_at` columns are not null. */
  predicate ColumnsPresent(rows: seq<CourseDTO>)
  {
    forall i :: 0 <= i < |rows| ==> rows[i].code.Some? && rows[i].category.Some? && rows[i].createdAt.Some?
  }

  /** Every row passes the entity's own validation. */
  predicate EntitiesValid(rows: seq<CourseDTO>)
  {
    forall i :: 0 <= i < |rows| ==> SatisfiesConstraints(rows[i])
  }

  // ---- Queries ----

  predicate ExistsByCode(rows: seq<CourseDTO>, code: string)
  {
    exists i :: 0 <= i < |rows| && rows[i].code == Some(code)
  }

  function HasCode(code: string): CourseDTO -> bool
  {
    (c: CourseDTO) => c.code == Some(code)
  }

  /** `findByCode`. */
  function FindByCode(rows: seq<CourseDTO>, code: string): (r: Option<CourseDTO>)
    ensures r.Some? ==> r.value in rows && r.value.code == Some(code)
  {
    FindFirst(rows, HasCode(code))
  }

  /** A code exists exactly when `findByCode` finds a course, and a course found has that code. */
  lemma ExistsIffFound(rows: seq<CourseDTO>, code: string)
    ensures ExistsByCode(rows, code) <==> FindByCode(rows, code).Some?
    ensures FindByCode(rows, code).Some? ==> FindByCode(rows, code).value.code == Some(code)
  {
    if ExistsByCode(rows, code) {
      var i :| 0 <= i < |rows| && rows[i].code == Some(code);
      assert HasCode(code)(rows[i]);
    }
  }

  /** With unique codes the course found is the only one with that code. */
  lemma FindByCodeAt(rows: seq<CourseDTO>, i: nat)
    requires CodesDistinct(rows) && i < |rows| && rows[i].code.Some?
    ensures FindByCode(rows, rows[i].code.value) == Some(rows[i])
    ensures forall j :: 0 <= j < |rows| && rows[j].code == rows[i].code ==> j == i
  {
    FindFirstAt(rows, HasCode(rows[i].code.value), i);
  }

  function HasId(id: nat): CourseDTO -> bool
  {
    (c: CourseDTO) => c.id == Some(id)
  }

  /** `findById`. */
  function FindById(rows: seq<CourseDTO>, id: nat): (r: Option<CourseDTO>)
    ensures r.Some? ==> r.value in rows && r.value.id == Some(id)
    ensures r.None? <==> forall i :: 0 <= i < |rows| ==> rows[i].id != Some(id)
  {
    FindFirst(rows, HasId(id))
  }

  lemma FindByIdAt(rows: seq<CourseDTO>, i: nat)
    requires IdsDistinct(rows) && i < |rows| && rows[i].id.Some?
    ensures FindById(rows, rows[i].id.value) == Some(rows[i])
  {
    FindFirstAt(rows, HasId(rows[i].id.value), i);
  }

  /** On a table with unique codes, Lombok's code-only equality is row identity. */
  lemma SameCourseIsIdentity(rows: seq<CourseDTO>, i: nat, j: nat)
    requires CodesDistinct(rows) && i < |rows| && j < |rows|
    ensures SameCourse(rows[i], rows[j]) <==> i == j
  {
  }

  /** `status = 'ACTIVE'`. */
  function IsActiveRow(): CourseDTO -> bool
  {
    (c: CourseDTO) => IsActiveCourse(c)
  }

  /** `findAllActiveCourses`: the active courses, in table order. */
  function FindAllActiveCourses(rows: seq<CourseDTO>): seq<CourseDTO>
  {
    Filter(rows, IsActiveRow())
  }

  /** `ORDER BY c.createdAt DESC`: newest first. The column is never null in the table. */
  function NewestFirst(c: CourseDTO): int
  {
    if c.createdAt.Some? then -c.createdAt.value else 0
  }

  /** Active and in the category named `name`. */
  function InCategory(name: string): CourseDTO -> bool
  {
    (c: CourseDTO) => IsActiveCourse(c) && c.category == Some(name)
  }

  /** `findActiveCoursesByCategory(categoryName)`. */
  function FindActiveCoursesByCategory(rows: seq<CourseDTO>, name: string): seq<CourseDTO>
  {
    SortBy(Filter(rows, InCategory(name)), NewestFirst)
  }

  /** `findAllActiveCoursesOrdered`. */
  function FindAllActiveCoursesOrdered(rows: seq<CourseDTO>): seq<CourseDTO>
  {
    SortBy(FindAllActiveCourses(rows), NewestFirst)
  }

  /** Along `s`, creation times never increase. */
  predicate NewestFirstOrder(s: seq<CourseDTO>)
  {
    forall i, j :: 0 <= i < j < |s| && s[i].createdAt.Some? && s[j].createdAt.Some? ==>
      s[i].createdAt.value >= s[j].createdAt.value
  }

  lemma SortedNewestFirst(s: seq<CourseDTO>)
    requires SortedBy(s, NewestFirst)
    ensures NewestFirstOrder(s)
  {
    forall i, j | 0 <= i < j < |s| && s[i].createdAt.Some? && s[j].createdAt.Some?
      ensures s[i].createdAt.value >= s[j].createdAt.value
    {
      assert NewestFirst(s[i]) <= NewestFirst(s[j]);
    }
  }

  /** `findAllActiveCourses` holds exactly the active courses, each as often as the table holds it. */
  lemma FindAllActiveCoursesSpec(rows: seq<CourseDTO>)
    ensures forall c :: c in FindAllActiveCourses(rows) <==> c in rows && IsActiveCourse(c)
    ensures forall c :: multiset(FindAllActiveCourses(rows))[c] == if IsActiveCourse(c) then multiset(rows)[c] else 0
    ensures multiset(FindAllActiveCourses(rows)) <= multiset(rows)
    ensures (forall c :: c in rows ==> IsActiveCourse(c)) ==> FindAllActiveCourses(rows) == rows
    ensures (forall c :: c in rows ==> !IsActiveCourse(c)) ==> FindAllActiveCourses(rows) == []
  {
    FilterSubMultiset(rows, IsActiveRow());
    FilterMultiplicity(rows, IsActiveRow());
    if forall c :: c in rows ==> IsActiveCourse(c) {
      FilterAll(rows, IsActiveRow());
    }
    if forall c :: c in rows ==> !IsActiveCourse(c) {
      FilterNone(rows, IsActiveRow());
    }
  }

  /**
   * `findActiveCoursesByCategory(name)` holds exactly the active courses of that
   * category, newest first, and it is the overall newest-first feed restricted
   * to the category.
   */
  lemma FindActiveCoursesByCategorySpec(rows: seq<CourseDTO>, name: string)
    ensures forall c :: c in FindActiveCoursesByCategory(rows, name) <==>
              c in rows && IsActiveCourse(c) && c.category == Some(name)
    ensures NewestFirstOrder(FindActiveCoursesByCategory(rows, name))
    ensures FindActiveCoursesByCategory(rows, name) == Filter(FindAllActiveCoursesOrdered(rows), InCategory(name))
  {
    var f := Filter(rows, InCategory(name));
    SortByMembers(f, NewestFirst);
    SortBySorted(f, NewestFirst);
    SortedNewestFirst(SortBy(f, NewestFirst));
    var active := FindAllActiveCourses(rows);
    SortByFilter(active, NewestFirst, InCategory(name));
    FilterWeaker(rows, IsActiveRow(), InCategory(name));
  }

  /** `findAllActiveCoursesOrdered` is `findAllActiveCourses` reordered newest first. */
  lemma FindAllActiveCoursesOrderedSpec(rows: seq<CourseDTO>)
    ensures multiset(FindAllActiveCoursesOrdered(rows)) == multiset(FindAllActiveCourses(rows))
    ensures forall c :: c in FindAllActiveCoursesOrdered(rows) <==> c in rows && IsActiveCourse(c)
    ensures NewestFirstOrder(FindAllActiveCoursesOrdered(rows))
  {
    var active := FindAllActiveCourses(rows);
    SortByPermutes(active, NewestFirst);
    SortByMembers(active, NewestFirst);
    SortBySorted(active, NewestFirst);
    SortedNewestFirst(SortBy(active, NewestFirst));
  }

  /** No inactive course is returned by any of the active queries. */
  lemma ActiveQueriesExcludeInactive(rows: seq<CourseDTO>, name: string, c: CourseDTO)
    requires !IsActiveCourse(c)
    ensures c !in FindAllActiveCourses(rows)
    ensures c !in FindAllActiveCoursesOrdered(rows)
    ensures c !in FindActiveCoursesByCategory(rows, name)
  {
    FindAllActiveCoursesOrderedSpec(rows);
    FindActiveCoursesByCategorySpec(rows, name);
  }

  // ---- The repository ----

  /** Every row with the id of `c` replaced by `c`. */
  function Replace(rows: seq<CourseDTO>, c: CourseDTO): (r: seq<CourseDTO>)
    ensures |r| == |rows|
    ensures forall i :: 0 <= i < |rows| ==> r[i] == if rows[i].id == c.id then c else rows[i]
  {
    seq(|rows|, i requires 0 <= i < |rows| => if rows[i].id == c.id then c else rows[i])
  }

  /** The course table. */
  class CourseRepository {
    var rows: seq<CourseDTO>
    var nextId: nat

    /** Generated ids below the next one, unique codes, and the non-null columns filled in. */
    ghost predicate Valid()
      reads this
    {
      IdsDistinct(rows) && CodesDistinct(rows) && ColumnsPresent(rows)
      && forall i :: 0 <= i < |rows| ==> rows[i].id.Some? && rows[i].id.value < nextId
    }

    constructor ()
      ensures rows == [] && nextId == 0 && Valid()
    {
      rows := [];
      nextId := 0;
    }

    /** `save` of a new course: the table generates its id and stamps its creation time. */
    method Insert(c: Course, now: Time)
      requires Valid() && c.id.None? && c.code.Some? && c.category.Some? && !ExistsByCode(rows, c.code.value)
      modifies this, c
      ensures Valid()
      ensures c.View() == old(c.View()).(id := Some(old(nextId)), createdAt := Some(now))
      ensures rows == old(rows) + [c.View()] && nextId == old(nextId) + 1
    {
      c.id := Some(nextId);
      c.createdAt := Some(now);
      rows := rows + [c.View()];
      nextId := nextId + 1;
    }

    /** `save` of a stored course whose code and creation time are unchanged: its row is overwritten. */
    method Update(c: Course)
      requires Valid() && c.id.Some? && FindById(rows, c.id.value).Some?
      requires c.code == FindById(rows, c.id.value).value.code
      requires c.createdAt == FindById(rows, c.id.value).value.createdAt
      requires c.category.Some?
      modifies this
      ensures Valid() && nextId == old(nextId)
      ensures rows == Replace(old(rows), c.View())
    {
      ReplaceKeepsInvariants(rows, c.View());
      rows := Replace(rows, c.View());
    }
  }

  /** Overwriting a row with one of the same id, code and creation time keeps the invariants. */
  lemma ReplaceKeepsInvariants(rows: seq<CourseDTO>, c: CourseDTO)
    requires IdsDistinct(rows) && CodesDistinct(rows) && ColumnsPresent(rows)
    requires c.id.Some? && FindById(rows, c.id.value).Some?
    requires c.code == FindById(rows, c.id.value).value.code
    requires c.createdAt == FindById(rows, c.id.value).value.createdAt
    requires c.category.Some?
    ensures IdsDistinct(Replace(rows, c)) && CodesDistinct(Replace(rows, c)) && ColumnsPresent(Replace(rows, c))
  {
    var old_ := FindById(rows, c.id.value).value;
    var r := Replace(rows, c);
    forall i | 0 <= i < |rows| && rows[i].id == c.id
      ensures rows[i] == old_
    {
      FindByIdAt(rows, i);
    }
    forall i, j | 0 <= i < j < |rows|
      ensures r[i].id != r[j].id && r[i].code != r[j].code
    {
    }
  }

  // ---- The controller's decisions ----

  const NewFormView := "admin/course/newForm"
  const ListTarget := "/admin/courses"
  const CourseNotFound: ErrorItem := ErrorItemDTO("code", "Curso não encontrado")
  const AlreadyInactive: ErrorItem := ErrorItemDTO("status", "Curso já está inativo")

  /** A course as the table stores it on insert. */
  function Stored(c: CourseDTO, id: nat, now: Time): CourseDTO
  {
    c.(id := Some(id), createdAt := Some(now))
  }

  /**
   * `save`: the response and the new table. The entity's own validation runs
   * when `save` persists it; a violation raises `ConstraintViolationException`,
   * the transaction stores nothing and the exception handler answers.
   */
  function SaveOutcome(rows: seq<CourseDTO>, nextId: nat, form: NewCourseForm, now: Time): (Response, seq<CourseDTO>)
  {
    if form.Violations() != {} then (FormRedisplay(NewFormView, form.Violations(), []), rows)
    else if ExistsByCode(rows, form.code.value) then (FormRedisplay(NewFormView, {}, []), rows)
    else if Violations(form.Model()) != {} then (ConstraintViolation(Violations(form.Model())), rows)
    else (Redirect(ListTarget), rows + [Stored(form.Model(), nextId, now)])
  }

  /**
   * An invalid form or a code already stored redisplays the form, and a code the
   * form accepts but the entity refuses (11 to 15 characters) is answered by the
   * exception handler on `code`; all three store nothing. Otherwise exactly one
   * active course holding the form's five fields is added and no stored course
   * changes.
   */
  lemma SaveOutcomeSpec(rows: seq<CourseDTO>, nextId: nat, form: NewCourseForm, now: Time)
    ensures var (r, after) := SaveOutcome(rows, nextId, form, now);
      && (form.Violations() != {} ==> r.FormRedisplay? && r.invalidFields == form.Violations() && after == rows)
      && (form.Violations() == {} && ExistsByCode(rows, form.code.value) ==> r.FormRedisplay? && after == rows)
      && (form.Violations() == {} && !ExistsByCode(rows, form.code.value) && |form.code.value| > 10 ==>
            r == ConstraintViolation({"code"}) && after == rows)
      && (r.Redirect? <==> form.Violations() == {} && !ExistsByCode(rows, form.code.value) && |form.code.value| <= 10)
      && (r.Redirect? ==> |after| == |rows| + 1 && after[..|rows|] == rows
                          && var c := after[|rows|];
                             c.name == form.name && c.code == form.code && c.instructor == form.instructor
                             && c.category == form.category && c.description == form.description
                             && IsActiveCourse(c) && c.inactivationDate.None? && c.createdAt == Some(now))
  {
    var (r, after) := SaveOutcome(rows, nextId, form, now);
    if form.Violations() == {} {
      ValidNewFormModel(form);
      if |form.code.value| > 10 {
        var v := Violations(form.Model());
        assert "code" in v;
        assert v == {"code"} by {
          assert "code" !in form.Violations();
          assert "name" !in form.Violations() && "instructor" !in form.Violations();
          assert "category" !in form.Violations() && "description" !in form.Violations();
        }
      }
    }
    if r.Redirect? {
      assert after[..|rows|] == rows;
    }
  }

  /** `save` keeps codes unique, the non-null columns filled in and every row valid. */
  lemma SavePreservesInvariants(rows: seq<CourseDTO>, nextId: nat, form: NewCourseForm, now: Time)
    requires CodesDistinct(rows) && ColumnsPresent(rows)
    ensures CodesDistinct(SaveOutcome(rows, nextId, form, now).1)
    ensures ColumnsPresent(SaveOutcome(rows, nextId, form, now).1)
    ensures EntitiesValid(rows) ==> EntitiesValid(SaveOutcome(rows, nextId, form, now).1)
  {
    var after := SaveOutcome(rows, nextId, form, now).1;
    if after != rows {
      assert "code" !in form.Violations();
      forall i, j | 0 <= i < j < |after|
        ensures after[i].code != after[j].code
      {
        if j == |rows| {
          assert after[i] == rows[i];
        }
      }
    }
  }

  /** `inactivateCourse(code)`: the response and the new table. */
  function InactivateOutcome(rows: seq<CourseDTO>, code: string, now: Time): (Response, seq<CourseDTO>)
  {
    match FindByCode(rows, code)
    case None => (NotFound(Error(CourseNotFound)), rows)
    case Some(c) =>
      if c.status == Inactive then (BadRequest(Error(AlreadyInactive)), rows)
      else (Ok, Replace(rows, Inactivated(c, now)))
  }

  /**
   * An unknown code is NotFound on field `code`, an inactive course is BadRequest
   * on field `status`, and both leave the table, inactivation dates included,
   * unchanged. An active course becomes inactive at `now`, and no other course changes.
   */
  lemma InactivateOutcomeSpec(rows: seq<CourseDTO>, code: string, now: Time)
    requires IdsDistinct(rows) && CodesDistinct(rows) && forall i :: 0 <= i < |rows| ==> rows[i].id.Some?
    ensures !ExistsByCode(rows, code) ==>
              InactivateOutcome(rows, code, now) == (NotFound(Error(CourseNotFound)), rows)
              && CourseNotFound.field == "code"
    ensures forall i :: 0 <= i < |rows| && rows[i].code == Some(code) && !IsActiveCourse(rows[i]) ==>
              InactivateOutcome(rows, code, now) == (BadRequest(Error(AlreadyInactive)), rows)
              && AlreadyInactive.field == "status"
    ensures forall i :: 0 <= i < |rows| && rows[i].code == Some(code) && IsActiveCourse(rows[i]) ==>
              var (r, after) := InactivateOutcome(rows, code, now);
              && r == Ok && |after| == |rows| && after[i] == Inactivated(rows[i], now)
              && forall j :: 0 <= j < |rows| && j != i ==> after[j] == rows[j]
  {
    ExistsIffFound(rows, code);
    forall i | 0 <= i < |rows| && rows[i].code == Some(code)
      ensures FindByCode(rows, code) == Some(rows[i])
    {
      FindByCodeAt(rows, i);
    }
  }

  /**
   * `inactivateCourse` keeps every table invariant, and a table of valid rows
   * stays valid, so the entity's validation on update never fails there.
   */
  lemma InactivatePreservesInvariants(rows: seq<CourseDTO>, code: string, now: Time)
    requires IdsDistinct(rows) && CodesDistinct(rows) && ColumnsPresent(rows)
    requires forall i :: 0 <= i < |rows| ==> rows[i].id.Some?
    ensures var after := InactivateOutcome(rows, code, now).1;
      IdsDistinct(after) && CodesDistinct(after) && ColumnsPresent(after)
    ensures EntitiesValid(rows) ==> EntitiesValid(InactivateOutcome(rows, code, now).1)
  {
    var found := FindByCode(rows, code);
    if found.Some? && found.value.status == Active {
      var c := found.value;
      var k :| 0 <= k < |rows| && rows[k] == c;
      FindByIdAt(rows, k);
      ReplaceKeepsInvariants(rows, Inactivated(c, now));
      TransitionsKeepConstraints(c, now);
    }
  }

  /** A second `inactivateCourse` with the same code is refused and changes nothing. */
  lemma InactivateTwice(rows: seq<CourseDTO>, code: string, t1: Time, t2: Time)
    requires IdsDistinct(rows) && CodesDistinct(rows) && ColumnsPresent(rows)
    requires forall i :: 0 <= i < |rows| ==> rows[i].id.Some?
    requires InactivateOutcome(rows, code, t1).0 == Ok
    ensures var after := InactivateOutcome(rows, code, t1).1;
      InactivateOutcome(after, code, t2) == (BadRequest(Error(AlreadyInactive)), after)
  {
    var c := FindByCode(rows, code).value;
    var k :| 0 <= k < |rows| && rows[k] == c;
    InactivateOutcomeSpec(rows, code, t1);
    InactivatePreservesInvariants(rows, code, t1);
    var after := InactivateOutcome(rows, code, t1).1;
    assert after[k].code == Some(code) && !IsActiveCourse(after[k]);
    FindByCodeAt(after, k);
  }

  /** `CourseController`. */
  class CourseController {
    const courses: CourseRepository
    const categories: CategoryStore.CategoryRepository

    constructor (courses: CourseRepository, categories: CategoryStore.CategoryRepository)
      ensures this.courses == courses && this.categories == categories
    {
      this.courses := courses;
      this.categories := categories;
    }

    /**
     * `create`: the categories offered on the new-course form, every stored one
     * by ascending order, those with equal order in table order.
     */
    function Create(): (r: seq<Categories.CategoryRow>)
      reads categories
      ensures multiset(r) == multiset(categories.rows)
      ensures SortedBy(r, CategoryStore.OrderKey)
      ensures forall k :: Filter(r, KeyIs(CategoryStore.OrderKey, k)) == Filter(categories.rows, KeyIs(CategoryStore.OrderKey, k))
    {
      var rows := categories.rows;
      SortByPermutes(rows, CategoryStore.OrderKey);
      SortBySorted(rows, CategoryStore.OrderKey);
      assert forall k :: Filter(SortBy(rows, CategoryStore.OrderKey), KeyIs(CategoryStore.OrderKey, k)) == Filter(rows, KeyIs(CategoryStore.OrderKey, k)) by {
        forall k
          ensures Filter(SortBy(rows, CategoryStore.OrderKey), KeyIs(CategoryStore.OrderKey, k)) == Filter(rows, KeyIs(CategoryStore.OrderKey, k))
        {
          SortByStable(rows, CategoryStore.OrderKey, k);
        }
      }
      SortBy(rows, CategoryStore.OrderKey)
    }

    /** `save`: validation, then the duplicate check, then the insert, which validates the entity. */
    method Save(form: NewCourseForm, now: Time) returns (r: Response)
      requires courses.Valid()
      modifies courses
      ensures courses.Valid()
      ensures (r, courses.rows) == SaveOutcome(old(courses.rows), old(courses.nextId), form, now)
    {
      if form.Violations() != {} {
        return FormRedisplay(NewFormView, form.Violations(), []);
      }
      if ExistsByCode(courses.rows, form.code.value) {
        return FormRedisplay(NewFormView, {}, []);
      }
      var c := form.ToModel();
      var violations := Violations(c.View());
      if violations != {} {
        return ConstraintViolation(violations);
      }
      courses.Insert(c, now);
      return Redirect(ListTarget);
    }

    /** `inactivateCourse(code)`: lookup, the status guard, then `inactivate` and `save`. */
    method InactivateCourse(code: string, now: Time) returns (r: Response)
      requires courses.Valid()
      modifies courses
      ensures courses.Valid()
      ensures (r, courses.rows) == InactivateOutcome(old(courses.rows), code, now)
    {
      var found := FindByCode(courses.rows, code);
      if found.None? {
        return NotFound(Error(CourseNotFound));
      }
      var c := new Course.Load(found.value);
      if c.status == Inactive {
        return BadRequest(Error(AlreadyInactive));
      }
      var k :| 0 <= k < |courses.rows| && courses.rows[k] == found.value;
      FindByIdAt(courses.rows, k);
      c.Inactivate(now);
      courses.Update(c);
      return Ok;
    }
  }
}
